/**
 * `Util.toInt` of the FeliCa library the decoder calls. Its source is not
 * part of this model; its behaviour is ASSUMED to be the usual one: the
 * arguments, each masked to its unsigned value, are the bytes of a 32-bit
 * `int` with the first argument most significant.
 */
module FelicaUtil {
  import opened JavaRuntime

  /** The number whose big-endian bytes are `b0 b1 b2 b3`. */
  function BigEndian(b0: byte, b1: byte, b2: byte, b3: byte): (u: nat)
    ensures u < TwoTo32
  {
    b0 * 0x100_0000 + b1 * 0x1_0000 + b2 * 0x100 + b3
  }

  /**
   * `Util.toInt(b0, b1, b2, b3)`: the `int` whose bit pattern is `b0 b1 b2 b3`,
   * `b0` most significant. Negative exactly when the top bit of `b0` is set.
   */
  function ToInt(b0: byte, b1: byte, b2: byte, b3: byte): (r: int32)
    ensures Unsigned(r) == BigEndian(b0, b1, b2, b3)
    ensures r < 0 <==> b0 >= 0x80
  {
    ToInt32(BigEndian(b0, b1, b2, b3))
  }

  /** The four bytes of an `int`, most significant first (the inverse of `ToInt`). */
  function ToBytes(x: int32): (bs: seq<byte>)
    ensures |bs| == 4
  {
    var u := Unsigned(x);
    [u / 0x100_0000, u / 0x1_0000 % 0x100, u / 0x100 % 0x100, u % 0x100]
  }

  /** Splitting an `int` into bytes and assembling them again gives it back. */
  lemma ToIntOfToBytes(x: int32)
    ensures var bs := ToBytes(x); ToInt(bs[0], bs[1], bs[2], bs[3]) == x
  {
    var u := Unsigned(x);
    var bs := ToBytes(x);
    assert u == (u / 0x100) * 0x100 + bs[3];
    assert u / 0x100 == (u / 0x1_0000) * 0x100 + bs[2];
    assert u / 0x1_0000 == (u / 0x100_0000) * 0x100 + bs[1];
    assert BigEndian(bs[0], bs[1], bs[2], bs[3]) == u;
    UnsignedRoundTrip(x, u);
  }

  /** Assembling four bytes and splitting the result gives the same four bytes. */
  lemma ToBytesOfToInt(b0: byte, b1: byte, b2: byte, b3: byte)
    ensures ToBytes(ToInt(b0, b1, b2, b3)) == [b0, b1, b2, b3]
  {
    var u := BigEndian(b0, b1, b2, b3);
    assert u / 0x100 == b0 * 0x1_0000 + b1 * 0x100 + b2;
    assert u / 0x1_0000 == b0 * 0x100 + b1;
    assert u / 0x100_0000 == b0;
  }
}
