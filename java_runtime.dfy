/**
 * The small part of the Java runtime the decoder leans on: the two unchecked
 * exceptions it can raise, dereferencing and indexing that raise them, the
 * byte as the decoder reads it, and 32-bit two's-complement `int`.
 */
module JavaRuntime {
  import opened Wrappers

  /** The unchecked exceptions a careless read of the card can raise. */
  datatype Fault =
    | NullPointer       // a method called on a `null` system or service
    | IndexOutOfBounds  // `List.get` or an array read past the end (ArrayIndexOutOfBoundsException included)

  /**
   * A card byte as the decoder compares and combines it: the unsigned value
   * `b & 0xFF` of a Java `byte`. `b != 0` holds of the signed byte exactly when
   * it holds of this value.
   */
  type byte = x: int | 0 <= x < 0x100

  /** Java's `int`. */
  type int32 = x: int | -0x8000_0000 <= x < 0x8000_0000

  const TwoTo32: int := 0x1_0000_0000

  /** `ref.m(...)`: a call on `null` raises NullPointerException. */
  function Deref<T>(ref: Option<T>): Result<T, Fault>
  {
    match ref
    case None => Err(NullPointer)
    case Some(v) => Ok(v)
  }

  /** `list.get(i)` or `array[i]`: an index outside the bounds raises. */
  function Get<T>(s: seq<T>, i: int): Result<T, Fault>
  {
    if 0 <= i < |s| then Ok(s[i]) else Err(IndexOutOfBounds)
  }

  /** The 32-bit pattern of an `int`, read as an unsigned number. */
  function Unsigned(x: int32): (u: nat)
    ensures u < TwoTo32
    ensures (u - x) % TwoTo32 == 0
  {
    if x < 0 then x + TwoTo32 else x
  }

  /** Narrowing to `int`: keep the low 32 bits and read them as two's complement. */
  function ToInt32(n: int): (x: int32)
    ensures (x - n) % TwoTo32 == 0
  {
    var low := n % TwoTo32;
    if low < 0x8000_0000 then low else low - TwoTo32
  }

  /** Narrowing is the inverse of reading an `int` as unsigned, in both directions. */
  lemma UnsignedRoundTrip(x: int32, u: nat)
    requires u < TwoTo32
    ensures ToInt32(Unsigned(x)) == x
    ensures Unsigned(ToInt32(u)) == u
  {
  }
}
