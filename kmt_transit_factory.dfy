/**
 * The Kartu Multi Trip (KMT) decoder: recognises a KMT FeliCa card and
 * decodes its identity, its serial number, its balance and its trip history
 * from the blocks of three services of system 0x90B7.
 */
module KmtTransitFactory {
  import opened Wrappers
  import opened JavaRuntime
  import opened Felica
  import opened FelicaUtil

  // The layout of a KMT card.
  const SystemCodeKmt: Code := 0x90B7
  const ServiceKmtId: Code := 0x300B
  const ServiceKmtBalance: Code := 0x1017
  const ServiceKmtHistory: Code := 0x200F

  const CardName: string := "Kartu Multi Trip"
  /** The identity's serial when the card has no id service. */
  const NoSerial: string := "-"
  /** The info's serial when the card has no id service: the ASCII bytes of "000000000000000". */
  const ZeroSerial: seq<byte> := [0x30, 0x30, 0x30, 0x30, 0x30, 0x30, 0x30, 0x30, 0x30, 0x30, 0x30, 0x30, 0x30, 0x30, 0x30]

  /** `TransitIdentity.create(name, serialNumber)`. */
  datatype TransitIdentity = TransitIdentity(name: string, serialNumber: string)

  /** `KMTTrip.create(block)`: a trip record wrapping the history block it was made from. */
  datatype KmtTrip = KmtTrip(block: Block)

  /** `KMTTransitInfo.create(trips, serialNumber, currentBalance)`. */
  datatype KmtTransitInfo = KmtTransitInfo(trips: seq<KmtTrip>, serialNumber: seq<byte>, currentBalance: int32)

  /** The service `code` of the KMT system, if the card has both. */
  function KmtService(card: Card, code: Code): Option<Service>
  {
    if SystemCodeKmt in card.systems then card.systems[SystemCodeKmt].GetService(code) else None
  }

  // ---------------------------------------------------------------------------
  // check

  /** `check`: the card is a KMT card when it exposes the KMT system; nothing else is looked at. */
  predicate Check(card: Card): (matched: bool)
    ensures matched <==> SystemCodeKmt in card.systems
  {
    card.GetSystem(SystemCodeKmt).Some?
  }

  /** Whether a card is accepted depends on the presence of system 0x90B7 alone. */
  lemma CheckIgnoresEverythingElse(card: Card, other: Card)
    requires (SystemCodeKmt in card.systems) == (SystemCodeKmt in other.systems)
    ensures Check(card) == Check(other)
  {
  }

  // ---------------------------------------------------------------------------
  // parseIdentity

  /**
   * The serial of the identity: block 0 of the id service decoded by
   * `decode` (Java's `new String(bytes)` in the platform charset), or "-".
   */
  function IdentitySerial(system: FelicaSystem, decode: seq<byte> -> string): Result<string, Fault>
  {
    match system.GetService(ServiceKmtId)
    case None => Ok(NoSerial)
    case Some(service) =>
      var block :- Get(service.blocks, 0);
      Ok(decode(block.data))
  }

  /**
   * `parseIdentity`. Raises NullPointerException on a card that `Check`
   * rejects, and IndexOutOfBoundsException when the id service has no block.
   */
  function ParseIdentity(card: Card, decode: seq<byte> -> string): (r: Result<TransitIdentity, Fault>)
    ensures r.Ok? ==> r.value.name == CardName
    ensures r == Err(NullPointer) <==> !Check(card)
    ensures Check(card) && KmtService(card, ServiceKmtId).None? ==>
              r == Ok(TransitIdentity(CardName, NoSerial))
    ensures Check(card) && KmtService(card, ServiceKmtId).Some? ==>
              var blocks := KmtService(card, ServiceKmtId).value.blocks;
              if |blocks| == 0 then r == Err(IndexOutOfBounds)
              else r == Ok(TransitIdentity(CardName, decode(blocks[0].data)))
  {
    var system :- Deref(card.GetSystem(SystemCodeKmt));
    var serialNumber :- IdentitySerial(system, decode);
    Ok(TransitIdentity(CardName, serialNumber))
  }

  // ---------------------------------------------------------------------------
  // parseInfo: serial number

  /** The serial of the info: the raw bytes of block 0 of the id service, or fifteen ASCII '0's. */
  function InfoSerial(system: FelicaSystem): (r: Result<seq<byte>, Fault>)
    ensures system.GetService(ServiceKmtId).None? ==> r == Ok(ZeroSerial)
    ensures system.GetService(ServiceKmtId).Some? ==>
              var blocks := system.GetService(ServiceKmtId).value.blocks;
              (r.Ok? <==> |blocks| > 0) && (r.Ok? ==> r.value == blocks[0].data)
  {
    match system.GetService(ServiceKmtId)
    case None => Ok(ZeroSerial)
    case Some(service) =>
      var block :- Get(service.blocks, 0);
      Ok(block.data)
  }

  /** The fallback serial is fifteen bytes, each the ASCII digit '0' (0x30, not 0x00). */
  lemma ZeroSerialIsAsciiZeros()
    ensures |ZeroSerial| == 15
    ensures forall i :: 0 <= i < |ZeroSerial| ==> ZeroSerial[i] == '0' as int
  {
  }

  /**
   * The two serials agree when the id service is there (the identity's is the
   * decoding of the info's) and fall back to different placeholders when it is not.
   */
  lemma SerialsAgreeUpToFallback(system: FelicaSystem, decode: seq<byte> -> string)
    ensures system.GetService(ServiceKmtId).None? ==>
              IdentitySerial(system, decode) == Ok(NoSerial) && InfoSerial(system) == Ok(ZeroSerial)
    ensures system.GetService(ServiceKmtId).Some? ==>
              (IdentitySerial(system, decode).Ok? <==> InfoSerial(system).Ok?) &&
              (InfoSerial(system).Ok? ==> IdentitySerial(system, decode).value == decode(InfoSerial(system).value))
  {
  }

  // ---------------------------------------------------------------------------
  // parseInfo: balance

  /**
   * The balance: bytes 0..3 of block 0 of the balance service, byte 3 most
   * significant, as a Java `int`; 0 when the card has no balance service.
   */
  function Balance(system: FelicaSystem): (r: Result<int32, Fault>)
    ensures system.GetService(ServiceKmtBalance).None? ==> r == Ok(0)
    ensures system.GetService(ServiceKmtBalance).Some? ==>
              var blocks := system.GetService(ServiceKmtBalance).value.blocks;
              (r.Ok? <==> |blocks| > 0 && |blocks[0].data| >= 4) &&
              (r.Err? ==> r.error == IndexOutOfBounds) &&
              (r.Ok? ==>
                 var d := blocks[0].data;
                 Unsigned(r.value) == d[0] as int + d[1] as int * 0x100 + d[2] as int * 0x1_0000 + d[3] as int * 0x100_0000)
  {
    match system.GetService(ServiceKmtBalance)
    case None => Ok(0)
    case Some(service) =>
      var block :- Get(service.blocks, 0);
      // Byte 3 is read first; once it is there, so are bytes 2, 1 and 0.
      var d3 :- Get(block.data, 3);
      Ok(ToInt(d3, block.data[2], block.data[1], block.data[0]))
  }

  /** The balance service's block 0 with `d` as its data, on a system that has nothing else. */
  function BalanceSystem(d: seq<byte>): FelicaSystem
  {
    FelicaSystem(map[ServiceKmtBalance := Service([Block(d)])])
  }

  /**
   * The balance is a little-endian 32-bit pattern: its bytes, least
   * significant first, are bytes 0..3 of the block, and the rest of the block
   * plays no part.
   */
  lemma BalanceIsLittleEndian(system: FelicaSystem)
    requires system.GetService(ServiceKmtBalance).Some?
    requires Balance(system).Ok?
    ensures var d := system.GetService(ServiceKmtBalance).value.blocks[0].data;
            ToBytes(Balance(system).value) == [d[3], d[2], d[1], d[0]]
  {
    var d := system.GetService(ServiceKmtBalance).value.blocks[0].data;
    ToBytesOfToInt(d[3], d[2], d[1], d[0]);
  }

  /** Two balance blocks that agree on bytes 0..3 give the same balance. */
  lemma BalanceDependsOnFirstFourBytes(d: seq<byte>, e: seq<byte>)
    requires |d| >= 4 && |e| >= 4 && d[..4] == e[..4]
    ensures Balance(BalanceSystem(d)) == Balance(BalanceSystem(e))
  {
    assert d[0] == d[..4][0] && d[1] == d[..4][1] && d[2] == d[..4][2] && d[3] == d[..4][3];
    assert e[0] == e[..4][0] && e[1] == e[..4][1] && e[2] == e[..4][2] && e[3] == e[..4][3];
  }

  /** Worked examples of the byte order, and of the Java `int` wrap-around. */
  lemma BalanceExamples()
    ensures Balance(BalanceSystem([0x01, 0x00, 0x00, 0x00])) == Ok(1)
    ensures Balance(BalanceSystem([0x00, 0x00, 0x01, 0x00])) == Ok(0x1_0000)
    ensures Balance(BalanceSystem([0x00, 0x00, 0x00, 0x80])) == Ok(-0x8000_0000)
    ensures Balance(BalanceSystem([0x00, 0x00, 0x00])) == Err(IndexOutOfBounds)
    ensures Balance(FelicaSystem(map[])) == Ok(0)
  {
  }

  // ---------------------------------------------------------------------------
  // parseInfo: trip history

  /** A history block records a trip when its byte 0 is not zero. */
  predicate IsEntry(block: Block)
  {
    |block.data| > 0 && block.data[0] != 0
  }

  /** Every block has a byte 0 to inspect; otherwise the history loop raises. */
  predicate Readable(blocks: seq<Block>)
  {
    forall i :: 0 <= i < |blocks| ==> |blocks[i].data| > 0
  }

  /** The trips the history blocks record: one per entry block, in block order. */
  function TripsOf(blocks: seq<Block>): (trips: seq<KmtTrip>)
    ensures |trips| <= |blocks|
    decreases |blocks|
  {
    if blocks == [] then []
    else
      var n := |blocks| - 1;
      TripsOf(blocks[..n]) + if IsEntry(blocks[n]) then [KmtTrip(blocks[n])] else []
  }

  /** The positions of the entry blocks, in increasing order. */
  function EntryIndices(blocks: seq<Block>): (ix: seq<nat>)
    ensures forall k :: 0 <= k < |ix| ==> ix[k] < |blocks| && IsEntry(blocks[ix[k]])
    ensures forall k, l :: 0 <= k < l < |ix| ==> ix[k] < ix[l]
    ensures forall i :: 0 <= i < |blocks| && IsEntry(blocks[i]) ==> i in ix
    decreases |blocks|
  {
    if blocks == [] then []
    else
      var n := |blocks| - 1;
      EntryIndices(blocks[..n]) + if IsEntry(blocks[n]) then [n] else []
  }

  /**
   * The trip list is the order-preserving filter of the blocks: its k-th trip
   * wraps the k-th entry block, so there is exactly one trip per entry block.
   */
  lemma {:induction false} TripsOfIsOrderedFilter(blocks: seq<Block>)
    ensures |TripsOf(blocks)| == |EntryIndices(blocks)|
    ensures forall k :: 0 <= k < |TripsOf(blocks)| ==>
              TripsOf(blocks)[k] == KmtTrip(blocks[EntryIndices(blocks)[k]])
    decreases |blocks|
  {
    if blocks != [] {
      var n := |blocks| - 1;
      var earlier := blocks[..n];
      TripsOfIsOrderedFilter(earlier);
      var trips, ix := TripsOf(blocks), EntryIndices(blocks);
      var earlierTrips, earlierIx := TripsOf(earlier), EntryIndices(earlier);
      assert trips == earlierTrips + if IsEntry(blocks[n]) then [KmtTrip(blocks[n])] else [];
      assert ix == earlierIx + if IsEntry(blocks[n]) then [n] else [];
      forall k | 0 <= k < |earlierTrips|
        ensures trips[k] == KmtTrip(blocks[ix[k]])
      {
        assert earlier[earlierIx[k]] == blocks[earlierIx[k]];
      }
    }
  }

  /** Every trip wraps an entry block of the history. */
  lemma {:induction false} TripsAreEntryBlocks(blocks: seq<Block>)
    ensures forall t :: t in TripsOf(blocks) ==> t.block in blocks && IsEntry(t.block)
  {
    var trips := TripsOf(blocks);
    TripsOfIsOrderedFilter(blocks);
    forall t | t in trips
      ensures t.block in blocks && IsEntry(t.block)
    {
      var k :| 0 <= k < |trips| && trips[k] == t;
    }
  }

  /** The history is empty exactly when no block is an entry (in particular when there are no blocks). */
  lemma {:induction false} NoTripsIffNoEntries(blocks: seq<Block>)
    ensures TripsOf(blocks) == [] <==> forall i :: 0 <= i < |blocks| ==> !IsEntry(blocks[i])
  {
    var ix := EntryIndices(blocks);
    TripsOfIsOrderedFilter(blocks);
    if TripsOf(blocks) == [] {
      assert |ix| == 0;
    } else {
      assert IsEntry(blocks[ix[0]]);
    }
  }

  /** The history of two runs of blocks is the history of the first followed by that of the second. */
  lemma {:induction false} TripsOfAppend(a: seq<Block>, b: seq<Block>)
    ensures TripsOf(a + b) == TripsOf(a) + TripsOf(b)
    decreases |b|
  {
    if b == [] {
      assert a + b == a;
    } else {
      var n := |b| - 1;
      assert (a + b)[..|a| + n] == a + b[..n];
      TripsOfAppend(a, b[..n]);
    }
  }

  /** A block whose byte 0 is zero contributes no trip: removing it leaves the history as it was. */
  lemma {:induction false} DroppingEmptyBlockKeepsTrips(blocks: seq<Block>, i: nat)
    requires i < |blocks| && !IsEntry(blocks[i])
    ensures TripsOf(blocks[..i] + blocks[i + 1..]) == TripsOf(blocks)
  {
    var before, skipped, after := blocks[..i], blocks[i], blocks[i + 1..];
    assert blocks == (before + [skipped]) + after;
    calc {
      TripsOf(blocks);
    == { TripsOfAppend(before + [skipped], after); }
      TripsOf(before + [skipped]) + TripsOf(after);
    == { assert (before + [skipped])[..|before|] == before; }
      TripsOf(before) + TripsOf(after);
    == { TripsOfAppend(before, after); }
      TripsOf(before + after);
    }
  }

  /** The history of four blocks of which the second and the fourth record trips. */
  lemma HistoryExample(b0: Block, b1: Block, b2: Block, b3: Block)
    requires b0.data == [0x00, 0x12] && b2.data == [0x00]
    requires b1.data == [0x05, 0x34] && b3.data == [0x07]
    ensures TripsOf([b0, b1, b2, b3]) == [KmtTrip(b1), KmtTrip(b3)]
    ensures TripsOf([]) == []
  {
    var blocks := [b0, b1, b2, b3];
    assert blocks[..3] == [b0, b1, b2] && [b0, b1, b2][..2] == [b0, b1] && [b0, b1][..1] == [b0];
    assert TripsOf([b0]) == [] by {
      assert [b0][..0] == [];
    }
    assert TripsOf([b0, b1]) == [KmtTrip(b1)];
    assert TripsOf([b0, b1, b2]) == [KmtTrip(b1)];
  }

  /**
   * The history loop of `parseInfo`: walks the blocks in order and appends a
   * trip for each block whose byte 0 is not zero; raises on a block with no
   * bytes.
   */
  method CollectTrips(blocks: seq<Block>) returns (r: Result<seq<KmtTrip>, Fault>)
    ensures r.Ok? <==> Readable(blocks)
    ensures r.Ok? ==> r.value == TripsOf(blocks)
    ensures r.Err? ==> r.error == IndexOutOfBounds
  {
    var trips: seq<KmtTrip> := [];
    for i := 0 to |blocks|
      invariant Readable(blocks[..i])
      invariant trips == TripsOf(blocks[..i])
    {
      var block := blocks[i];
      var first :- Get(block.data, 0);
      if first != 0 {
        trips := trips + [KmtTrip(block)];
      }
      assert blocks[..i + 1][..i] == blocks[..i];
    }
    assert blocks[..|blocks|] == blocks;
    return Ok(trips);
  }

  // ---------------------------------------------------------------------------
  // parseInfo

  /**
   * What `parseInfo` returns or raises, step by step in the order of the
   * source: the KMT system (null on a card `Check` rejects), the serial, the
   * balance, the history service (dereferenced without a null check) and its
   * blocks.
   */
  function InfoOf(card: Card): Result<KmtTransitInfo, Fault>
  {
    var system :- Deref(card.GetSystem(SystemCodeKmt));
    var serialNumber :- InfoSerial(system);
    var currentBalance :- Balance(system);
    var history :- Deref(system.GetService(ServiceKmtHistory));
    var trips :- if Readable(history.blocks) then Ok(TripsOf(history.blocks)) else Err(IndexOutOfBounds);
    Ok(KmtTransitInfo(trips, serialNumber, currentBalance))
  }

  /** `parseInfo`. */
  method ParseInfo(card: Card) returns (r: Result<KmtTransitInfo, Fault>)
    ensures r == InfoOf(card)
  {
    var system :- Deref(card.GetSystem(SystemCodeKmt));
    var serialNumber :- InfoSerial(system);
    var currentBalance :- Balance(system);
    var serviceHistory :- Deref(system.GetService(ServiceKmtHistory));
    var trips :- CollectTrips(serviceHistory.blocks);
    return Ok(KmtTransitInfo(trips, serialNumber, currentBalance));
  }

  /** When `parseInfo` fails, and with which exception. */
  lemma InfoFaults(card: Card)
    ensures !Check(card) ==> InfoOf(card) == Err(NullPointer)
    ensures Check(card) ==>
              var id, balance, history :=
                KmtService(card, ServiceKmtId), KmtService(card, ServiceKmtBalance), KmtService(card, ServiceKmtHistory);
              var idOk := id.None? || |id.value.blocks| > 0;
              var balanceOk := balance.None? || (|balance.value.blocks| > 0 && |balance.value.blocks[0].data| >= 4);
              && (!idOk || !balanceOk ==> InfoOf(card) == Err(IndexOutOfBounds))
              && (idOk && balanceOk && history.None? ==> InfoOf(card) == Err(NullPointer))
              && (idOk && balanceOk && history.Some? ==>
                    (InfoOf(card).Ok? <==> Readable(history.value.blocks)) &&
                    (InfoOf(card).Err? ==> InfoOf(card).error == IndexOutOfBounds))
  {
  }

  /** The serial `parseInfo` returns: block 0 of the id service exactly when the card has it. */
  lemma InfoSerialSpec(card: Card)
    requires InfoOf(card).Ok?
    ensures KmtService(card, ServiceKmtId).Some? ==>
              InfoOf(card).value.serialNumber == KmtService(card, ServiceKmtId).value.blocks[0].data
    ensures KmtService(card, ServiceKmtId).None? ==> InfoOf(card).value.serialNumber == ZeroSerial
  {
  }

  /** The balance `parseInfo` returns: little-endian bytes 0..3 of the balance block, or 0. */
  lemma InfoBalanceSpec(card: Card)
    requires InfoOf(card).Ok?
    ensures KmtService(card, ServiceKmtBalance).None? ==> InfoOf(card).value.currentBalance == 0
    ensures KmtService(card, ServiceKmtBalance).Some? ==>
              var d := KmtService(card, ServiceKmtBalance).value.blocks[0].data;
              ToBytes(InfoOf(card).value.currentBalance) == [d[3], d[2], d[1], d[0]]
  {
    if KmtService(card, ServiceKmtBalance).Some? {
      BalanceIsLittleEndian(card.systems[SystemCodeKmt]);
    }
  }

  /** The trips `parseInfo` returns: one per entry block of the history service, in block order. */
  lemma InfoTripsSpec(card: Card)
    requires InfoOf(card).Ok?
    ensures KmtService(card, ServiceKmtHistory).Some?
    ensures var blocks := KmtService(card, ServiceKmtHistory).value.blocks;
            var trips := InfoOf(card).value.trips;
            && |trips| == |EntryIndices(blocks)|
            && (forall k :: 0 <= k < |trips| ==> trips[k] == KmtTrip(blocks[EntryIndices(blocks)[k]]))
            && (blocks == [] ==> trips == [])
  {
    TripsOfIsOrderedFilter(KmtService(card, ServiceKmtHistory).value.blocks);
  }

  /** `parseInfo` leaves the card as it was, so a second call returns what the first did. */
  method ParseInfoTwice(card: Card) returns (first: Result<KmtTransitInfo, Fault>, second: Result<KmtTransitInfo, Fault>)
    ensures first == second
  {
    first := ParseInfo(card);
    second := ParseInfo(card);
  }
}
