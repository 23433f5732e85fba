# Kartu Multi Trip card decoder

A model of `KMTTransitFactory`, the FareBot plugin that decodes a Kartu Multi
Trip (KMT) FeliCa transit card. The card has already been read into memory by the
host library, and is addressed as system → service → ordered list of blocks. The
factory does three things:

- `check` accepts a card exactly when it exposes system 0x90B7.
- `parseIdentity` returns the label "Kartu Multi Trip" and a serial string.
  The serial is block 0 of service 0x300B decoded as text, or `"-"` when that
  service is missing.
- `parseInfo` returns three things:
  - the serial bytes: block 0 of service 0x300B, or fifteen ASCII `'0'` bytes;
  - the balance: bytes 3, 2, 1, 0 of block 0 of service 0x1017 assembled into a
    Java `int`, so byte 3 is most significant; it is 0 when the service is missing;
  - the trips: one per block of service 0x200F whose byte 0 is not zero, in
    block order.

Files:

- `wrappers.dfy` (module `Wrappers`): `Option` (Java's nullable reference) and a
  failure-compatible `Result`.
- `java_runtime.dfy` (module `JavaRuntime`): the runtime behaviour the source
  relies on. It holds the two exceptions the decoder can raise
  (`NullPointer`, `IndexOutOfBounds`), null dereference and list or array
  indexing that raise them, the unsigned view of a Java `byte`, and 32-bit
  two's-complement `int`.
- `felica.dfy` (module `Felica`): the card as immutable nested data (`Card`,
  `FelicaSystem`, `Service`, `Block`) with `getSystem` and `getService`.
- `felica_util.dfy` (module `FelicaUtil`): `Util.toInt` of the FeliCa library
  and its inverse.
- `kmt_transit_factory.dfy` (module `KmtTransitFactory`): the layout constants,
  the result records, `check`, `parseIdentity` and `parseInfo`. The history
  loop is the method `CollectTrips`. It is proved against the function
  `TripsOf`. `ParseInfo` is proved against the function `InfoOf`, and the
  properties of `InfoOf` are proved as lemmas.

Modelling choices:

- Every unchecked access in the source is modelled as the exception it raises,
  never as a precondition. That covers the KMT system missing, a present
  service with no blocks, a balance block shorter than 4 bytes, the history
  service missing, and a history block with no bytes. `parseIdentity` and
  `parseInfo` therefore return `Result<_, Fault>`. Where several of these
  hold at once, the fault is the one the source hits first.
- The balance is a Java `int` (`int32`, two's complement): a byte 3 of 0x80
  or more gives a negative balance. This follows the code. A design that calls
  the balance an unsigned 32-bit value does not match what the code returns.
- A missing history service raises `NullPointer` (line 83 dereferences it
  without a check). This follows the code, not a design in which a missing
  history service yields an empty trip list.
- `new String(bytes)` decodes with the platform default charset. It is the
  parameter `decode` of `ParseIdentity`, so nothing is assumed about the charset.
- `Util.toInt(b0, b1, b2, b3)` is ASSUMED to build the `int` whose bytes are
  `b0 b1 b2 b3`, with `b0` most significant, each byte taken unsigned.
  Its source is not part of this model.
- `KMTTrip.create`, `KMTTransitInfo.create` and `TransitIdentity.create` are
  record constructors (`KmtTrip`, `KmtTransitInfo`, `TransitIdentity`). A
  `KmtTrip` wraps the block it was made from.

## Model

| member | source | states |
|---|---|---|
| KmtTransitFactory.Check | farebot-transit-kmt/src/main/java/com/codebutler/farebot/transit/kmt/KMTTransitFactory.java:47-49 | a card is accepted exactly when it has system 0x90B7 |
| KmtTransitFactory.CheckIgnoresEverythingElse | farebot-transit-kmt/src/main/java/com/codebutler/farebot/transit/kmt/KMTTransitFactory.java:47-49 | two cards that agree on the presence of system 0x90B7 are accepted alike; no other field matters |
| KmtTransitFactory.ParseIdentity | farebot-transit-kmt/src/main/java/com/codebutler/farebot/transit/kmt/KMTTransitFactory.java:53-61 | the label is always "Kartu Multi Trip"; the serial is "-" without service 0x300B, otherwise the decoding of its block 0; NullPointer exactly when Check rejects the card; IndexOutOfBounds when the id service has no block |
| KmtTransitFactory.InfoSerial | farebot-transit-kmt/src/main/java/com/codebutler/farebot/transit/kmt/KMTTransitFactory.java:66-72 | the serial bytes are block 0 of service 0x300B exactly when that service is present (failing when it has no block), and ZeroSerial otherwise |
| KmtTransitFactory.ZeroSerialIsAsciiZeros | farebot-transit-kmt/src/main/java/com/codebutler/farebot/transit/kmt/KMTTransitFactory.java:71 | the fallback serial is 15 bytes, each ASCII '0' (0x30) |
| KmtTransitFactory.SerialsAgreeUpToFallback | farebot-transit-kmt/src/main/java/com/codebutler/farebot/transit/kmt/KMTTransitFactory.java:54-72 | with the id service present, the identity serial is the decoding of the info serial and both fail together; without it the two fall back to different placeholders, "-" and fifteen '0's |
| KmtTransitFactory.Balance | farebot-transit-kmt/src/main/java/com/codebutler/farebot/transit/kmt/KMTTransitFactory.java:73-80 | 0 without service 0x1017; otherwise it succeeds exactly when block 0 exists and has at least 4 bytes, and the 32-bit pattern of the result is d[0] + d[1]·2^8 + d[2]·2^16 + d[3]·2^24 |
| KmtTransitFactory.BalanceIsLittleEndian | farebot-transit-kmt/src/main/java/com/codebutler/farebot/transit/kmt/KMTTransitFactory.java:76-79 | the bytes of the balance, most significant first, are d[3], d[2], d[1], d[0] of the balance block |
| KmtTransitFactory.BalanceDependsOnFirstFourBytes | farebot-transit-kmt/src/main/java/com/codebutler/farebot/transit/kmt/KMTTransitFactory.java:78-79 | balance blocks that agree on bytes 0..3 give the same balance |
| KmtTransitFactory.BalanceExamples | farebot-transit-kmt/src/main/java/com/codebutler/farebot/transit/kmt/KMTTransitFactory.java:73-80 | [1,0,0,0] gives 1, [0,0,1,0] gives 65536, [0,0,0,0x80] wraps to -2^31, a 3-byte block raises IndexOutOfBounds, no service gives 0 |
| FelicaUtil.ToInt | farebot-transit-kmt/src/main/java/com/codebutler/farebot/transit/kmt/KMTTransitFactory.java:79 | the 32-bit pattern of Util.toInt(b0,b1,b2,b3) is b0·2^24 + b1·2^16 + b2·2^8 + b3, and the result is negative exactly when b0 ≥ 0x80 |
| FelicaUtil.ToIntOfToBytes | farebot-transit-kmt/src/main/java/com/codebutler/farebot/transit/kmt/KMTTransitFactory.java:79 | splitting an int into its four bytes and assembling them with Util.toInt gives the int back |
| FelicaUtil.ToBytesOfToInt | farebot-transit-kmt/src/main/java/com/codebutler/farebot/transit/kmt/KMTTransitFactory.java:79 | assembling four bytes with Util.toInt and splitting the result gives the same four bytes |
| JavaRuntime.UnsignedRoundTrip | farebot-transit-kmt/src/main/java/com/codebutler/farebot/transit/kmt/KMTTransitFactory.java:74-79 | narrowing to int and reading an int as unsigned 32 bits are inverse to each other |
| KmtTransitFactory.TripsOf | farebot-transit-kmt/src/main/java/com/codebutler/farebot/transit/kmt/KMTTransitFactory.java:84-90 | the trip list of a history has at most one trip per block |
| KmtTransitFactory.EntryIndices | farebot-transit-kmt/src/main/java/com/codebutler/farebot/transit/kmt/KMTTransitFactory.java:84-86 | the positions of the blocks whose byte 0 is not zero, strictly increasing, and all of them |
| KmtTransitFactory.TripsOfIsOrderedFilter | farebot-transit-kmt/src/main/java/com/codebutler/farebot/transit/kmt/KMTTransitFactory.java:84-90 | the k-th trip wraps the k-th block whose byte 0 is not zero: exactly one trip per such block, in block order |
| KmtTransitFactory.TripsAreEntryBlocks | farebot-transit-kmt/src/main/java/com/codebutler/farebot/transit/kmt/KMTTransitFactory.java:86-88 | every trip wraps a block of the history whose byte 0 is not zero |
| KmtTransitFactory.NoTripsIffNoEntries | farebot-transit-kmt/src/main/java/com/codebutler/farebot/transit/kmt/KMTTransitFactory.java:84-90 | the trip list is empty exactly when no block has a non-zero byte 0, in particular when there are no blocks |
| KmtTransitFactory.TripsOfAppend | farebot-transit-kmt/src/main/java/com/codebutler/farebot/transit/kmt/KMTTransitFactory.java:84-90 | the trips of two runs of blocks are the trips of the first followed by those of the second |
| KmtTransitFactory.DroppingEmptyBlockKeepsTrips | farebot-transit-kmt/src/main/java/com/codebutler/farebot/transit/kmt/KMTTransitFactory.java:86 | a block whose byte 0 is zero contributes nothing: removing it leaves the trip list unchanged |
| KmtTransitFactory.HistoryExample | farebot-transit-kmt/src/main/java/com/codebutler/farebot/transit/kmt/KMTTransitFactory.java:84-90 | blocks starting 0x00, 0x05, 0x00, 0x07 give two trips, from the second and the fourth block in that order; no blocks give no trips |
| KmtTransitFactory.CollectTrips | farebot-transit-kmt/src/main/java/com/codebutler/farebot/transit/kmt/KMTTransitFactory.java:82-90 | the history loop succeeds exactly when every block has a byte 0, and then returns the order-preserving filter TripsOf of the blocks; otherwise it raises IndexOutOfBounds |
| KmtTransitFactory.ParseInfo | farebot-transit-kmt/src/main/java/com/codebutler/farebot/transit/kmt/KMTTransitFactory.java:65-92 | parseInfo returns or raises exactly what InfoOf specifies |
| KmtTransitFactory.InfoFaults | farebot-transit-kmt/src/main/java/com/codebutler/farebot/transit/kmt/KMTTransitFactory.java:66-86 | parseInfo raises NullPointer when Check rejects the card or when the history service is missing, and raises IndexOutOfBounds when the id or balance service has no block, the balance block is shorter than 4 bytes, or a history block is empty; otherwise it succeeds |
| KmtTransitFactory.InfoSerialSpec | farebot-transit-kmt/src/main/java/com/codebutler/farebot/transit/kmt/KMTTransitFactory.java:66-72 | the serial parseInfo returns is block 0 of service 0x300B when the card has it, and fifteen '0' bytes otherwise |
| KmtTransitFactory.InfoBalanceSpec | farebot-transit-kmt/src/main/java/com/codebutler/farebot/transit/kmt/KMTTransitFactory.java:73-80 | the balance parseInfo returns is 0 without service 0x1017, and otherwise has the bytes d[3], d[2], d[1], d[0] of its block 0 |
| KmtTransitFactory.InfoTripsSpec | farebot-transit-kmt/src/main/java/com/codebutler/farebot/transit/kmt/KMTTransitFactory.java:81-91 | on success, the history service is present and the trips are exactly the blocks with a non-zero byte 0, in block order; a history with no blocks gives no trips |
| KmtTransitFactory.ParseInfoTwice | farebot-transit-kmt/src/main/java/com/codebutler/farebot/transit/kmt/KMTTransitFactory.java:65-92 | parseInfo changes nothing, so two calls on the same card return equal results |

## Left out

- Reading the card over NFC, and how the host library builds the card objects.
  The card is given as immutable data.
- The `TransitFactory` interface, the registry that picks a factory for a card,
  and the `@NonNull` annotations. These are plumbing with no behaviour of their own.
- The charset used by `new String(bytes)`. It is the caller-supplied `decode` function.
- The charset used by `"000000000000000".getBytes()`. It is assumed ASCII-compatible,
  as every usual default charset is, so the result is fifteen 0x30 bytes.
- The body of `Util.toInt`. Its behaviour is assumed, as stated above, because
  its source is not part of this model.
- What `KMTTrip.create` decodes from a block (times, stations, fares), and
  how `KMTTransitInfo` and `TransitIdentity` are built. They are plain records here.
- The `ByteArray` wrapper around the serial. It is the byte sequence itself.
- A block whose `getData()` is null. The host library never returns one here.
