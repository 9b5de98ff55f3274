/** Avail block headers: how the chain encodes them, how a hint pads them to the circuit's fixed
    width, and how the circuit hashes and decodes the padded bytes. */
module Headers {
  import opened Bytes
  import opened Scale

  const HASH_SIZE := 32
  const DATA_ROOT_OFFSET_FROM_END: U32 := 32
  const MAX_HEADER_SIZE := 280 * 128

  type EngineId = b: seq<Byte> | |b| == 4 witness Zeros(4)
  type Blob = b: seq<Byte> | |b| < TWO_32

  /** The only structure of a digest item that anything reads is a consensus log's. */
  datatype DigestLog = Consensus(engine: EngineId, value: Blob) | OtherLog(encoded: seq<Byte>)

  type Logs = l: seq<DigestLog> | |l| < TWO_32

  /** A block header; `extension` is everything of the header extension that precedes its data root. */
  datatype Header = Header(
    parentHash: Bytes32, number: U32, stateRoot: Bytes32, extrinsicsRoot: Bytes32,
    logs: Logs, extension: seq<Byte>, dataRoot: Bytes32)

  const CONSENSUS_FLAG: Byte := 4

  function EncodeLog(log: DigestLog): seq<Byte> {
    match log
    case Consensus(engine, value) => [CONSENSUS_FLAG] + engine + EncodeCompact(|value|) + value
    case OtherLog(encoded) => encoded
  }

  function EncodeLogs(logs: seq<DigestLog>): seq<Byte> {
    if logs == [] then [] else EncodeLog(logs[0]) + EncodeLogs(logs[1..])
  }

  /** Parent hash, number, state root and extrinsics root. */
  function EncodeFixedFields(h: Header): seq<Byte> {
    h.parentHash + EncodeCompact(h.number) + h.stateRoot + h.extrinsicsRoot
  }

  function Encode(h: Header): (bs: seq<Byte>)
    ensures |bs| > 128
  {
    EncodeFixedFields(h) + EncodeCompact(|h.logs|) + EncodeLogs(h.logs) + h.extension + h.dataRoot
  }

  /** Header bytes zero-padded to the circuit's width, with their true size. */
  datatype PaddedBytes = PaddedBytes(bytes: seq<Byte>, size: U32)

  type EncodedHeader = e: PaddedBytes | |e.bytes| == MAX_HEADER_SIZE
    witness PaddedBytes(Zeros(MAX_HEADER_SIZE), 0)

  const EMPTY_HEADER: EncodedHeader := PaddedBytes(Zeros(MAX_HEADER_SIZE), 0)

  /** The hints' `resize`; None is the panic on an oversized header. */
  function PadHeader(bs: seq<Byte>): Option<EncodedHeader> {
    if |bs| > MAX_HEADER_SIZE then None
    else Some(PaddedBytes(bs + Zeros(MAX_HEADER_SIZE - |bs|), |bs|))
  }

  /** What the circuit knows of a header once it has hashed and decoded it. */
  datatype BlockHeader = BlockHeader(
    hash: Bytes32, number: U32, parent: Bytes32, stateRoot: Bytes32, dataRoot: Bytes32)

  /** The bytes that are hashed. */
  function Hashed(e: EncodedHeader): seq<Byte> {
    e.bytes[..Min(e.size, MAX_HEADER_SIZE)]
  }

  function HashEncodedHeader(blake2b: Hasher, e: EncodedHeader): Bytes32 {
    blake2b(Hashed(e))
  }

  /** The first byte of the data root, with the circuit's wrapping subtraction and its zero-size case. */
  function DataRootStart(size: U32): U32 {
    if size == 0 then 0 else Sub32(size, DATA_ROOT_OFFSET_FROM_END)
  }

  /** Where the state root starts in each mode of the block number. */
  function StateRootOffset(mode: nat): nat
    requires mode < 4
  {
    [33, 34, 36, 37][mode]
  }

  /** Hash and decode; None when a constraint of the decoder cannot be met: a bad compact number, or a
      data root that is not inside the array. */
  function ReadHeader(blake2b: Hasher, e: EncodedHeader): (r: Option<BlockHeader>)
    ensures r.Some? ==> r.value.hash == HashEncodedHeader(blake2b, e) && r.value.parent == e.bytes[..32]
  {
    var window := e.bytes[HASH_SIZE..HASH_SIZE + MAX_COMPACT_UINT_BYTES];
    var number := DecodeCompactInt(window);
    var start := DataRootStart(e.size);
    if number.None? || start + HASH_SIZE > MAX_HEADER_SIZE then None
    else
      DecodedMode(window);
      var offset := StateRootOffset(number.value.mode);
      Some(BlockHeader(HashEncodedHeader(blake2b, e), number.value.value, e.bytes[..HASH_SIZE],
                       e.bytes[offset..offset + HASH_SIZE], e.bytes[start..start + HASH_SIZE]))
  }

  /** A readable header is empty or has a data root, and all of its bytes are hashed. */
  lemma ReadableSize(blake2b: Hasher, e: EncodedHeader)
    requires ReadHeader(blake2b, e).Some?
    ensures e.size == 0 || HASH_SIZE <= e.size <= MAX_HEADER_SIZE
    ensures |Hashed(e)| == e.size
  {
  }

  /** The circuit's view of an honest header. */
  function View(blake2b: Hasher, h: Header): BlockHeader {
    BlockHeader(blake2b(Encode(h)), h.number, h.parentHash, h.stateRoot, h.dataRoot)
  }

  /** Decoding a padded encoding recovers every field of the header and its hash. */
  lemma HeaderRoundTrip(blake2b: Hasher, h: Header)
    requires |Encode(h)| <= MAX_HEADER_SIZE
    ensures ReadHeader(blake2b, PadHeader(Encode(h)).value) == Some(View(blake2b, h))
    ensures var r := ReadHeader(blake2b, PadHeader(Encode(h)).value).value;
            && r.hash == blake2b(Encode(h)) && r.number == h.number && r.parent == h.parentHash
            && r.stateRoot == h.stateRoot && r.dataRoot == h.dataRoot
  {
    var bs := Encode(h);
    var e := PadHeader(bs).value;
    var c := EncodeCompact(h.number);
    assert Hashed(e) == bs;
    FixedFieldSlices(h, e.bytes);
    var rest := e.bytes[32 + |c|..];
    assert e.bytes[32..37] == (c + rest)[..5];
    CompactRoundTrip(h.number, rest);
    assert e.bytes[|bs| - 32..|bs|] == bs[|bs| - 32..];
    DataRootIsLast(h);
  }

  /** Where the fixed fields sit in anything that starts with a header's encoding. */
  lemma FixedFieldSlices(h: Header, bytes: seq<Byte>)
    requires Encode(h) <= bytes
    ensures |EncodeFixedFields(h)| == 96 + |EncodeCompact(h.number)|
    ensures bytes[..32] == h.parentHash
    ensures var l := |EncodeCompact(h.number)|;
            bytes[32..32 + l] == EncodeCompact(h.number) && bytes[32 + l..64 + l] == h.stateRoot
  {
    var c := EncodeCompact(h.number);
    var f := EncodeFixedFields(h);
    var tail := h.stateRoot + h.extrinsicsRoot;
    var parent: seq<Byte> := h.parentHash;
    assert f == parent + c + tail;
    assert bytes == f + bytes[|f|..] by {
      assert f <= Encode(h);
    }
    assert f[..32] == h.parentHash && f[32..32 + |c|] == c && f[32 + |c|..64 + |c|] == h.stateRoot;
    assert forall i, j :: 0 <= i <= j <= |f| ==> bytes[i..j] == f[i..j];
  }

  lemma DataRootIsLast(h: Header)
    ensures Encode(h)[|Encode(h)| - 32..] == h.dataRoot
  {
  }

  /** The hint's filler header reads as block 0 with all fields zero. */
  lemma EmptyHeaderReads(blake2b: Hasher)
    ensures ReadHeader(blake2b, EMPTY_HEADER) == Some(BlockHeader(blake2b([]), 0, ZERO32, ZERO32, ZERO32))
  {
    var w := EMPTY_HEADER.bytes[32..37];
    assert EncodeMode(0, 0) == [0];
    DecodeIffPrefix(w, Compact(0, 0));
    assert EMPTY_HEADER.bytes[..32] == ZERO32;
    assert EMPTY_HEADER.bytes[33..65] == ZERO32;
    assert Hashed(EMPTY_HEADER) == [];
  }

  /** Every field that is decoded lies inside the hashed bytes. The state root ends last of those at the
      front; the data root always ends where the hashed bytes do. */
  predicate FieldsHashed(e: EncodedHeader) {
    var number := DecodeCompactInt(e.bytes[HASH_SIZE..HASH_SIZE + MAX_COMPACT_UINT_BYTES]);
    DecodedMode(e.bytes[HASH_SIZE..HASH_SIZE + MAX_COMPACT_UINT_BYTES]);
    number.Some? && StateRootOffset(number.value.mode) + HASH_SIZE <= e.size
  }

  lemma SliceOfHashed(a: EncodedHeader, b: EncodedHeader, i: nat, j: nat)
    requires Hashed(a) == Hashed(b) && i <= j <= |Hashed(a)|
    ensures a.bytes[i..j] == b.bytes[i..j]
  {
    forall k | i <= k < j ensures a.bytes[k] == b.bytes[k] {
      assert a.bytes[k] == Hashed(a)[k] && b.bytes[k] == Hashed(b)[k];
    }
  }

  /** Equal hashed bytes mean equal fields when the fields are hashed. */
  lemma EqualBytes(blake2b: Hasher, a: EncodedHeader, b: EncodedHeader)
    requires ReadHeader(blake2b, a).Some? && ReadHeader(blake2b, b).Some?
    requires Hashed(a) == Hashed(b) && FieldsHashed(a)
    ensures a.size == b.size && ReadHeader(blake2b, a) == ReadHeader(blake2b, b)
  {
    ReadableSize(blake2b, a);
    ReadableSize(blake2b, b);
    DecodedMode(a.bytes[32..37]);
    SliceOfHashed(a, b, 0, 32);
    SliceOfHashed(a, b, 32, 37);
    SliceOfHashed(a, b, a.size - 32, a.size);
    var offset := StateRootOffset(DecodeCompactInt(a.bytes[32..37]).value.mode);
    SliceOfHashed(a, b, offset, offset + 32);
  }

  /** Two readable headers with the same hash have the same bytes and the same decoded fields, or the
      hashed bytes are a collision - provided the fields are hashed. */
  lemma EqualHashes(blake2b: Hasher, a: EncodedHeader, b: EncodedHeader)
    requires ReadHeader(blake2b, a).Some? && ReadHeader(blake2b, b).Some?
    requires ReadHeader(blake2b, a).value.hash == ReadHeader(blake2b, b).value.hash
    requires FieldsHashed(a)
    ensures Collision(blake2b, Hashed(a), Hashed(b))
            || (Hashed(a) == Hashed(b) && a.size == b.size && ReadHeader(blake2b, a) == ReadHeader(blake2b, b))
  {
    if Hashed(a) == Hashed(b) {
      EqualBytes(blake2b, a, b);
    }
  }

  /** The same header with one byte changed. */
  function Perturbed(e: EncodedHeader, at: nat): EncodedHeader
    requires at < MAX_HEADER_SIZE
  {
    PaddedBytes(e.bytes[at := if e.bytes[at] == 0 then 1 else 0], e.size)
  }

  lemma PerturbedStateRoot(blake2b: Hasher, e: EncodedHeader)
    requires ReadHeader(blake2b, e).Some? && !FieldsHashed(e)
    ensures exists b: EncodedHeader :: ReadHeader(blake2b, b).Some? && Hashed(b) == Hashed(e)
                                       && ReadHeader(blake2b, b) != ReadHeader(blake2b, e)
  {
    var window := e.bytes[32..37];
    DecodedMode(window);
    var offset := StateRootOffset(DecodeCompactInt(window).value.mode);
    var b := Perturbed(e, offset + 31);
    ReadableSize(blake2b, e);
    assert b.bytes[32..37] == window;
    assert Hashed(b) == Hashed(e);
    assert b.bytes[offset..offset + 32][31] != e.bytes[offset..offset + 32][31];
    assert ReadHeader(blake2b, b).value.stateRoot != ReadHeader(blake2b, e).value.stateRoot;
  }

  /** That proviso is exact: a header's hashed bytes determine what is read from it if and only if the
      fields are hashed. A header of size 0, for one, has the hash of the empty string whatever it says. */
  lemma FieldsBoundIff(blake2b: Hasher, a: EncodedHeader)
    requires ReadHeader(blake2b, a).Some?
    ensures FieldsHashed(a) <==>
            forall b: EncodedHeader :: ReadHeader(blake2b, b).Some? && Hashed(b) == Hashed(a)
              ==> ReadHeader(blake2b, b) == ReadHeader(blake2b, a)
  {
    hide ReadHeader, FieldsHashed, Hashed;
    if FieldsHashed(a) {
      forall b: EncodedHeader | ReadHeader(blake2b, b).Some? && Hashed(b) == Hashed(a)
        ensures ReadHeader(blake2b, b) == ReadHeader(blake2b, a)
      {
        EqualBytes(blake2b, a, b);
      }
    } else {
      PerturbedStateRoot(blake2b, a);
    }
  }

  /** Honest headers have their fields hashed. */
  lemma HonestFieldsHashed(h: Header)
    requires |Encode(h)| <= MAX_HEADER_SIZE
    ensures FieldsHashed(PadHeader(Encode(h)).value)
  {
    var bytes := PadHeader(Encode(h)).value.bytes;
    var n := |EncodeCompact(h.number)|;
    FixedFieldSlices(h, bytes);
    assert bytes[32..37] == (EncodeCompact(h.number) + bytes[32 + n..])[..5];
    CompactRoundTrip(h.number, bytes[32 + n..]);
  }
}
