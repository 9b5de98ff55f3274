/** Whole-system safety: what holds in every state that the contract can reach from its initial one by
    commits, rotations, freezes and changes of circuit, whatever the provers supply. */
module LightClient {
  import opened Bytes
  import opened Headers
  import opened Merkle
  import opened Subchain
  import opened SubchainTheorems
  import opened Justification
  import opened Rotate
  import opened HeaderRotate
  import opened Contract
  import Operator

  /** One successful commit. */
  datatype CommitRecord = CommitRecord(
    start: U32, end: U32, setId: U64, depth: CircuitDepth, justification: HintedJustification)

  /** What the provers have shown so far: the headers after genesis with their decoded form, the commits,
      and the rotations. */
  datatype History = History(
    headers: seq<EncodedHeader>, blocks: seq<BlockHeader>, commits: seq<CommitRecord>, rotations: seq<HintedRotate>)

  /** The headers can be read, and are one chain on top of the genesis header. */
  ghost predicate ChainSafe(c: Crypto, g: Genesis, hist: History) {
    && AllRead(Reads(c.blake2b, hist.headers))
    && hist.blocks == Blocks(Reads(c.blake2b, hist.headers))
    && ChainFrom(g.header, g.height, hist.blocks)
  }

  /** The hash of the block `k` after genesis. */
  function HashAt(g: Genesis, blocks: seq<BlockHeader>, k: nat): Bytes32
    requires k <= |blocks|
  {
    if k == 0 then g.header else blocks[k - 1].hash
  }

  predicate Within(g: Genesis, blocks: seq<BlockHeader>, r: CommitRecord) {
    g.height <= r.start < r.end <= g.height + |blocks| && r.end - r.start <= Pow2(r.depth)
  }

  function RangeOf(g: Genesis, blocks: seq<BlockHeader>, r: CommitRecord): seq<BlockHeader>
    requires Within(g, blocks, r)
  {
    blocks[r.start - g.height..r.end - g.height]
  }

  /** The stored commitments of a range are the padded roots of exactly its blocks. */
  ghost predicate CommitmentsSafe(c: Crypto, g: Genesis, s: State, blocks: seq<BlockHeader>, r: CommitRecord)
    requires Within(g, blocks, r)
  {
    var key := (r.start, r.end);
    && key in s.dataRoots && s.dataRoots[key] == PaddedRoot(c.sha256, r.depth, DataRoots(RangeOf(g, blocks, r)))
    && key in s.stateRoots && s.stateRoots[key] == PaddedRoot(c.sha256, r.depth, StateRoots(RangeOf(g, blocks, r)))
    && key in s.rangeStarts && s.rangeStarts[key] == r.start
  }

  /** The stored hash of the end block is the chain's, and the circuit has accepted a justification of it by
      the stored set; `CommittedVotes` says how many of the set have then signed. */
  ghost predicate EndSafe(c: Crypto, g: Genesis, s: State, blocks: seq<BlockHeader>, r: CommitRecord)
    requires Within(g, blocks, r)
  {
    && r.end in s.headerHashes && s.headerHashes[r.end] == HashAt(g, blocks, r.end - g.height)
    && Lookup(s.authorityHashes, r.setId) != ZERO32 && r.setId <= s.latestAuthoritySetId
    && Justifies(c, r.end, s.headerHashes[r.end], r.setId, Lookup(s.authorityHashes, r.setId), r.justification)
  }

  ghost predicate CommitSafe(c: Crypto, g: Genesis, s: State, blocks: seq<BlockHeader>, r: CommitRecord) {
    Within(g, blocks, r) && CommitmentsSafe(c, g, s, blocks, r) && EndSafe(c, g, s, blocks, r)
  }

  ghost predicate CommitsSafe(c: Crypto, g: Genesis, s: State, hist: History) {
    forall i :: 0 <= i < |hist.commits| ==> CommitSafe(c, g, s, hist.blocks, hist.commits[i])
  }

  /** Where the first `k` ranges end. */
  function EndOf(g: Genesis, commits: seq<CommitRecord>, k: nat): U32
    requires k <= |commits|
  {
    if k == 0 then g.height else commits[k - 1].end
  }

  /** The ranges tile the blocks from genesis to the latest one, under authority sets that never go back. */
  ghost predicate Tiles(g: Genesis, s: State, hist: History) {
    && (forall i {:trigger EndOf(g, hist.commits, i)} :: 0 <= i < |hist.commits| ==>
          hist.commits[i].start == EndOf(g, hist.commits, i))
    && (forall i, j :: 0 <= i < j < |hist.commits| ==> hist.commits[i].setId <= hist.commits[j].setId)
    && s.latestBlock == EndOf(g, hist.commits, |hist.commits|) == g.height + |hist.blocks|
  }

  ghost function Ends(commits: seq<CommitRecord>): set<U32> {
    set i: nat | i < |commits| :: commits[i].end
  }

  ghost function RangeKeys(commits: seq<CommitRecord>): set<(U32, U32)> {
    set i: nat | i < |commits| :: (commits[i].start, commits[i].end)
  }

  /** Nothing else is stored. */
  ghost predicate KeysSafe(g: Genesis, s: State, hist: History) {
    && s.headerHashes.Keys == {g.height} + Ends(hist.commits)
    && s.headerHashes[g.height] == g.header
    && s.dataRoots.Keys == s.stateRoots.Keys == s.rangeStarts.Keys == RangeKeys(hist.commits)
  }

  /** Rotation `i` leads from the stored set to the next stored set. */
  ghost predicate RotationSafe(c: Crypto, g: Genesis, s: State, rotations: seq<HintedRotate>, i: nat)
    requires i < |rotations| && g.setId + |rotations| < TWO_64
  {
    var next := Lookup(s.authorityHashes, g.setId + i + 1);
    RotateOf(c, g.setId + i, Lookup(s.authorityHashes, g.setId + i), rotations[i]) == Some(next) && next != ZERO32
  }

  /** The stored authority sets are an interval of ids from genesis on, each obtained from the one before by
      an accepted rotation; commits have used ids of that interval. */
  ghost predicate AuthoritiesSafe(c: Crypto, g: Genesis, s: State, rotations: seq<HintedRotate>) {
    && g.setId + |rotations| < TWO_64
    && Lookup(s.authorityHashes, g.setId) == g.setHash
    && (forall i :: 0 <= i < |rotations| ==> RotationSafe(c, g, s, rotations, i))
    && (forall id: U64 :: Lookup(s.authorityHashes, id) != ZERO32 ==> g.setId <= id <= g.setId + |rotations|)
    && g.setId <= s.latestAuthoritySetId <= g.setId + |rotations|
  }

  ghost predicate Safe(c: Crypto, g: Genesis, s: State, hist: History) {
    ChainSafe(c, g, hist) && Tiles(g, s, hist) && KeysSafe(g, s, hist) && CommitsSafe(c, g, s, hist)
    && AuthoritiesSafe(c, g, s, hist.rotations)
  }

  /** Storage is written once: entries never change, and the latest block and set id never go back. */
  ghost predicate Grows(s: State, t: State) {
    && (forall b :: b in s.headerHashes ==> b in t.headerHashes && t.headerHashes[b] == s.headerHashes[b])
    && (forall k :: k in s.dataRoots ==> k in t.dataRoots && t.dataRoots[k] == s.dataRoots[k])
    && (forall k :: k in s.stateRoots ==> k in t.stateRoots && t.stateRoots[k] == s.stateRoots[k])
    && (forall k :: k in s.rangeStarts ==> k in t.rangeStarts && t.rangeStarts[k] == s.rangeStarts[k])
    && (forall id: U64 :: Lookup(s.authorityHashes, id) != ZERO32 ==>
          Lookup(t.authorityHashes, id) == Lookup(s.authorityHashes, id))
    && s.latestBlock <= t.latestBlock && s.latestAuthoritySetId <= t.latestAuthoritySetId
  }

  // ----- chains grow at the end -----

  lemma ChainAppend(parent: Bytes32, height: nat, a: seq<BlockHeader>, b: seq<BlockHeader>)
    requires ChainFrom(parent, height, a)
    requires ChainFrom(if a == [] then parent else a[|a| - 1].hash, height + |a|, b)
    ensures ChainFrom(parent, height, a + b)
  {
    var mid := if a == [] then parent else a[|a| - 1].hash;
    forall i | 0 <= i < |a + b| ensures ChainAt(parent, height, a + b, i) {
      if i < |a| {
        assert ChainAt(parent, height, a, i);
      } else {
        assert ChainAt(mid, height + |a|, b, i - |a|);
      }
    }
  }

  lemma ReadsAppend(blake2b: Hasher, a: seq<EncodedHeader>, b: seq<EncodedHeader>)
    requires AllRead(Reads(blake2b, a)) && AllRead(Reads(blake2b, b))
    ensures AllRead(Reads(blake2b, a + b))
    ensures Blocks(Reads(blake2b, a + b)) == Blocks(Reads(blake2b, a)) + Blocks(Reads(blake2b, b))
  {
    hide ReadHeader;
    assert Reads(blake2b, a + b) == Reads(blake2b, a) + Reads(blake2b, b);
  }

  /** A commit stays safe when the chain grows behind it and the storage grows. */
  lemma CommitStaysSafe(c: Crypto, g: Genesis, s: State, t: State, blocks: seq<BlockHeader>, more: seq<BlockHeader>, r: CommitRecord)
    requires CommitSafe(c, g, s, blocks, r) && Grows(s, t)
    ensures CommitSafe(c, g, t, blocks + more, r)
  {
    hide Justifies, PaddedRoot;
    assert RangeOf(g, blocks + more, r) == RangeOf(g, blocks, r);
    assert HashAt(g, blocks + more, r.end - g.height) == HashAt(g, blocks, r.end - g.height);
  }

  // ----- a commit -----

  lemma EndFacts(c: Crypto, g: Genesis, s: State, blocks: seq<BlockHeader>, r: CommitRecord)
    requires CommitSafe(c, g, s, blocks, r)
    ensures g.height <= r.start < r.end <= g.height + |blocks|
    ensures r.end in s.headerHashes && s.headerHashes[r.end] == HashAt(g, blocks, r.end - g.height)
    ensures r.setId <= s.latestAuthoritySetId
  {
    hide Justifies, CommitmentsSafe;
  }

  /** The trusted header that a commit builds on is the last one of the chain. */
  lemma TrustedHeader(c: Crypto, g: Genesis, s: State, hist: History)
    requires Safe(c, g, s, hist)
    ensures Lookup(s.headerHashes, s.latestBlock) == HashAt(g, hist.blocks, |hist.blocks|)
  {
    hide CommitSafe, AuthoritiesSafe, ChainSafe, Ends, RangeKeys;
    if hist.commits != [] {
      EndFacts(c, g, s, hist.blocks, hist.commits[|hist.commits| - 1]);
    }
  }

  /** Everything that is stored ends at or before the latest block. */
  lemma {:induction false} EndsBelow(c: Crypto, g: Genesis, s: State, hist: History)
    requires Safe(c, g, s, hist)
    ensures forall b :: b in s.headerHashes ==> b <= s.latestBlock
    ensures forall k :: k in s.dataRoots || k in s.stateRoots || k in s.rangeStarts ==> k.1 <= s.latestBlock
  {
    hide CommitSafe, ChainSafe, AuthoritiesSafe;
    forall i | 0 <= i < |hist.commits| ensures hist.commits[i].end <= s.latestBlock {
      EndFacts(c, g, s, hist.blocks, hist.commits[i]);
    }
  }

  /** The record of a successful commit. */
  function RecordOf(s: State, setId: U64, target: U32, w: HeaderRangeWitness): CommitRecord {
    CommitRecord(s.latestBlock, target, setId, s.circuitDepth, w.justification)
  }

  /** The history after a successful commit. */
  ghost function AfterCommit(c: Crypto, s: State, hist: History, setId: U64, target: U32, w: HeaderRangeWitness): History
    requires s.latestBlock < target && target - s.latestBlock <= |w.headers|
    requires AllRead(Reads(c.blake2b, w.headers))
  {
    var n := target - s.latestBlock;
    History(hist.headers + w.headers[..n], hist.blocks + Blocks(Reads(c.blake2b, w.headers))[..n],
            hist.commits + [RecordOf(s, setId, target, w)], hist.rotations)
  }

  /** What a successful commit has shown, by the exactness of the subchain circuit. */
  lemma CommitShows(c: Crypto, s: State, setId: U64, target: U32, w: HeaderRangeWitness)
    requires CommitHeaderRange(c, s, setId, target, w).Done?
    ensures !s.frozen && Lookup(s.headerHashes, s.latestBlock) != ZERO32
    ensures s.latestBlock < target && target - s.latestBlock <= |w.headers| == Pow2(s.circuitDepth)
    ensures AllRead(Reads(c.blake2b, w.headers))
    ensures var t := CommitHeaderRange(c, s, setId, target, w).state;
            var range := Blocks(Reads(c.blake2b, w.headers))[..target - s.latestBlock];
            var key := (s.latestBlock, target);
            && ChainFrom(Lookup(s.headerHashes, s.latestBlock), s.latestBlock, range)
            && t.headerHashes == s.headerHashes[target := range[|range| - 1].hash]
            && t.dataRoots == s.dataRoots[key := PaddedRoot(c.sha256, s.circuitDepth, DataRoots(range))]
            && t.stateRoots == s.stateRoots[key := PaddedRoot(c.sha256, s.circuitDepth, StateRoots(range))]
            && t.rangeStarts == s.rangeStarts[key := s.latestBlock]
            && t.authorityHashes == s.authorityHashes && t.latestBlock == target && t.latestAuthoritySetId == setId
            && s.latestAuthoritySetId <= setId && Lookup(s.authorityHashes, setId) != ZERO32
            && Justifies(c, target, range[|range| - 1].hash, setId, Lookup(s.authorityHashes, setId), w.justification)
  {
    hide Justifies, PaddedRoot, SubchainOf, Reads;
    var trustedHeader := Lookup(s.headerHashes, s.latestBlock);
    var rs := Reads(c.blake2b, w.headers);
    var out := SubchainOf(c, s.circuitDepth, s.latestBlock, trustedHeader, target, rs).value;
    SubchainExact(c, s.circuitDepth, s.latestBlock, trustedHeader, target, rs, out);
    var range := Blocks(rs)[..target - s.latestBlock];
    assert range[|range| - 1] == Blocks(rs)[target - s.latestBlock - 1];
  }

  /** The commitments that a successful commit stores, over the fields that the circuit has read: in this order and
      with zeros behind, every slot of the two trees climbs to them. */
  lemma CommitMeans(c: Crypto, s: State, setId: U64, target: U32, w: HeaderRangeWitness, states: seq<Bytes32>, datas: seq<Bytes32>)
    requires CommitHeaderRange(c, s, setId, target, w).Done?
    requires s.latestBlock + |states| == s.latestBlock + |datas| == target
    requires forall k :: 0 <= k < |states| && k < |w.headers| && ReadHeader(c.blake2b, w.headers[k]).Some? ==>
               states[k] == ReadHeader(c.blake2b, w.headers[k]).value.stateRoot
               && datas[k] == ReadHeader(c.blake2b, w.headers[k]).value.dataRoot
    ensures |states| <= Pow2(s.circuitDepth)
    ensures var t := CommitHeaderRange(c, s, setId, target, w).state;
            var key := (s.latestBlock, target);
            && key in t.stateRoots && t.stateRoots[key] == PaddedRoot(c.sha256, s.circuitDepth, states)
            && key in t.dataRoots && t.dataRoots[key] == PaddedRoot(c.sha256, s.circuitDepth, datas)
            && forall i :: 0 <= i < Pow2(s.circuitDepth) ==>
                 Climbs(c.sha256, s.circuitDepth, i, LeafOrZero(states, i), t.stateRoots[key])
                 && Climbs(c.sha256, s.circuitDepth, i, LeafOrZero(datas, i), t.dataRoots[key])
  {
    hide Justifies, PaddedRoot, ReadHeader, CommitHeaderRange, ChainFrom, Climbs;
    CommitShows(c, s, setId, target, w);
    var rs := Reads(c.blake2b, w.headers);
    assert StateRoots(Blocks(rs)[..|states|]) == states && DataRoots(Blocks(rs)[..|states|]) == datas;
    PaddedRootClimbs(c.sha256, s.circuitDepth, states);
    PaddedRootClimbs(c.sha256, s.circuitDepth, datas);
  }

  lemma CommitGrows(c: Crypto, g: Genesis, s: State, hist: History, setId: U64, target: U32, w: HeaderRangeWitness)
    requires Safe(c, g, s, hist) && CommitHeaderRange(c, s, setId, target, w).Done?
    ensures Grows(s, CommitHeaderRange(c, s, setId, target, w).state)
  {
    hide Justifies, PaddedRoot, Safe, CommitHeaderRange, ChainFrom;
    EndsBelow(c, g, s, hist);
    CommitShows(c, s, setId, target, w);
  }

  lemma CommitKeepsChain(c: Crypto, g: Genesis, s: State, hist: History, setId: U64, target: U32, w: HeaderRangeWitness)
    requires Safe(c, g, s, hist) && CommitHeaderRange(c, s, setId, target, w).Done?
    requires s.latestBlock < target && target - s.latestBlock <= |w.headers| && AllRead(Reads(c.blake2b, w.headers))
    ensures ChainSafe(c, g, AfterCommit(c, s, hist, setId, target, w))
  {
    hide Justifies, PaddedRoot, CommitHeaderRange, CommitsSafe, AuthoritiesSafe, KeysSafe, ReadHeader;
    CommitShows(c, s, setId, target, w);
    TrustedHeader(c, g, s, hist);
    var n := target - s.latestBlock;
    var rs := Reads(c.blake2b, w.headers);
    ReadsSplit(c.blake2b, w.headers, n);
    BlocksSplit(rs, n);
    ReadsAppend(c.blake2b, hist.headers, w.headers[..n]);
    ChainAppend(g.header, g.height, hist.blocks, Blocks(rs)[..n]);
  }

  lemma TilesSnoc(g: Genesis, s: State, hist: History, t: State, hist': History, r: CommitRecord)
    requires Tiles(g, s, hist) && hist'.commits == hist.commits + [r]
    requires r.start == s.latestBlock && forall i :: 0 <= i < |hist.commits| ==> hist.commits[i].setId <= r.setId
    requires t.latestBlock == r.end == g.height + |hist'.blocks|
    ensures Tiles(g, t, hist')
  {
    var n := |hist.commits|;
    forall i | 0 <= i <= n ensures hist'.commits[i].start == EndOf(g, hist'.commits, i) {
      assert EndOf(g, hist'.commits, i) == EndOf(g, hist.commits, i);
    }
  }

  lemma CommitKeepsTiles(c: Crypto, g: Genesis, s: State, hist: History, setId: U64, target: U32, w: HeaderRangeWitness)
    requires Safe(c, g, s, hist) && CommitHeaderRange(c, s, setId, target, w).Done?
    requires s.latestBlock < target && target - s.latestBlock <= |w.headers| && AllRead(Reads(c.blake2b, w.headers))
    ensures Tiles(g, CommitHeaderRange(c, s, setId, target, w).state, AfterCommit(c, s, hist, setId, target, w))
  {
    hide Justifies, PaddedRoot, CommitHeaderRange, AuthoritiesSafe, ChainSafe, Reads, CommitSafe, ChainFrom, KeysSafe, Pow2;
    CommitShows(c, s, setId, target, w);
    forall i | 0 <= i < |hist.commits| ensures hist.commits[i].setId <= setId {
      EndFacts(c, g, s, hist.blocks, hist.commits[i]);
    }
    assert s.latestBlock == g.height + |hist.blocks|;
    TilesSnoc(g, s, hist, CommitHeaderRange(c, s, setId, target, w).state,
              AfterCommit(c, s, hist, setId, target, w), RecordOf(s, setId, target, w));
  }

  lemma CommitKeepsKeys(c: Crypto, g: Genesis, s: State, hist: History, setId: U64, target: U32, w: HeaderRangeWitness)
    requires Safe(c, g, s, hist) && CommitHeaderRange(c, s, setId, target, w).Done?
    requires s.latestBlock < target && target - s.latestBlock <= |w.headers| && AllRead(Reads(c.blake2b, w.headers))
    ensures KeysSafe(g, CommitHeaderRange(c, s, setId, target, w).state, AfterCommit(c, s, hist, setId, target, w))
  {
    hide Justifies, PaddedRoot, CommitHeaderRange, AuthoritiesSafe, ChainSafe, Reads, CommitsSafe, ChainFrom, Tiles, Ends, RangeKeys;
    CommitShows(c, s, setId, target, w);
    KeysSnoc(hist.commits, RecordOf(s, setId, target, w));
    EndsBelow(c, g, s, hist);
  }

  lemma KeysSnoc(commits: seq<CommitRecord>, r: CommitRecord)
    ensures Ends(commits + [r]) == Ends(commits) + {r.end}
    ensures RangeKeys(commits + [r]) == RangeKeys(commits) + {(r.start, r.end)}
  {
    var more := commits + [r];
    assert more[|commits|] == r;
    assert forall i :: 0 <= i < |commits| ==> more[i] == commits[i];
    forall b | b in Ends(commits) ensures b in Ends(more) {
      var i: nat :| i < |commits| && commits[i].end == b;
      assert more[i].end == b;
    }
    forall k | k in RangeKeys(commits) ensures k in RangeKeys(more) {
      var i: nat :| i < |commits| && (commits[i].start, commits[i].end) == k;
      assert (more[i].start, more[i].end) == k;
    }
  }

  /** The commit just made is safe. */
  lemma NewCommitSafe(c: Crypto, g: Genesis, s: State, t: State, blocks: seq<BlockHeader>, range: seq<BlockHeader>, r: CommitRecord)
    requires range != [] && |range| <= Pow2(r.depth) && r.start == g.height + |blocks| && r.end == r.start + |range|
    requires t.headerHashes == s.headerHashes[r.end := range[|range| - 1].hash]
    requires t.dataRoots == s.dataRoots[(r.start, r.end) := PaddedRoot(c.sha256, r.depth, DataRoots(range))]
    requires t.stateRoots == s.stateRoots[(r.start, r.end) := PaddedRoot(c.sha256, r.depth, StateRoots(range))]
    requires t.rangeStarts == s.rangeStarts[(r.start, r.end) := r.start]
    requires Lookup(t.authorityHashes, r.setId) != ZERO32 && r.setId <= t.latestAuthoritySetId
    requires Justifies(c, r.end, range[|range| - 1].hash, r.setId, Lookup(t.authorityHashes, r.setId), r.justification)
    ensures CommitSafe(c, g, t, blocks + range, r)
  {
    hide Justifies, PaddedRoot, Lookup;
    assert RangeOf(g, blocks + range, r) == range;
    assert HashAt(g, blocks + range, r.end - g.height) == range[|range| - 1].hash;
  }

  lemma CommitKeepsCommits(c: Crypto, g: Genesis, s: State, hist: History, setId: U64, target: U32, w: HeaderRangeWitness)
    requires Safe(c, g, s, hist) && CommitHeaderRange(c, s, setId, target, w).Done?
    requires s.latestBlock < target && target - s.latestBlock <= |w.headers| && AllRead(Reads(c.blake2b, w.headers))
    ensures var t := CommitHeaderRange(c, s, setId, target, w).state;
            CommitsSafe(c, g, t, AfterCommit(c, s, hist, setId, target, w))
  {
    hide Justifies, PaddedRoot, CommitHeaderRange, AuthoritiesSafe, ChainSafe, KeysSafe, Reads, CommitSafe, Grows, ChainFrom;
    CommitShows(c, s, setId, target, w);
    CommitGrows(c, g, s, hist, setId, target, w);
    var t := CommitHeaderRange(c, s, setId, target, w).state;
    var hist' := AfterCommit(c, s, hist, setId, target, w);
    var range := Blocks(Reads(c.blake2b, w.headers))[..target - s.latestBlock];
    var r := RecordOf(s, setId, target, w);
    NewCommitSafe(c, g, s, t, hist.blocks, range, r);
    forall i | 0 <= i < |hist'.commits| ensures CommitSafe(c, g, t, hist'.blocks, hist'.commits[i]) {
      if i < |hist.commits| {
        CommitStaysSafe(c, g, s, t, hist.blocks, range, hist.commits[i]);
      }
    }
  }

  lemma SameAuthorities(c: Crypto, g: Genesis, s: State, t: State, rotations: seq<HintedRotate>)
    requires AuthoritiesSafe(c, g, s, rotations) && t.authorityHashes == s.authorityHashes
    requires g.setId <= t.latestAuthoritySetId <= g.setId + |rotations|
    ensures AuthoritiesSafe(c, g, t, rotations)
  {
    hide RotateOf;
    forall i | 0 <= i < |rotations| ensures RotationSafe(c, g, t, rotations, i) {
      assert RotationSafe(c, g, s, rotations, i);
    }
  }

  lemma CommitKeepsSafe(c: Crypto, g: Genesis, s: State, hist: History, setId: U64, target: U32, w: HeaderRangeWitness)
      returns (hist': History)
    requires Safe(c, g, s, hist) && CommitHeaderRange(c, s, setId, target, w).Done?
    ensures Safe(c, g, CommitHeaderRange(c, s, setId, target, w).state, hist')
  {
    hide Justifies, PaddedRoot, CommitHeaderRange, ChainSafe, Tiles, KeysSafe, CommitsSafe, RotationSafe, Reads;
    CommitShows(c, s, setId, target, w);
    hist' := AfterCommit(c, s, hist, setId, target, w);
    CommitKeepsChain(c, g, s, hist, setId, target, w);
    CommitKeepsTiles(c, g, s, hist, setId, target, w);
    CommitKeepsKeys(c, g, s, hist, setId, target, w);
    CommitKeepsCommits(c, g, s, hist, setId, target, w);
    SameAuthorities(c, g, s, CommitHeaderRange(c, s, setId, target, w).state, hist.rotations);
  }

  // ----- a rotation -----

  lemma IntervalStored(c: Crypto, g: Genesis, s: State, rotations: seq<HintedRotate>)
    requires AuthoritiesSafe(c, g, s, rotations)
    ensures forall id: U64 :: g.setId < id <= g.setId + |rotations| ==> Lookup(s.authorityHashes, id) != ZERO32
  {
    hide RotateOf;
    forall id: U64 | g.setId < id <= g.setId + |rotations| ensures Lookup(s.authorityHashes, id) != ZERO32 {
      assert RotationSafe(c, g, s, rotations, id - g.setId - 1);
    }
  }

  /** A rotation can succeed at the top of the interval only. */
  lemma RotatesAtTop(c: Crypto, g: Genesis, s: State, hist: History, setId: U64, w: HintedRotate)
    requires Safe(c, g, s, hist) && RotateSet(c, s, setId, w).Done?
    ensures setId == g.setId + |hist.rotations|
  {
    hide RotateOf, ChainSafe, Tiles, KeysSafe, CommitsSafe, RotationSafe;
    IntervalStored(c, g, s, hist.rotations);
    var next: U64 := setId + 1;
    assert Lookup(s.authorityHashes, setId) != ZERO32 && Lookup(s.authorityHashes, next) == ZERO32;
  }

  lemma RotateGrows(c: Crypto, s: State, setId: U64, w: HintedRotate)
    requires RotateSet(c, s, setId, w).Done?
    ensures Grows(s, RotateSet(c, s, setId, w).state)
  {
    hide RotateOf;
  }

  lemma RotateKeepsAuthorities(c: Crypto, g: Genesis, s: State, hist: History, setId: U64, w: HintedRotate)
    requires Safe(c, g, s, hist) && RotateSet(c, s, setId, w).Done?
    ensures var t := RotateSet(c, s, setId, w).state;
            AuthoritiesSafe(c, g, t, if Lookup(t.authorityHashes, setId + 1) == ZERO32 then hist.rotations else hist.rotations + [w])
  {
    hide RotateOf, ChainSafe, Tiles, KeysSafe, CommitsSafe;
    RotatesAtTop(c, g, s, hist, setId, w);
    var t := RotateSet(c, s, setId, w).state;
    var rotations := if Lookup(t.authorityHashes, setId + 1) == ZERO32 then hist.rotations else hist.rotations + [w];
    assert forall id: U64 :: id != setId + 1 ==> Lookup(t.authorityHashes, id) == Lookup(s.authorityHashes, id);
    forall i | 0 <= i < |rotations| ensures RotationSafe(c, g, t, rotations, i) {
      if i < |hist.rotations| {
        assert RotationSafe(c, g, s, hist.rotations, i);
      }
    }
  }

  /** Commits do not notice that the storage grows in other places. */
  lemma CommitsStaySafe(c: Crypto, g: Genesis, s: State, t: State, hist: History, rotations: seq<HintedRotate>)
    requires CommitsSafe(c, g, s, hist) && Grows(s, t)
    ensures CommitsSafe(c, g, t, hist.(rotations := rotations))
  {
    hide CommitSafe, Grows;
    forall i | 0 <= i < |hist.commits| ensures CommitSafe(c, g, t, hist.blocks, hist.commits[i]) {
      CommitStaysSafe(c, g, s, t, hist.blocks, [], hist.commits[i]);
      assert hist.blocks + [] == hist.blocks;
    }
  }

  lemma RotateKeepsSafe(c: Crypto, g: Genesis, s: State, hist: History, setId: U64, w: HintedRotate)
      returns (hist': History)
    requires Safe(c, g, s, hist) && RotateSet(c, s, setId, w).Done?
    ensures Safe(c, g, RotateSet(c, s, setId, w).state, hist')
  {
    hide RotateOf, AuthoritiesSafe, CommitsSafe, Grows;
    var t := RotateSet(c, s, setId, w).state;
    RotateKeepsAuthorities(c, g, s, hist, setId, w);
    RotateGrows(c, s, setId, w);
    hist' := hist.(rotations := if Lookup(t.authorityHashes, setId + 1) == ZERO32 then hist.rotations else hist.rotations + [w]);
    CommitsStaySafe(c, g, s, t, hist, hist'.rotations);
  }

  // ----- runs -----

  /** Calls that leave the genesis and the stored ranges to the circuits. */
  predicate Proven(a: Action) {
    a.CommitCall? || a.RotateCall? || a.FreezeCall? || a.FunctionIdsCall?
  }

  lemma InitialSafe(c: Crypto, g: Genesis)
    requires g.setHash != ZERO32
    ensures Safe(c, g, Initial(g), History([], [], [], []))
  {
    hide ReadHeader;
    assert Ends([]) == {} && RangeKeys([]) == {};
  }

  lemma StepKeepsSafe(c: Crypto, g: Genesis, s: State, hist: History, a: Action) returns (hist': History)
    requires Safe(c, g, s, hist) && Proven(a)
    ensures Safe(c, g, Step(c, s, a), hist')
    ensures Grows(s, Step(c, s, a))
  {
    hide CommitHeaderRange, RotateSet, ChainSafe, AuthoritiesSafe, CommitsSafe;
    hist' := hist;
    var t := Step(c, s, a);
    if a.CommitCall? && CommitHeaderRange(c, s, a.setId, a.target, a.range).Done? {
      hist' := CommitKeepsSafe(c, g, s, hist, a.setId, a.target, a.range);
      CommitGrows(c, g, s, hist, a.setId, a.target, a.range);
    } else if a.RotateCall? && RotateSet(c, s, a.setId, a.rotation).Done? {
      hist' := RotateKeepsSafe(c, g, s, hist, a.setId, a.rotation);
      RotateGrows(c, s, a.setId, a.rotation);
    } else {
      Unchanged(c, g, s, t, hist);
    }
  }

  /** Safety does not depend on the freeze or on the registered circuit. */
  lemma Unchanged(c: Crypto, g: Genesis, s: State, t: State, hist: History)
    requires Safe(c, g, s, hist)
    requires t == s.(frozen := t.frozen, circuitDepth := t.circuitDepth, treeSize := t.treeSize)
    ensures Safe(c, g, t, hist) && Grows(s, t)
  {
    hide RotateOf, CommitSafe, ChainSafe, Ends, RangeKeys, RotationSafe;
    CommitsStaySafe(c, g, s, t, hist, hist.rotations);
    SameAuthorities(c, g, s, t, hist.rotations);
  }

  /** Light-client safety over all runs. In every state that any calls with any proofs lead to: the stored
      header hashes lie on one linked, consecutively numbered chain from genesis to the latest block, the
      ranges tile that chain, each stored commitment is the padded Merkle root of exactly its range, the
      circuit has accepted a justification of each end block by a stored authority set, and each stored set
      comes from the genesis set by accepted rotations. */
  lemma {:induction false} RunSafe(c: Crypto, g: Genesis, actions: seq<Action>) returns (hist: History)
    requires g.setHash != ZERO32 && forall a :: a in actions ==> Proven(a)
    ensures Safe(c, g, Run(c, Initial(g), actions), hist)
    decreases |actions|
  {
    hide Safe, Step;
    if actions == [] {
      InitialSafe(c, g);
      hist := History([], [], [], []);
    } else {
      var last := |actions| - 1;
      hist := RunSafe(c, g, actions[..last]);
      hist := StepKeepsSafe(c, g, Run(c, Initial(g), actions[..last]), hist, actions[last]);
    }
  }

  /** Over any further calls nothing that is stored changes. */
  lemma {:induction false} RunGrows(c: Crypto, g: Genesis, before: seq<Action>, after: seq<Action>)
    requires g.setHash != ZERO32 && forall a :: a in before + after ==> Proven(a)
    ensures Grows(Run(c, Initial(g), before), Run(c, Initial(g), before + after))
    decreases |after|
  {
    hide Safe, Step, Grows;
    if after == [] {
      assert before + after == before;
      GrowsReflexive(Run(c, Initial(g), before));
    } else {
      var last := |after| - 1;
      var all := before + after;
      assert all[..|all| - 1] == before + after[..last] && all[|all| - 1] == after[last];
      RunGrows(c, g, before, after[..last]);
      var hist := RunSafe(c, g, before + after[..last]);
      var hist' := StepKeepsSafe(c, g, Run(c, Initial(g), before + after[..last]), hist, after[last]);
      GrowsTransitive(Run(c, Initial(g), before), Run(c, Initial(g), before + after[..last]), Run(c, Initial(g), all));
    }
  }

  lemma GrowsReflexive(s: State)
    ensures Grows(s, s)
  {
  }

  lemma GrowsTransitive(s: State, t: State, u: State)
    requires Grows(s, t) && Grows(t, u)
    ensures Grows(s, u)
  {
  }

  /** The ids with a stored set are exactly an interval that starts at the genesis id. */
  lemma AuthorityInterval(c: Crypto, g: Genesis, s: State, hist: History, id: U64)
    requires Safe(c, g, s, hist) && g.setHash != ZERO32
    ensures Lookup(s.authorityHashes, id) != ZERO32 <==> g.setId <= id <= g.setId + |hist.rotations|
  {
    hide RotateOf, ChainSafe, Tiles, KeysSafe, CommitsSafe;
    IntervalStored(c, g, s, hist.rotations);
  }

  /** How many of the stored set have signed a committed end block, whatever was hinted: at least the bound
      of `SufficientVotes`, which is a quorum for justifications of the host's shape, and for every
      justification by a set that fills the slots. */
  lemma CommittedVotes(c: Crypto, g: Genesis, s: State, hist: History, i: nat)
    requires Safe(c, g, s, hist) && i < |hist.commits|
    ensures var r := hist.commits[i];
            var j := r.justification;
            && Authorities(j) != [] && Lookup(s.authorityHashes, r.setId) == ChainHash(c.sha256, Authorities(j))
            && DecodePrecommit(j.precommit).Some? && DecodePrecommit(j.precommit).value.blockNumber == r.end
            && DecodePrecommit(j.precommit).value.blockHash == Lookup(s.headerHashes, r.end)
            && (forall k :: k in Signers(j.signed[..Members(j)]) ==>
                  k < |Authorities(j)| && c.verify(Authorities(j)[k], j.precommit, j.signatures[k]))
            && |Signers(j.signed[..Members(j)])| == MemberVotes(j)
            && MemberVotes(j) >= LeastMemberVotes(j.numAuthorities)
            && (WellShaped(j) || ThresholdBase(j) >= MAX_AUTHORITY_SET_SIZE ==> 3 * MemberVotes(j) > 2 * |Authorities(j)|)
  {
    hide PaddedRoot, ChainSafe, Tiles, KeysSafe, AuthoritiesSafe, CountSigned, ChainHash, DecodePrecommit;
    var r := hist.commits[i];
    var j := r.justification;
    assert CommitSafe(c, g, s, hist.blocks, r);
    AcceptedVotes(c, r.end, s.headerHashes[r.end], r.setId, Lookup(s.authorityHashes, r.setId), j);
    CountedVotes(j);
  }

  /** Every stored set but the first is the hash of the keys that stand, as a scheduled change without delay, at
      the rotation's position in a padded header. The set before has justified that header's hashed bytes, which
      bind the keys if and only if the last key ends within them. */
  lemma StoredSetIsListed(c: Crypto, g: Genesis, s: State, hist: History, i: nat)
    requires Safe(c, g, s, hist) && i < |hist.rotations|
    ensures g.setId + |hist.rotations| < TWO_64
    ensures var w := hist.rotations[i];
            && w.numAuthorities > 0 && Lookup(s.authorityHashes, g.setId + i + 1) == ChainHash(c.sha256, NewKeys(w))
            && ListsKeys(w) && LogAccepted(w) && (KeysHashed(w) <==> KeysBound(w))
            && Justifies(c, w.epochEndBlock, HashEncodedHeader(c.blake2b, w.header), g.setId + i,
                         Lookup(s.authorityHashes, g.setId + i), w.justification)
  {
    hide RotateOf, ChainSafe, Tiles, KeysSafe, CommitsSafe, Justifies, ListsKeys, LogAccepted, KeysHashed, KeysBound;
    assert RotationSafe(c, g, s, hist.rotations, i);
    RotationIsListed(c, g.setId + i, Lookup(s.authorityHashes, g.setId + i), hist.rotations[i]);
  }

  /** The history, spelled out over its headers: they can be read, and are numbered and linked on from genesis. */
  lemma HistoryMeans(c: Crypto, g: Genesis, hist: History)
    requires ChainSafe(c, g, hist)
    ensures |hist.blocks| == |hist.headers|
    ensures forall k :: 0 <= k < |hist.headers| ==> ReadHeader(c.blake2b, hist.headers[k]) == Some(hist.blocks[k])
    ensures forall k {:trigger hist.headers[k]} :: 0 <= k < |hist.headers| ==>
              var b := ReadHeader(c.blake2b, hist.headers[k]);
              && b.Some? && b.value.number == g.height + 1 + k
              && (k == 0 ==> b.value.parent == g.header)
              && (k > 0 ==> Some(b.value.parent) == HashRead(c.blake2b, hist.headers[k - 1]))
  {
    hide ReadHeader;
    var rs := Reads(c.blake2b, hist.headers);
    forall k | 0 <= k < |hist.headers| ensures ReadHeader(c.blake2b, hist.headers[k]) == Some(hist.blocks[k]) {
      assert rs[k] == ReadHeader(c.blake2b, hist.headers[k]);
    }
    forall k {:trigger hist.headers[k]} | 0 <= k < |hist.headers|
      ensures hist.blocks[k].number == g.height + 1 + k
      ensures k == 0 ==> hist.blocks[k].parent == g.header
      ensures k > 0 ==> Some(hist.blocks[k].parent) == HashRead(c.blake2b, hist.headers[k - 1])
    {
      assert ChainAt(g.header, g.height, hist.blocks, k);
    }
  }

  /** The hash of a header that can be read. */
  function HashRead(blake2b: Hasher, e: EncodedHeader): (r: Option<Bytes32>)
    ensures r.Some? ==> r.value == HashEncodedHeader(blake2b, e)
  {
    if ReadHeader(blake2b, e).Some? then Some(ReadHeader(blake2b, e).value.hash) else None
  }

  /** A committed range, spelled out over these headers: the last one's hash is stored, and every slot of the
      stored trees climbs to them. */
  lemma CommittedRangeMeans(c: Crypto, g: Genesis, s: State, hist: History, i: nat, states: seq<Bytes32>, datas: seq<Bytes32>)
    requires Safe(c, g, s, hist) && i < |hist.commits|
    requires var r := hist.commits[i]; r.start + |states| == r.start + |datas| == r.end && g.height <= r.start
    requires var from := hist.commits[i].start - g.height;
             forall k :: 0 <= k < |states| && from + k < |hist.blocks| ==>
               states[k] == hist.blocks[from + k].stateRoot && datas[k] == hist.blocks[from + k].dataRoot
    ensures var r := hist.commits[i];
            && 0 < r.end - g.height <= |hist.headers| && r.end in s.headerHashes
            && s.headerHashes[r.end] == HashEncodedHeader(c.blake2b, hist.headers[r.end - g.height - 1])
            && (r.start, r.end) in s.stateRoots && (r.start, r.end) in s.dataRoots
            && forall k :: 0 <= k < Pow2(r.depth) ==>
                 Climbs(c.sha256, r.depth, k, LeafOrZero(states, k), s.stateRoots[(r.start, r.end)])
                 && Climbs(c.sha256, r.depth, k, LeafOrZero(datas, k), s.dataRoots[(r.start, r.end)])
  {
    hide Justifies, ChainSafe, CommitSafe, Tiles, KeysSafe, AuthoritiesSafe, Climbs;
    var r := hist.commits[i];
    assert CommitSafe(c, g, s, hist.blocks, r);
    EndFacts(c, g, s, hist.blocks, r);
    LastHeaderHash(c, g, hist, r.end - g.height);
    CommitmentsMean(c, g, s, hist.blocks, r, states, datas);
  }

  lemma LastHeaderHash(c: Crypto, g: Genesis, hist: History, n: nat)
    requires ChainSafe(c, g, hist) && 0 < n <= |hist.blocks|
    ensures n <= |hist.headers| && HashAt(g, hist.blocks, n) == HashEncodedHeader(c.blake2b, hist.headers[n - 1])
  {
    hide ChainFrom;
    HistoryMeans(c, g, hist);
    assert ReadHeader(c.blake2b, hist.headers[n - 1]) == Some(hist.blocks[n - 1]);
  }

  lemma CommitmentsMean(c: Crypto, g: Genesis, s: State, blocks: seq<BlockHeader>, r: CommitRecord,
      states: seq<Bytes32>, datas: seq<Bytes32>)
    requires CommitSafe(c, g, s, blocks, r) && r.start + |states| == r.start + |datas| == r.end
    requires forall k :: 0 <= k < |states| && r.start - g.height + k < |blocks| ==>
               states[k] == blocks[r.start - g.height + k].stateRoot && datas[k] == blocks[r.start - g.height + k].dataRoot
    ensures (r.start, r.end) in s.stateRoots && (r.start, r.end) in s.dataRoots
    ensures forall k :: 0 <= k < Pow2(r.depth) ==>
              Climbs(c.sha256, r.depth, k, LeafOrZero(states, k), s.stateRoots[(r.start, r.end)])
              && Climbs(c.sha256, r.depth, k, LeafOrZero(datas, k), s.dataRoots[(r.start, r.end)])
  {
    hide Justifies, PaddedRoot, Climbs, EndSafe;
    var range := RangeOf(g, blocks, r);
    assert StateRoots(range) == states && DataRoots(range) == datas;
    PaddedRootClimbs(c.sha256, r.depth, states);
    PaddedRootClimbs(c.sha256, r.depth, datas);
  }

  // ----- two runs -----

  /** Two votes of one round. */
  predicate OneRound(j1: HintedJustification, j2: HintedJustification) {
    && DecodePrecommit(j1.precommit).Some? && DecodePrecommit(j2.precommit).Some?
    && DecodePrecommit(j1.precommit).value.round == DecodePrecommit(j2.precommit).value.round
  }

  /** Two rotations that read the same position of the header of one epoch end block, justified in one round,
      where the keys of the first lie inside the hashed bytes. */
  predicate SameRotation(w1: HintedRotate, w2: HintedRotate) {
    && w1.epochEndBlock == w2.epochEndBlock && w1.startPosition == w2.startPosition
    && OneRound(w1.justification, w2.justification)
    && KeysHashed(w1)
  }

  predicate SameRotations(h1: History, h2: History, k: int) {
    forall i :: 0 <= i < k && i < |h1.rotations| && i < |h2.rotations| ==> SameRotation(h1.rotations[i], h2.rotations[i])
  }

  /** Two different votes of one set: members have cast both, or the flags past the end of the set leave no double
      vote forced. Equal votes explain nothing. */
  ghost predicate ExplainsFork(c: Crypto, j1: HintedJustification, j2: HintedJustification) {
    DoubleVote(c, j1, j2) || Unforced(j1, j2)
  }

  /** Some of the first `k` rotations of two runs have such votes. */
  ghost predicate RotationsExplainFork(c: Crypto, h1: History, h2: History, k: int) {
    exists i :: 0 <= i < k && i < |h1.rotations| && i < |h2.rotations|
                && ExplainsFork(c, h1.rotations[i].justification, h2.rotations[i].justification)
  }

  /** Two accepted rotations from one set, alike in what they read, are to one set - or show a collision, or their
      votes explain the fork. */
  lemma RotationsAgree(c: Crypto, setId: U64, setHash: Bytes32, w1: HintedRotate, w2: HintedRotate)
      returns (x: seq<Byte>, y: seq<Byte>, u: seq<Byte>, v: seq<Byte>)
    requires RotateOf(c, setId, setHash, w1).Some? && RotateOf(c, setId, setHash, w2).Some? && SameRotation(w1, w2)
    ensures || Collision(c.sha256, x, y) || Collision(c.blake2b, u, v) || ExplainsFork(c, w1.justification, w2.justification)
            || RotateOf(c, setId, setHash, w1) == RotateOf(c, setId, setHash, w2)
  {
    hide Justifies, DoubleVote, Unforced, DecodePrecommit, KeysHashed, EpochEndOk, ChainHash, HashEncodedHeader;
    var hash1, hash2 := HashEncodedHeader(c.blake2b, w1.header), HashEncodedHeader(c.blake2b, w2.header);
    x, y := ForkNeedsEvidence(c, w1.epochEndBlock, hash1, hash2, setId, setHash, w1.justification, w2.justification);
    u, v := [], [];
    if hash1 == hash2 {
      u, v := RotationBinding(c, setId, setHash, w1, setId, setHash, w2);
    }
  }

  /** Two runs from one genesis whose first `k` rotations are alike in what they read store the same sets up to
      the `k`-th - or show a collision, or votes that explain it. */
  lemma {:induction false} SetsAgree(c: Crypto, g: Genesis, s1: State, h1: History, s2: State, h2: History, k: nat)
      returns (x: seq<Byte>, y: seq<Byte>, u: seq<Byte>, v: seq<Byte>)
    requires AuthoritiesSafe(c, g, s1, h1.rotations) && AuthoritiesSafe(c, g, s2, h2.rotations)
    requires k <= |h1.rotations| && k <= |h2.rotations| && SameRotations(h1, h2, k)
    ensures || Collision(c.sha256, x, y) || Collision(c.blake2b, u, v) || RotationsExplainFork(c, h1, h2, k)
            || Lookup(s1.authorityHashes, g.setId + k) == Lookup(s2.authorityHashes, g.setId + k)
    decreases k
  {
    hide RotateOf, ExplainsFork, SameRotation;
    x, y, u, v := [], [], [], [];
    if k > 0 {
      x, y, u, v := SetsAgree(c, g, s1, h1, s2, h2, k - 1);
      var setHash := Lookup(s1.authorityHashes, g.setId + k - 1);
      if setHash == Lookup(s2.authorityHashes, g.setId + k - 1) {
        assert RotationSafe(c, g, s1, h1.rotations, k - 1) && RotationSafe(c, g, s2, h2.rotations, k - 1);
        assert SameRotation(h1.rotations[k - 1], h2.rotations[k - 1]);
        x, y, u, v := RotationsAgree(c, g.setId + k - 1, setHash, h1.rotations[k - 1], h2.rotations[k - 1]);
      }
    }
  }

  /** Two header chains of one length from one block, whose last headers have been justified in one round by
      one committed set, are the same chain - or the provers' data shows a hash collision, or the two
      votes explain the fork. */
  lemma JustifiedChainsAgree(c: Crypto, parent: Bytes32, height: U32, a: seq<EncodedHeader>, b: seq<EncodedHeader>,
      setId: U64, setHash: Bytes32, j1: HintedJustification, j2: HintedJustification)
      returns (x: seq<Byte>, y: seq<Byte>, u: seq<Byte>, v: seq<Byte>)
    requires |a| == |b| > 0 && height + |a| < TWO_32 && LinksHashed(a) && OneRound(j1, j2)
    requires HeadersFrom(c.blake2b, parent, height, a) && HeadersFrom(c.blake2b, parent, height, b)
    requires Justifies(c, height + |a|, Blocks(Reads(c.blake2b, a))[|a| - 1].hash, setId, setHash, j1)
    requires Justifies(c, height + |a|, Blocks(Reads(c.blake2b, b))[|a| - 1].hash, setId, setHash, j2)
    ensures || Collision(c.sha256, x, y) || Collision(c.blake2b, u, v) || ExplainsFork(c, j1, j2)
            || (SameHeaders(a, b) && SameFields(c.blake2b, a, b))
  {
    hide Justifies, DoubleVote, Unforced, DecodePrecommit, ReadHeader, SameFields;
    var hash1, hash2 := Blocks(Reads(c.blake2b, a))[|a| - 1].hash, Blocks(Reads(c.blake2b, b))[|a| - 1].hash;
    JustifiesDecodes(c, height + |a|, hash1, setId, setHash, j1);
    x, y := ForkNeedsEvidence(c, height + |a|, hash1, hash2, setId, setHash, j1, j2);
    u, v := [], [];
    if hash1 == hash2 {
      u, v := ChainBinding(c.blake2b, a, b, parent, parent, height);
    }
  }

  lemma JustifiesDecodes(c: Crypto, blockNumber: U32, blockHash: Bytes32, setId: U64, setHash: Bytes32, j: HintedJustification)
    requires Justifies(c, blockNumber, blockHash, setId, setHash, j)
    ensures DecodePrecommit(j.precommit).Some?
  {
  }

  /** Two runs that have each committed the same block number under one set, stored with the same hash in both,
      hold the same headers up to it. */
  lemma NoForkUnderOneSet(c: Crypto, g: Genesis, s1: State, h1: History, s2: State, h2: History, i: nat, j: nat)
      returns (x: seq<Byte>, y: seq<Byte>, u: seq<Byte>, v: seq<Byte>)
    requires Safe(c, g, s1, h1) && Safe(c, g, s2, h2) && i < |h1.commits| && j < |h2.commits|
    requires var r1, r2 := h1.commits[i], h2.commits[j];
             && r1.end == r2.end && r1.setId == r2.setId && OneRound(r1.justification, r2.justification)
             && Lookup(s1.authorityHashes, r1.setId) == Lookup(s2.authorityHashes, r1.setId)
    requires LinksHashed(h1.headers)
    ensures var n := h1.commits[i].end - g.height;
            0 < n <= |h1.headers| && n <= |h2.headers|
            && (|| Collision(c.sha256, x, y) || Collision(c.blake2b, u, v)
                || ExplainsFork(c, h1.commits[i].justification, h2.commits[j].justification)
                || (SameHeaders(h1.headers[..n], h2.headers[..n]) && SameFields(c.blake2b, h1.headers[..n], h2.headers[..n])))
  {
    hide Justifies, PaddedRoot, ExplainsFork, OneRound, ReadHeader, AuthoritiesSafe, Tiles, KeysSafe, ChainFrom, SameFields, SameHeaders;
    var r1, r2 := h1.commits[i], h2.commits[j];
    assert CommitSafe(c, g, s1, h1.blocks, r1) && CommitSafe(c, g, s2, h2.blocks, r2);
    var n := r1.end - g.height;
    HeadersPrefix(c.blake2b, g.header, g.height, h1.headers, n);
    HeadersPrefix(c.blake2b, g.header, g.height, h2.headers, n);
    assert h1.blocks[..n][n - 1] == h1.blocks[n - 1] && h2.blocks[..n][n - 1] == h2.blocks[n - 1];
    x, y, u, v := JustifiedChainsAgree(c, g.header, g.height, h1.headers[..n], h2.headers[..n], r1.setId,
                                       Lookup(s1.authorityHashes, r1.setId), r1.justification, r2.justification);
  }

  /** Two deployments with the same genesis that have each committed the same block number under one set id, in
      one round, and have rotated up to that id alike, hold the same headers up to it, byte by byte, and the
      same decoded fields where these are hashed - or their data shows a hash collision, or two votes that
      explain the fork: members of one set voting twice, or flags past its end that leave that unforced. */
  lemma NoFork(c: Crypto, g: Genesis, s1: State, h1: History, s2: State, h2: History, i: nat, j: nat)
      returns (x: seq<Byte>, y: seq<Byte>, u: seq<Byte>, v: seq<Byte>)
    requires Safe(c, g, s1, h1) && Safe(c, g, s2, h2) && i < |h1.commits| && j < |h2.commits|
    requires var r1, r2 := h1.commits[i], h2.commits[j];
             && r1.end == r2.end && r1.setId == r2.setId && OneRound(r1.justification, r2.justification)
             && SameRotations(h1, h2, r1.setId - g.setId)
    requires LinksHashed(h1.headers)
    ensures var n := h1.commits[i].end - g.height;
            0 < n <= |h1.headers| && n <= |h2.headers|
            && (|| Collision(c.sha256, x, y) || Collision(c.blake2b, u, v)
                || ExplainsFork(c, h1.commits[i].justification, h2.commits[j].justification)
                || RotationsExplainFork(c, h1, h2, h1.commits[i].setId - g.setId)
                || (SameHeaders(h1.headers[..n], h2.headers[..n]) && SameFields(c.blake2b, h1.headers[..n], h2.headers[..n])
                    && (AllFieldsHashed(h1.headers[..n]) ==> h1.blocks[..n] == h2.blocks[..n])))
  {
    hide Justifies, PaddedRoot, ExplainsFork, OneRound, ReadHeader, Tiles, KeysSafe, ChainFrom, SameFields, SameHeaders,
      RotationSafe, RotationsExplainFork, FieldsHashed, SameRotations;
    var r1, r2 := h1.commits[i], h2.commits[j];
    var n := r1.end - g.height;
    assert CommitSafe(c, g, s1, h1.blocks, r1) && CommitSafe(c, g, s2, h2.blocks, r2);
    x, y, u, v := SetsAgree(c, g, s1, h1, s2, h2, r1.setId - g.setId);
    if Lookup(s1.authorityHashes, r1.setId) == Lookup(s2.authorityHashes, r1.setId) {
      x, y, u, v := NoForkUnderOneSet(c, g, s1, h1, s2, h2, i, j);
    }
    if AllFieldsHashed(h1.headers[..n]) && SameFields(c.blake2b, h1.headers[..n], h2.headers[..n]) {
      SameBlocks(c, g, h1, h2, n);
    }
  }

  /** In the two commits, and in the first `n` rotations of the two runs, justifications have the host's shape, and
      where the two runs' votes differ, at most a third of the set has cast both. */
  ghost predicate FewVoteTwice(h1: History, h2: History, i: nat, j: nat, n: int)
    requires i < |h1.commits| && j < |h2.commits|
  {
    && FewDoubleSigners(h1.commits[i].justification, h2.commits[j].justification)
    && forall k :: 0 <= k < n && k < |h1.rotations| && k < |h2.rotations| ==>
         FewDoubleSigners(h1.rotations[k].justification, h2.rotations[k].justification)
  }

  /** Agreement: if never more than a third of a set votes twice, and justifications have the host's shape, then
      two such runs hold the same headers, or show a hash collision. */
  lemma NoForkIfFewVoteTwice(c: Crypto, g: Genesis, s1: State, h1: History, s2: State, h2: History, i: nat, j: nat)
      returns (x: seq<Byte>, y: seq<Byte>, u: seq<Byte>, v: seq<Byte>)
    requires Safe(c, g, s1, h1) && Safe(c, g, s2, h2) && i < |h1.commits| && j < |h2.commits|
    requires var r1, r2 := h1.commits[i], h2.commits[j];
             && r1.end == r2.end && r1.setId == r2.setId && OneRound(r1.justification, r2.justification)
             && SameRotations(h1, h2, r1.setId - g.setId)
    requires LinksHashed(h1.headers) && FewVoteTwice(h1, h2, i, j, h1.commits[i].setId - g.setId)
    ensures var n := h1.commits[i].end - g.height;
            0 < n <= |h1.headers| && n <= |h2.headers|
            && (|| Collision(c.sha256, x, y) || Collision(c.blake2b, u, v)
                || (SameHeaders(h1.headers[..n], h2.headers[..n]) && SameFields(c.blake2b, h1.headers[..n], h2.headers[..n])))
  {
    hide Safe, FewDoubleSigners, DoubleVote, Unforced, OneRound, SameRotations, SameHeaders, SameFields, LinksHashed;
    x, y, u, v := NoFork(c, g, s1, h1, s2, h2, i, j);
    FewIsNoEvidence(c, h1.commits[i].justification, h2.commits[j].justification);
    forall k | 0 <= k < h1.commits[i].setId - g.setId && k < |h1.rotations| && k < |h2.rotations|
      ensures !ExplainsFork(c, h1.rotations[k].justification, h2.rotations[k].justification)
    {
      FewIsNoEvidence(c, h1.rotations[k].justification, h2.rotations[k].justification);
    }
  }

  /** A run meets this against itself whenever its justifications have the host's shape. */
  lemma FewVoteTwiceInOneRun(h: History, i: nat, n: int)
    requires i < |h.commits| && WellShaped(h.commits[i].justification)
    requires forall k :: 0 <= k < n && k < |h.rotations| ==> WellShaped(h.rotations[k].justification)
    ensures FewVoteTwice(h, h, i, i, n)
  {
    hide WellShaped, DoubleSigners;
  }

  lemma SameBlocks(c: Crypto, g: Genesis, h1: History, h2: History, n: nat)
    requires ChainSafe(c, g, h1) && ChainSafe(c, g, h2) && n <= |h1.headers| && n <= |h2.headers|
    requires AllFieldsHashed(h1.headers[..n]) && SameFields(c.blake2b, h1.headers[..n], h2.headers[..n])
    ensures h1.blocks[..n] == h2.blocks[..n]
  {
    hide ReadHeader, FieldsHashed, SameFields;
    AllFieldsSame(c.blake2b, h1.headers[..n], h2.headers[..n]);
    HeadersPrefix(c.blake2b, g.header, g.height, h1.headers, n);
    HeadersPrefix(c.blake2b, g.header, g.height, h2.headers, n);
  }

  // ----- liveness of honest proofs -----

  /** What an honest prover supplies for a target: hinted headers of the chain, and a padded justification
      whose signatures over the target's precommit are valid. */
  ghost predicate HonestHint(c: Crypto, s: State, setId: U64, target: U32, chain: U32 -> Header, headers: seq<EncodedHeader>,
      d: SimpleJustificationData, round: U64)
  {
    && |headers| == Pow2(s.circuitDepth)
    && HonestChain(c.blake2b, chain, s.latestBlock, Lookup(s.headerHashes, s.latestBlock), target)
    && IsHint(chain, s.latestBlock, target, headers)
    && Consistent(d) && d.numAuthorities > 0
    && d.signedMessage == EncodePrecommit(Precommit(c.blake2b(Encode(chain(target))), target, round, setId))
    && (forall i :: 0 <= i < d.numAuthorities && d.validatorSigned[i] ==> c.verify(d.pubkeys[i], d.signedMessage, d.signatures[i]))
    && Lookup(s.authorityHashes, setId) == ChainHash(c.sha256, d.pubkeys)
  }

  /** The same for a target that is later and within the tree. */
  ghost predicate HonestRange(c: Crypto, s: State, setId: U64, target: U32, chain: U32 -> Header, headers: seq<EncodedHeader>,
      d: SimpleJustificationData, round: U64)
  {
    0 < target - s.latestBlock <= Pow2(s.circuitDepth) && HonestHint(c, s, setId, target, chain, headers, d, round)
  }

  /** On an unfrozen contract that knows the trusted header and the set, an honest range is committed
      exactly when strictly more than two thirds of the set have signed and no needed batch runs past the
      largest block number; what is stored are the chain's own hash and commitments. */
  lemma HonestCommitSucceeds(c: Crypto, s: State, setId: U64, target: U32, chain: U32 -> Header, headers: seq<EncodedHeader>,
      d: SimpleJustificationData, round: U64, dummyKey: Bytes32, dummySignature: Signature)
    requires !s.frozen && Lookup(s.headerHashes, s.latestBlock) != ZERO32
    requires Lookup(s.authorityHashes, setId) != ZERO32 && s.latestAuthoritySetId <= setId
    requires HonestRange(c, s, setId, target, chain, headers, d, round)
    ensures var w := HeaderRangeWitness(headers, PaddedJustification(d, dummyKey, dummySignature));
            var outcome := CommitHeaderRange(c, s, setId, target, w);
            && (outcome.Done? <==> RangeIsRepresentable(s.circuitDepth, s.latestBlock, target) && 3 * d.votingWeight > 2 * d.numAuthorities)
            && (outcome.Done? ==>
                  var out := RangeOutput(c, s.circuitDepth, chain, s.latestBlock, target);
                  && Lookup(outcome.state.headerHashes, target) == c.blake2b(Encode(chain(target)))
                  && Lookup(outcome.state.dataRoots, (s.latestBlock, target)) == out.dataRoot
                  && Lookup(outcome.state.stateRoots, (s.latestBlock, target)) == out.stateRoot
                  && outcome.state.latestBlock == target
                  && forall i :: 0 <= i < Pow2(s.circuitDepth) ==>
                       Climbs(c.sha256, s.circuitDepth, i, LeafOrZero(StatesAfter(chain, s.latestBlock, target), i), out.stateRoot)
                       && Climbs(c.sha256, s.circuitDepth, i, LeafOrZero(DatasAfter(chain, s.latestBlock, target), i), out.dataRoot))
  {
    hide Encode, SubchainOf, Justifies, ChainHash, PaddedRoot, PaddedJustification, HonestChain, IsHint, EncodePrecommit, Reads, Climbs;
    var p := Precommit(c.blake2b(Encode(chain(target))), target, round, setId);
    SubchainComplete(c, s.circuitDepth, chain, s.latestBlock, Lookup(s.headerHashes, s.latestBlock), target, headers);
    HonestJustification(c, d, p, dummyKey, dummySignature);
    PaddedRootClimbs(c.sha256, s.circuitDepth, StatesAfter(chain, s.latestBlock, target));
    PaddedRootClimbs(c.sha256, s.circuitDepth, DatasAfter(chain, s.latestBlock, target));
  }

  /** The operator's requests meet the contract: for the latest block and the tree size of the contract, an honest
      proof for an admissible request commits exactly when strictly more than two thirds of the set have signed. */
  lemma AdmissibleRequestCommits(c: Crypto, s: State, snapshot: Operator.Snapshot, dummy: bool, setId: U64, target: U32,
      chain: U32 -> Header, headers: seq<EncodedHeader>, d: SimpleJustificationData, round: U64,
      dummyKey: Bytes32, dummySignature: Signature)
    requires !s.frozen && Lookup(s.headerHashes, s.latestBlock) != ZERO32
    requires Lookup(s.authorityHashes, setId) != ZERO32 && s.latestAuthoritySetId <= setId
    requires s.treeSize == Pow2(s.circuitDepth)
    requires Operator.Admissible(snapshot, s.treeSize, s.latestBlock, dummy, setId, target)
    requires HonestHint(c, s, setId, target, chain, headers, d, round)
    ensures var outcome := CommitHeaderRange(c, s, setId, target,
                             HeaderRangeWitness(headers, PaddedJustification(d, dummyKey, dummySignature)));
            && (outcome.Done? <==> 3 * d.votingWeight > 2 * d.numAuthorities)
            && (outcome.Done? ==> outcome.state.latestBlock == target
                                  && Lookup(outcome.state.headerHashes, target) == c.blake2b(Encode(chain(target))))
  {
    hide HonestHint, CommitHeaderRange, Encode, PaddedJustification;
    assert Consistent(d) && |headers| == Pow2(s.circuitDepth) by {
      HonestHintShape(c, s, setId, target, chain, headers, d, round);
    }
    HonestCommitSucceeds(c, s, setId, target, chain, headers, d, round, dummyKey, dummySignature);
  }

  lemma HonestHintShape(c: Crypto, s: State, setId: U64, target: U32, chain: U32 -> Header, headers: seq<EncodedHeader>,
      d: SimpleJustificationData, round: U64)
    requires HonestHint(c, s, setId, target, chain, headers, d, round)
    ensures Consistent(d) && |headers| == Pow2(s.circuitDepth)
  {
  }

  /** On an unfrozen contract that knows the set and not yet the next one, an honest rotation is accepted exactly for
      fewer than 64 logs and when the largest subarray fits; what is stored is the hash of the chain's new set. */
  lemma HonestRotationSucceeds(c: Crypto, s: State, setId: U64, h: Header, authorities: seq<Bytes32>, d: HeaderRotateData,
      j: HintedJustification)
    requires !s.frozen && Stored(s.authorityHashes, setId) && setId + 1 < TWO_64 && !Stored(s.authorityHashes, setId + 1)
    requires |Encode(h)| <= MAX_HEADER_SIZE && IsEpochEnd(c.sha256, h, authorities, d)
    requires Justifies(c, h.number, c.blake2b(Encode(h)), setId, s.authorityHashes[setId], j)
    ensures |d.paddedPubkeys| == MAX_AUTHORITY_SET_SIZE
    ensures var w := RotateWitness(h.number, d.header, d.numAuthorities, d.startPosition, d.paddedPubkeys, j);
            var outcome := RotateSet(c, s, setId, w);
            && (outcome.Done? <==>
                  |h.logs| < 64 && d.endPosition + (MAX_AUTHORITY_SET_SIZE - |authorities|) * VALIDATOR_LENGTH <= MAX_HEADER_SIZE)
            && (outcome.Done? ==>
                  && outcome.state.authorityHashes == s.authorityHashes[setId + 1 := d.newAuthoritySetHash]
                  && authorities != [] && ChainsTo(c.sha256, authorities, d.newAuthoritySetHash))
  {
    hide RotateSet, RotateOf, Justifies, Encode, IsEpochEnd, ChainsTo;
    RotationComplete(c, setId, s.authorityHashes[setId], h, authorities, d, j);
    RotateIff(c, s, setId, RotateWitness(h.number, d.header, d.numAuthorities, d.startPosition, d.paddedPubkeys, j));
    HostHash(c.sha256, h, authorities, d);
  }

  lemma HostHash(sha256: Hasher, h: Header, authorities: seq<Bytes32>, d: HeaderRotateData)
    requires IsEpochEnd(sha256, h, authorities, d)
    ensures authorities != [] && ChainsTo(sha256, authorities, d.newAuthoritySetHash)
  {
    hide ChainHash, ChainsTo, Encode, PadHeader, ChangeLog;
    ChainsToIff(sha256, authorities, d.newAuthoritySetHash);
  }
}
