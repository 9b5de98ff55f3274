/** The planner that splits a range of blocks for `updateBlockRangeData`, and the contract's checks on it. */
module FillBlockRange {
  import opened Bytes
  import opened Headers
  import opened Merkle
  import opened Subchain
  import opened SubchainTheorems
  import opened Contract

  /** The blocks (start, end] of a chain. */
  function BlocksBetween(chain: U32 -> BlockHeader, start: U32, end: U32): (bs: seq<BlockHeader>)
    requires start <= end
    ensures |bs| == end - start
  {
    seq(end - start, i requires 0 <= i < end - start => chain(start + 1 + i))
  }

  /** Range `i` of the data is not longer than the tree and carries the chain's hash and commitments. */
  ghost predicate RangeIsChains(sha256: Hasher, chain: U32 -> BlockHeader, treeSize: U32, d: RangeData, i: nat)
    requires SameLengths(d) && i < |d.startBlocks|
  {
    && d.startBlocks[i] < d.endBlocks[i] && d.endBlocks[i] - d.startBlocks[i] <= treeSize <= NextPow2(treeSize)
    && d.headerHashes[i] == chain(d.endBlocks[i]).hash
    && var bs := BlocksBetween(chain, d.startBlocks[i], d.endBlocks[i]);
       (d.stateRoots[i] == PaddedRoot(sha256, Depth(treeSize), StateRoots(bs))
        && d.dataRoots[i] == PaddedRoot(sha256, Depth(treeSize), DataRoots(bs)))
  }

  /** The plan covers (start, end] without gaps, in ranges of the tree size but for the last. */
  ghost predicate Plan(sha256: Hasher, chain: U32 -> BlockHeader, treeSize: U32, start: U32, end: U32, d: RangeData) {
    && SameLengths(d) && Adjacent(d)
    && d.startBlocks[0] == start && d.endBlocks[|d.endBlocks| - 1] == end
    && (forall i :: 0 <= i < |d.startBlocks| - 1 ==> d.endBlocks[i] == d.startBlocks[i] + treeSize)
    && forall i :: 0 <= i < |d.startBlocks| ==> RangeIsChains(sha256, chain, treeSize, d, i)
  }

  /** The start of the last range: as many whole steps as stay before the end. */
  function LastStart(treeSize: U32, start: nat, end: nat): nat
    requires treeSize > 0 && start < end
  {
    start + (end - start - 1) / treeSize * treeSize
  }

  /** The last start is one step of a range away from the end, and is the same from one step later on. */
  lemma LastStartSteps(treeSize: U32, start: nat, end: nat)
    requires treeSize > 0 && start < end
    ensures start <= LastStart(treeSize, start, end) < end <= LastStart(treeSize, start, end) + treeSize
    ensures start + treeSize < end ==> LastStart(treeSize, start + treeSize, end) == LastStart(treeSize, start, end)
    ensures end <= start + treeSize ==> LastStart(treeSize, start, end) == start
  {
    var x := end - start - 1;
    DivMod(x, treeSize);
    if x >= treeSize {
      DivMod(x - treeSize, treeSize);
      SameQuotient(treeSize, (x - treeSize) / treeSize + 1, (x - treeSize) % treeSize, x / treeSize, x % treeSize);
    }
  }

  lemma SameQuotient(t: nat, q: nat, r: nat, p: nat, s: nat)
    requires t > 0 && r < t && s < t && q * t + r == p * t + s
    ensures q == p
  {
    TimesGrows(t, q, p);
    TimesGrows(t, p, q);
  }

  /** The stepped loop that pushes onto five vectors in lockstep. None stands for the source's panics: a
      step of 0, a tree size that is no power of two, and an overflow of the end of a range. */
  method GetBlockRangeData(sha256: Hasher, chain: U32 -> BlockHeader, treeSize: U32, start: U32, end: U32,
      endSetId: U64, endSetHash: Bytes32) returns (r: Option<RangeData>)
    ensures treeSize == 0 ==> r.None?
    ensures treeSize > 0 && end <= start ==> r == Some(RangeData([], [], [], [], [], endSetId, endSetHash))
    ensures start < end && r.Some? ==> Plan(sha256, chain, treeSize, start, end, r.value)
                                       && r.value.endSetId == endSetId && r.value.endSetHash == endSetHash
    ensures treeSize > 0 && start < end ==>
      (r.Some? <==> IsPow2(treeSize) && LastStart(treeSize, start, end) + treeSize < TWO_32)
  {
    hide Depth, PaddedRoot, LastStart;
    if treeSize == 0 {
      return None;
    }
    var d := RangeData([], [], [], [], [], endSetId, endSetHash);
    var i: int := start;
    while i < end
      invariant start <= i
      invariant i == start <==> d.startBlocks == []
      invariant i < end ==> LastStart(treeSize, i, end) == LastStart(treeSize, start, end)
      invariant i >= end && start < end ==> LastStart(treeSize, start, end) + treeSize < TWO_32
      invariant d.startBlocks == [] ==> d == RangeData([], [], [], [], [], endSetId, endSetHash)
      invariant d.startBlocks != [] ==> IsPow2(treeSize) && start < end && Plan(sha256, chain, treeSize, start, Min(i, end), d)
      invariant d.startBlocks != [] ==> d.startBlocks[|d.startBlocks| - 1] + treeSize == i
      invariant d.endSetId == endSetId && d.endSetHash == endSetHash
      decreases end - i
    {
      LastStartSteps(treeSize, i, end);
      if i + treeSize >= TWO_32 {
        return None;
      }
      var rangeEnd: U32 := Min(i + treeSize, end);
      var bs := BlocksBetween(chain, i, rangeEnd);
      var stateRoot := GetMerkleRootCommitment(sha256, treeSize, StateRoots(bs));
      var dataRoot := GetMerkleRootCommitment(sha256, treeSize, DataRoots(bs));
      if stateRoot.None? || dataRoot.None? {
        return None;
      }
      ghost var before := d;
      d := RangeData(d.startBlocks + [i], d.endBlocks + [rangeEnd], d.headerHashes + [chain(rangeEnd).hash],
                     d.dataRoots + [dataRoot.value], d.stateRoots + [stateRoot.value], endSetId, endSetHash);
      PlanGrows(sha256, chain, treeSize, start, i, rangeEnd, before, d);
      i := i + treeSize;
    }
    r := Some(d);
  }

  lemma PlanGrows(sha256: Hasher, chain: U32 -> BlockHeader, treeSize: U32, start: U32, i: U32, rangeEnd: U32,
      before: RangeData, d: RangeData)
    requires i < rangeEnd && rangeEnd - i <= treeSize && IsPow2(treeSize)
    requires if before.startBlocks == [] then i == start && before.endBlocks == [] && before.headerHashes == []
                                              && before.dataRoots == [] && before.stateRoots == []
             else Plan(sha256, chain, treeSize, start, i, before)
                  && before.startBlocks[|before.startBlocks| - 1] + treeSize == i
    requires d == RangeData(before.startBlocks + [i], before.endBlocks + [rangeEnd], before.headerHashes + [chain(rangeEnd).hash],
                            before.dataRoots + [PaddedRoot(sha256, Depth(treeSize), DataRoots(BlocksBetween(chain, i, rangeEnd)))],
                            before.stateRoots + [PaddedRoot(sha256, Depth(treeSize), StateRoots(BlocksBetween(chain, i, rangeEnd)))],
                            d.endSetId, d.endSetHash)
    ensures Plan(sha256, chain, treeSize, start, rangeEnd, d)
  {
    hide RangeIsChains, PaddedRoot, BlocksBetween, StateRoots, DataRoots, IsPow2;
    forall k | 0 <= k < |d.startBlocks| ensures RangeIsChains(sha256, chain, treeSize, d, k) {
      if k < |before.startBlocks| {
        SameRange(sha256, chain, treeSize, before, d, k);
      } else {
        LastRange(sha256, chain, treeSize, i, rangeEnd, d);
      }
    }
  }

  lemma SameRange(sha256: Hasher, chain: U32 -> BlockHeader, treeSize: U32, before: RangeData, d: RangeData, k: nat)
    requires SameLengths(before) && k < |before.startBlocks| && RangeIsChains(sha256, chain, treeSize, before, k)
    requires SameLengths(d) && k < |d.startBlocks|
    requires d.startBlocks[k] == before.startBlocks[k] && d.endBlocks[k] == before.endBlocks[k]
    requires d.headerHashes[k] == before.headerHashes[k]
    requires d.stateRoots[k] == before.stateRoots[k] && d.dataRoots[k] == before.dataRoots[k]
    ensures RangeIsChains(sha256, chain, treeSize, d, k)
  {
    hide PaddedRoot;
  }

  lemma LastRange(sha256: Hasher, chain: U32 -> BlockHeader, treeSize: U32, i: U32, rangeEnd: U32, d: RangeData)
    requires SameLengths(d) && IsPow2(treeSize) && i < rangeEnd && rangeEnd - i <= treeSize
    requires var last := |d.startBlocks| - 1;
             && d.startBlocks[last] == i && d.endBlocks[last] == rangeEnd && d.headerHashes[last] == chain(rangeEnd).hash
             && d.stateRoots[last] == PaddedRoot(sha256, Depth(treeSize), StateRoots(BlocksBetween(chain, i, rangeEnd)))
             && d.dataRoots[last] == PaddedRoot(sha256, Depth(treeSize), DataRoots(BlocksBetween(chain, i, rangeEnd)))
    ensures RangeIsChains(sha256, chain, treeSize, d, |d.startBlocks| - 1)
  {
    hide PaddedRoot, BlocksBetween;
  }

  lemma RangeFields(chain: U32 -> BlockHeader, start: U32, end: U32, states: seq<Bytes32>, datas: seq<Bytes32>)
    requires start + |states| == start + |datas| == end
    requires forall k :: 0 <= k < |states| ==> states[k] == chain(start + 1 + k).stateRoot && datas[k] == chain(start + 1 + k).dataRoot
    ensures StateRoots(BlocksBetween(chain, start, end)) == states && DataRoots(BlocksBetween(chain, start, end)) == datas
  {
  }

  /** What a plan holds for range `i`, spelled out: where it starts and ends, and that every slot of its two trees
      climbs to the commitments - the chain's fields, zeros behind them. */
  lemma PlanMeans(sha256: Hasher, chain: U32 -> BlockHeader, treeSize: U32, start: U32, end: U32, d: RangeData, i: nat,
      states: seq<Bytes32>, datas: seq<Bytes32>)
    requires Plan(sha256, chain, treeSize, start, end, d) && i < |d.startBlocks|
    requires d.startBlocks[i] + |states| == d.startBlocks[i] + |datas| == d.endBlocks[i]
    requires forall k :: 0 <= k < |states| ==> states[k] == chain(d.startBlocks[i] + 1 + k).stateRoot
                                               && datas[k] == chain(d.startBlocks[i] + 1 + k).dataRoot
    ensures d.startBlocks[i] == start + i * treeSize
    ensures d.endBlocks[i] == Min(start + (i + 1) * treeSize, end) && d.headerHashes[i] == chain(d.endBlocks[i]).hash
    ensures forall k :: 0 <= k < Pow2(Depth(treeSize)) ==>
              Climbs(sha256, Depth(treeSize), k, LeafOrZero(states, k), d.stateRoots[i])
              && Climbs(sha256, Depth(treeSize), k, LeafOrZero(datas, k), d.dataRoots[i])
  {
    hide Depth, PaddedRoot, Climbs;
    PlanStarts(sha256, chain, treeSize, start, end, d, i);
    assert RangeIsChains(sha256, chain, treeSize, d, i);
    RangeFields(chain, d.startBlocks[i], d.endBlocks[i], states, datas);
    PaddedRootClimbs(sha256, Depth(treeSize), states);
    PaddedRootClimbs(sha256, Depth(treeSize), datas);
  }

  lemma {:induction false} PlanStarts(sha256: Hasher, chain: U32 -> BlockHeader, treeSize: U32, start: U32, end: U32, d: RangeData, i: nat)
    requires Plan(sha256, chain, treeSize, start, end, d) && i < |d.startBlocks|
    ensures d.startBlocks[i] == start + i * treeSize && d.endBlocks[i] == Min(start + (i + 1) * treeSize, end)
  {
    hide RangeIsChains;
    if i > 0 {
      PlanStarts(sha256, chain, treeSize, start, end, d, i - 1);
      assert d.endBlocks[i - 1] == d.startBlocks[i - 1 + 1];
    }
    assert (i + 1) * treeSize == i * treeSize + treeSize;
    RangeBounds(sha256, chain, treeSize, d, i);
    if i < |d.startBlocks| - 1 {
      PlanEndsRise(sha256, chain, treeSize, start, end, d, i, |d.startBlocks| - 1);
    }
  }

  lemma RangeBounds(sha256: Hasher, chain: U32 -> BlockHeader, treeSize: U32, d: RangeData, i: nat)
    requires SameLengths(d) && i < |d.startBlocks| && RangeIsChains(sha256, chain, treeSize, d, i)
    ensures d.startBlocks[i] < d.endBlocks[i] <= d.startBlocks[i] + treeSize
  {
  }

  /** What the contract has stored for a range. */
  predicate StoredAs(s: State, start: U32, end: U32, endHash: Bytes32, dataRoot: Bytes32, stateRoot: Bytes32) {
    var key := (start, end);
    && key in s.dataRoots && s.dataRoots[key] == dataRoot
    && key in s.stateRoots && s.stateRoots[key] == stateRoot
    && key in s.rangeStarts && s.rangeStarts[key] == start
    && end in s.headerHashes && s.headerHashes[end] == endHash
  }

  /** Ranges that follow each other do not overwrite each other. */
  lemma {:induction false} StoredInOrder(s: State, d: RangeData, k: nat, i: nat)
    requires SameLengths(d) && i < k <= |d.startBlocks|
    requires forall a, b :: 0 <= a < b < |d.startBlocks| ==> d.endBlocks[a] < d.endBlocks[b]
    ensures StoredAs(StoreRanges(s, d, k), d.startBlocks[i], d.endBlocks[i], d.headerHashes[i], d.dataRoots[i], d.stateRoots[i])
  {
    if i < k - 1 {
      StoredInOrder(s, d, k - 1, i);
      assert d.endBlocks[i] < d.endBlocks[k - 1];
    }
  }

  lemma {:induction false} PlanEndsRise(sha256: Hasher, chain: U32 -> BlockHeader, treeSize: U32, start: U32, end: U32, d: RangeData, a: nat, b: nat)
    requires Plan(sha256, chain, treeSize, start, end, d) && a < b < |d.startBlocks|
    ensures d.endBlocks[a] < d.endBlocks[b]
  {
    hide Depth, PaddedRoot;
    assert RangeIsChains(sha256, chain, treeSize, d, b) && d.endBlocks[b - 1] == d.startBlocks[b - 1 + 1];
    if a < b - 1 {
      PlanEndsRise(sha256, chain, treeSize, start, end, d, a, b - 1);
    }
  }

  /** A plan from the contract's latest block passes all of the contract's checks; afterwards its latest
      block is the plan's end, and every range of the plan is stored with its hash and commitments. */
  lemma PlannerMeetsContract(sha256: Hasher, chain: U32 -> BlockHeader, treeSize: U32, s: State, end: U32, d: RangeData)
    requires Plan(sha256, chain, treeSize, s.latestBlock, end, d)
    ensures var outcome := UpdateBlockRangeData(s, d);
            && Ascending(d) && outcome.Done? && outcome.state.latestBlock == end
            && outcome.state.latestAuthoritySetId == d.endSetId
            && Lookup(outcome.state.authorityHashes, d.endSetId) == d.endSetHash
            && forall i :: 0 <= i < |d.startBlocks| ==>
                 StoredAs(outcome.state, d.startBlocks[i], d.endBlocks[i], d.headerHashes[i], d.dataRoots[i], d.stateRoots[i])
  {
    hide RangeIsChains;
    forall i | 0 <= i < |d.startBlocks| ensures d.startBlocks[i] < d.endBlocks[i] {
      RangeBounds(sha256, chain, treeSize, d, i);
    }
    forall a, b | 0 <= a < b < |d.startBlocks| ensures d.endBlocks[a] < d.endBlocks[b] {
      PlanEndsRise(sha256, chain, treeSize, s.latestBlock, end, d, a, b);
    }
    forall i | 0 <= i < |d.startBlocks|
      ensures StoredAs(UpdateBlockRangeData(s, d).state, d.startBlocks[i], d.endBlocks[i], d.headerHashes[i], d.dataRoots[i], d.stateRoots[i])
    {
      StoredInOrder(s, d, |d.startBlocks|, i);
    }
  }

  /** What the host commits to for a range is what an accepted circuit run outputs for it, when the tree
      size is the circuit's. */
  lemma HostAgreesWithCircuit(c: Crypto, depth: CircuitDepth, trusted: U32, trustedHash: Bytes32, target: U32, rs: seq<Reading>,
      chain: U32 -> BlockHeader, states: seq<Bytes32>, datas: seq<Bytes32>)
    requires |rs| == Pow2(depth) && trusted < target && SubchainOf(c, depth, trusted, trustedHash, target, rs).Some?
    requires forall i :: 0 <= i < |rs| && i < target - trusted ==> rs[i] == Some(chain(trusted + 1 + i))
    requires |states| == |datas| == target - trusted
    requires forall k :: 0 <= k < |states| ==> states[k] == chain(trusted + 1 + k).stateRoot && datas[k] == chain(trusted + 1 + k).dataRoot
    ensures IsPow2(Pow2(depth)) && target - trusted <= Pow2(depth)
    ensures var out := SubchainOf(c, depth, trusted, trustedHash, target, rs).value;
            && out.targetHeaderHash == chain(target).hash
            && out.stateRoot == PaddedRoot(c.sha256, Depth(Pow2(depth)), states)
            && out.dataRoot == PaddedRoot(c.sha256, Depth(Pow2(depth)), datas)
  {
    hide SubchainOf, PaddedRoot, Depth, ChainFrom;
    DepthLeast(Pow2(depth), depth);
    SubchainExact(c, depth, trusted, trustedHash, target, rs, SubchainOf(c, depth, trusted, trustedHash, target, rs).value);
    var n := target - trusted;
    assert Blocks(rs)[..n] == BlocksBetween(chain, trusted, target);
    assert Blocks(rs)[n - 1] == chain(trusted + 1 + (n - 1));
    RangeFields(chain, trusted, target, states, datas);
  }
}
