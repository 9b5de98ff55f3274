/** What an accepted subchain means: soundness for every hint, completeness for the honest hint, and
    binding of the headers by the target hash. */
module SubchainTheorems {
  import opened Scale
  import opened Bytes
  import opened Headers
  import opened Merkle
  import opened Subchain

  /** The depth of the tree over all headers: the number of batches is rounded up to a power of two. */
  function TreeDepth(maxNumHeaders: nat): (d: nat)
    ensures d >= BATCH_DEPTH
  {
    BATCH_DEPTH + Depth(NumBatches(maxNumHeaders))
  }

  function NumBatches(maxNumHeaders: nat): nat {
    maxNumHeaders / HEADERS_PER_MAP
  }

  /** `(MAX_NUM_HEADERS / HEADERS_PER_MAP).next_power_of_two()`. */
  function NumMapJobs(maxNumHeaders: nat): nat {
    NextPow2(NumBatches(maxNumHeaders))
  }

  /** The tree has one leaf for each header of each map job, and is the smallest one of whole batches in which
      the whole batches fit. */
  lemma TreeHoldsJobs(maxNumHeaders: nat)
    ensures Pow2(TreeDepth(maxNumHeaders)) == HEADERS_PER_MAP * NumMapJobs(maxNumHeaders)
    ensures NumBatches(maxNumHeaders) <= NumMapJobs(maxNumHeaders)
    ensures NumMapJobs(maxNumHeaders) > 1 ==> NumMapJobs(maxNumHeaders) < 2 * NumBatches(maxNumHeaders)
  {
    var k := Depth(NumBatches(maxNumHeaders));
    if k > 0 && NumBatches(maxNumHeaders) <= Pow2(k - 1) {
      DepthLeast(NumBatches(maxNumHeaders), k - 1);
    }
    assert Pow2(k + 1) == 2 * Pow2(k);
    assert Pow2(k + 2) == 2 * Pow2(k + 1);
    assert Pow2(k + 3) == 2 * Pow2(k + 2);
  }

  lemma BatchesOfPow2(k: nat)
    ensures NumBatches(Pow2(BATCH_DEPTH + k)) == Pow2(k)
  {
    assert Pow2(k + 1) == 2 * Pow2(k);
    assert Pow2(k + 2) == 2 * Pow2(k + 1);
    assert Pow2(k + 3) == 2 * Pow2(k + 2);
  }

  /** A circuit for a power of two of headers, at least a batch, has exactly that many leaves. */
  lemma TreeDepthOfPow2(k: nat)
    ensures TreeDepth(Pow2(BATCH_DEPTH + k)) == BATCH_DEPTH + k
  {
    hide Depth, NumBatches, Pow2;
    BatchesOfPow2(k);
    DepthLeast(Pow2(k), k);
  }

  /** The circuit for a tree of 2^depth headers: fold, then tie the result to the trusted header and to
      the target block. None means that some assertion fails. */
  function SubchainOf(c: Crypto, depth: nat, trusted: U32, trustedHash: Bytes32, target: U32, rs: seq<Reading>)
      : Option<SubchainOutput>
    requires BATCH_DEPTH <= depth && |rs| == Pow2(depth) < TWO_32
  {
    var root := MapReduce(c, Context(trusted, target), 1, depth, rs);
    if root.Some? && root.value.startParent == trustedHash && root.value.endBlock == target
    then Some(SubchainOutput(root.value.endHeaderHash, root.value.stateRoot, root.value.dataRoot))
    else None
  }

  /** The circuit built for `maxNumHeaders` headers, run on the hinted headers of all its map jobs. */
  method VerifySubchain(c: Crypto, maxNumHeaders: nat, trusted: U32, trustedHash: Bytes32, target: U32,
      headers: seq<EncodedHeader>) returns (r: Option<SubchainOutput>)
    requires |headers| == HEADERS_PER_MAP * NumMapJobs(maxNumHeaders) < TWO_32
    ensures |headers| == Pow2(TreeDepth(maxNumHeaders))
    ensures r == SubchainOf(c, TreeDepth(maxNumHeaders), trusted, trustedHash, target, Reads(c.blake2b, headers))
  {
    TreeHoldsJobs(maxNumHeaders);
    var root := RunMapReduce(c, Context(trusted, target), 1, TreeDepth(maxNumHeaders), headers);
    if root.None? || root.value.startParent != trustedHash || root.value.endBlock != target {
      return None;
    }
    return Some(SubchainOutput(root.value.endHeaderHash, root.value.stateRoot, root.value.dataRoot));
  }

  // ----- soundness -----

  /** Linked headers with the right first block are a chain, and the other way around. */
  lemma LinkedIsChain(bs: seq<BlockHeader>, n: nat, parent: Bytes32, height: U32)
    requires 0 < n <= |bs| && height + n < TWO_32
    ensures ChainFrom(parent, height, bs[..n]) <==>
            bs[0].number == height + 1 && bs[0].parent == parent && Linked(bs, n)
  {
    var range := bs[..n];
    assert range[0] == bs[0];
    if bs[0].number == height + 1 && bs[0].parent == parent && Linked(bs, n) {
      NumbersFromLinks(bs, n, height + 1);
      forall i | 0 <= i < n ensures ChainAt(parent, height, range, i) {
        if i > 0 { assert LinkedPair(bs[i - 1], bs[i]); }
      }
      assert ChainFrom(parent, height, range);
    }
    if ChainFrom(parent, height, range) {
      assert ChainAt(parent, height, range, 0);
      forall i | 1 <= i < n ensures LinkedPair(bs[i - 1], bs[i]) {
        assert ChainAt(parent, height, range, i) && ChainAt(parent, height, range, i - 1);
      }
    }
  }

  /** The headers among the hinted ones that make up the range, and what they commit to. */
  ghost predicate IsRange(c: Crypto, depth: nat, trusted: U32, trustedHash: Bytes32, target: U32, rs: seq<Reading>,
      out: SubchainOutput)
    requires trusted < target
  {
    var n := target - trusted;
    && AllRead(rs) && n <= |rs| && n <= Pow2(depth)
    && ChainFrom(trustedHash, trusted, Blocks(rs)[..n])
    && out.targetHeaderHash == Blocks(rs)[n - 1].hash
    && out.stateRoot == PaddedRoot(c.sha256, depth, StateRoots(Blocks(rs)[..n]))
    && out.dataRoot == PaddedRoot(c.sha256, depth, DataRoots(Blocks(rs)[..n]))
  }

  /** When every batch starts at a representable block number, acceptance is exactly being a range. */
  lemma AcceptedWithoutWrap(c: Crypto, depth: nat, trusted: U32, trustedHash: Bytes32, target: U32, rs: seq<Reading>,
      out: SubchainOutput)
    requires BATCH_DEPTH <= depth && |rs| == Pow2(depth) < TWO_32
    requires trusted < target && trusted + Pow2(depth) - 7 < TWO_32
    ensures SubchainOf(c, depth, trusted, trustedHash, target, rs) == Some(out)
            <==> IsRange(c, depth, trusted, trustedHash, target, rs, out)
  {
    hide Root, Reduce;
    MapReduceIsFlat(c, Context(trusted, target), 1, depth, rs);
    if AllRead(rs) {
      var bs := Blocks(rs);
      var n := ActiveCount(trusted + 1, target, |rs|);
      LinkedIsChain(bs, n, trustedHash, trusted);
      if ActiveOk(bs, trusted + 1, n) {
        NumbersFromLinks(bs, n, trusted + 1);
      }
      if n == target - trusted {
        assert bs[..n][0] == bs[0];
      }
    }
  }

  /** If the last batch starts past the largest block number, it looks enabled, and the fold ends with
      its wrapped end block. */
  lemma {:induction false} WrappedBatchWins(c: Crypto, ctx: Context, first: U32, depth: nat, rs: seq<Reading>)
    requires BATCH_DEPTH <= depth && |rs| == Pow2(depth) && first + |rs| <= TWO_32
    requires ctx.globalStart + first + |rs| - HEADERS_PER_MAP >= TWO_32
    requires ctx.globalStart < ctx.globalEnd
    ensures var node := MapReduce(c, ctx, first, depth, rs);
            node.Some? ==> node.value.numBlocks > 0
                           && node.value.endBlock == ctx.globalStart + first + |rs| - 1 - TWO_32
    decreases depth
  {
    hide Root;
    BatchDepth();
    Pow2AtLeast(depth);
    var node := MapReduce(c, ctx, first, depth, rs);
    if node.Some? {
      if depth > BATCH_DEPTH {
        Pow2AtLeast(depth - 1);
        var width := Pow2(depth - 1);
        WrappedBatchWins(c, ctx, first + width, depth - 1, rs[width..]);
      } else {
        var start := ctx.globalStart + first - TWO_32;
        NumbersFromLinks(Blocks(rs), HEADERS_PER_MAP, start);
      }
    }
  }

  /** Acceptance, for every hint and with no condition on the size of the numbers: the first
      target - trusted headers are a chain from the trusted header to the returned target hash, they
      fit in the tree, and the roots are the zero-padded roots of exactly their fields. The circuit
      rejects everything once a batch would start past the largest block number. */
  lemma SubchainExact(c: Crypto, depth: nat, trusted: U32, trustedHash: Bytes32, target: U32, rs: seq<Reading>,
      out: SubchainOutput)
    requires BATCH_DEPTH <= depth && |rs| == Pow2(depth) < TWO_32
    requires trusted < target
    ensures SubchainOf(c, depth, trusted, trustedHash, target, rs) == Some(out)
            <==> trusted + Pow2(depth) - 7 < TWO_32 && IsRange(c, depth, trusted, trustedHash, target, rs, out)
  {
    if trusted + Pow2(depth) - 7 < TWO_32 {
      AcceptedWithoutWrap(c, depth, trusted, trustedHash, target, rs, out);
    } else {
      WrappedBatchWins(c, Context(trusted, target), 1, depth, rs);
    }
  }

  /** The leaves that the circuit commits to, by the fields of the readings. */
  predicate AreLeaves(rs: seq<Reading>, states: seq<Bytes32>, datas: seq<Bytes32>) {
    |states| == |datas|
    && forall k :: 0 <= k < |states| && k < |rs| && rs[k].Some? ==>
         states[k] == rs[k].value.stateRoot && datas[k] == rs[k].value.dataRoot
  }

  /** The same, spelled out over the readings: which of them are looked at, how they are numbered and linked,
      and over which leaves, in which order, the two roots are. */
  lemma SubchainMeans(c: Crypto, depth: nat, trusted: U32, trustedHash: Bytes32, target: U32, rs: seq<Reading>,
      states: seq<Bytes32>, datas: seq<Bytes32>, out: SubchainOutput)
    requires BATCH_DEPTH <= depth && |rs| == Pow2(depth) < TWO_32
    requires trusted < target && |states| == target - trusted && AreLeaves(rs, states, datas)
    ensures SubchainOf(c, depth, trusted, trustedHash, target, rs) == Some(out) <==>
            var n := target - trusted;
            && trusted + Pow2(depth) - 7 < TWO_32 && n <= Pow2(depth)
            && (forall k :: 0 <= k < |rs| ==> rs[k].Some?)
            && (forall k {:trigger rs[k]} :: 0 <= k < n ==>
                  rs[k].value.number == trusted + 1 + k
                  && rs[k].value.parent == if k == 0 then trustedHash else rs[k - 1].value.hash)
            && out.targetHeaderHash == rs[n - 1].value.hash
            && out.stateRoot == PaddedRoot(c.sha256, depth, states)
            && out.dataRoot == PaddedRoot(c.sha256, depth, datas)
  {
    hide PaddedRoot, SubchainOf;
    SubchainExact(c, depth, trusted, trustedHash, target, rs, out);
    var n := target - trusted;
    if AllRead(rs) && n <= |rs| {
      assert StateRoots(Blocks(rs)[..n]) == states && DataRoots(Blocks(rs)[..n]) == datas;
      RangeMeans(trustedHash, trusted, rs, n);
    }
  }

  lemma RangeMeans(parent: Bytes32, height: nat, rs: seq<Reading>, n: nat)
    requires AllRead(rs) && n <= |rs|
    ensures ChainFrom(parent, height, Blocks(rs)[..n]) <==>
            forall k {:trigger rs[k]} :: 0 <= k < n ==>
              rs[k].value.number == height + 1 + k
              && rs[k].value.parent == if k == 0 then parent else rs[k - 1].value.hash
  {
    var bs := Blocks(rs)[..n];
    assert forall k :: 0 <= k < n ==> bs[k] == rs[k].value;
    if ChainFrom(parent, height, bs) {
      forall k | 0 <= k < n ensures rs[k].value.number == height + 1 + k
                                    && rs[k].value.parent == if k == 0 then parent else rs[k - 1].value.hash
      {
        assert ChainAt(parent, height, bs, k);
      }
    }
    if forall k {:trigger rs[k]} :: 0 <= k < n ==>
         rs[k].value.number == height + 1 + k
         && rs[k].value.parent == if k == 0 then parent else rs[k - 1].value.hash
    {
      forall k | 0 <= k < n ensures ChainAt(parent, height, bs, k) {
        assert bs[k] == rs[k].value && (k > 0 ==> bs[k - 1] == rs[k - 1].value);
      }
    }
  }

  /** Every slot of the two trees climbs to the circuit's outputs: the fields of the range, zeros behind it. */
  lemma SubchainClimbs(c: Crypto, depth: nat, trusted: U32, trustedHash: Bytes32, target: U32, rs: seq<Reading>,
      states: seq<Bytes32>, datas: seq<Bytes32>)
    requires BATCH_DEPTH <= depth && |rs| == Pow2(depth) < TWO_32
    requires trusted < target && |states| == target - trusted && AreLeaves(rs, states, datas)
    requires SubchainOf(c, depth, trusted, trustedHash, target, rs).Some?
    ensures var out := SubchainOf(c, depth, trusted, trustedHash, target, rs).value;
            forall i :: 0 <= i < Pow2(depth) ==>
              Climbs(c.sha256, depth, i, LeafOrZero(states, i), out.stateRoot)
              && Climbs(c.sha256, depth, i, LeafOrZero(datas, i), out.dataRoot)
  {
    hide Climbs, PaddedRoot, SubchainOf;
    var out := SubchainOf(c, depth, trusted, trustedHash, target, rs).value;
    SubchainMeans(c, depth, trusted, trustedHash, target, rs, states, datas, out);
    PaddedRootClimbs(c.sha256, depth, states);
    PaddedRootClimbs(c.sha256, depth, datas);
  }

  /** Why the contract must demand a later target. For a target that is not later, and no batch that starts
      past the largest block number, the circuit accepts target 0 alone, and then nothing but the first
      header's parent hash is checked. On top of the largest block number every batch starts anew from
      block 0, and a linked range from there on is accepted. */
  lemma TargetNotLater(c: Crypto, depth: nat, trusted: U32, trustedHash: Bytes32, target: U32, rs: seq<Reading>)
    requires BATCH_DEPTH <= depth && |rs| == Pow2(depth) < TWO_32 && target <= trusted
    requires trusted + Pow2(depth) - 7 < TWO_32 || trusted == TWO_32 - 1
    ensures SubchainOf(c, depth, trusted, trustedHash, target, rs).Some?
            <==> AllRead(rs) && Blocks(rs)[0].parent == trustedHash
                 && if trusted < TWO_32 - 1 then target == 0
                    else target < |rs| && Blocks(rs)[0].number == 0 && Linked(Blocks(rs), target + 1)
  {
    hide Root;
    Pow2AtLeast(depth);
    MapReduceIsFlat(c, Context(trusted, target), 1, depth, rs);
    if AllRead(rs) && trusted == TWO_32 - 1 && Blocks(rs)[0].number == 0 && Linked(Blocks(rs), Min(target + 1, |rs|)) {
      NumbersFromLinks(Blocks(rs), Min(target + 1, |rs|), 0);
    }
  }

  // ----- completeness -----

  /** The slot of the hint's output that is `i` past the start of a batch. */
  function HintSlot(chain: U32 -> Header, start: U32, last: U32, i: nat): Option<EncodedHeader>
  {
    if start + i <= last then PadHeader(Encode(chain(start + i))) else Some(EMPTY_HEADER)
  }

  /** The hint fetches the headers of one batch up to the maximal block, pads each to the circuit's
      width, and fills up with empty ones. It fails only on an oversized header. */
  method HeaderRangeFetcher(chain: U32 -> Header, startBlock: U32, endBlock: U32, maxBlock: U32)
      returns (r: Option<seq<EncodedHeader>>)
    requires endBlock == Add32(startBlock, HEADERS_PER_MAP - 1)
    ensures var last := Min(endBlock, maxBlock);
            if forall i :: 0 <= i < HEADERS_PER_MAP ==> HintSlot(chain, startBlock, last, i).Some?
            then r.Some? && |r.value| == HEADERS_PER_MAP
                 && forall i :: 0 <= i < HEADERS_PER_MAP ==> HintSlot(chain, startBlock, last, i) == Some(r.value[i])
            else r.None?
  {
    hide Encode, PadHeader;
    var last := Min(endBlock, maxBlock);
    var count := if last >= startBlock then last - startBlock + 1 else 0;
    var headers := seq(count, i requires 0 <= i < count => chain(startBlock + i));
    var padded: seq<EncodedHeader> := [];
    for i := 0 to |headers|
      invariant |padded| == i
      invariant forall k :: 0 <= k < i ==> HintSlot(chain, startBlock, last, k) == Some(padded[k])
    {
      var p := PadHeader(Encode(headers[i]));
      if p.None? {
        assert HintSlot(chain, startBlock, last, i).None?;
        return None;
      }
      padded := padded + [p.value];
    }
    for i := |headers| to HEADERS_PER_MAP
      invariant |padded| == i
      invariant forall k :: 0 <= k < i ==> HintSlot(chain, startBlock, last, k) == Some(padded[k])
    {
      padded := padded + [EMPTY_HEADER];
    }
    r := Some(padded);
  }

  /** The output of the hint over all batches: batch j gets the blocks from trusted + 8j + 1 on. */
  function HintAt(chain: U32 -> Header, trusted: U32, target: U32, k: nat): Option<EncodedHeader>
    requires k < TWO_32 - 1
  {
    var start := Add32(trusted, HEADERS_PER_MAP * (k / HEADERS_PER_MAP) + 1);
    HintSlot(chain, start, Min(Add32(start, HEADERS_PER_MAP - 1), target), k % HEADERS_PER_MAP)
  }

  ghost predicate IsHint(chain: U32 -> Header, trusted: U32, target: U32, headers: seq<EncodedHeader>)
    requires |headers| < TWO_32
  {
    forall k :: 0 <= k < |headers| ==> HintAt(chain, trusted, target, k) == Some(headers[k])
  }

  /** Block `b` is numbered, linked to the one before and not oversized. */
  predicate HonestBlock(blake2b: Hasher, chain: U32 -> Header, trusted: U32, trustedHash: Bytes32, b: U32)
    requires trusted < b
  {
    && chain(b).number == b && |Encode(chain(b))| <= MAX_HEADER_SIZE
    && chain(b).parentHash == if b == trusted + 1 then trustedHash else blake2b(Encode(chain(b - 1)))
  }

  /** An honest stretch of chain after a trusted block. */
  ghost predicate HonestChain(blake2b: Hasher, chain: U32 -> Header, trusted: U32, trustedHash: Bytes32, target: U32) {
    forall b: U32 :: trusted < b <= target ==> HonestBlock(blake2b, chain, trusted, trustedHash, b)
  }

  /** Reading what the hint supplies. */
  lemma ReadHint(blake2b: Hasher, chain: U32 -> Header, trusted: U32, trustedHash: Bytes32, target: U32, headers: seq<EncodedHeader>, k: nat)
    requires k < |headers| < TWO_32 && trusted < target
    requires HonestChain(blake2b, chain, trusted, trustedHash, target) && IsHint(chain, trusted, target, headers)
    requires trusted + 1 + k - k % 8 < TWO_32
    ensures var start := trusted + 1 + k - k % 8;
            Reads(blake2b, headers)[k]
            == if trusted + 1 + k <= target && trusted + 1 + k <= Add32(start, 7) then Some(View(blake2b, chain(trusted + 1 + k)))
               else Some(BlockHeader(blake2b([]), 0, ZERO32, ZERO32, ZERO32))
  {
    hide Encode, ReadHeader;
    assert HEADERS_PER_MAP * (k / HEADERS_PER_MAP) == k - k % 8;
    assert HintAt(chain, trusted, target, k) == Some(headers[k]);
    if trusted + 1 + k <= target && trusted + 1 + k <= Add32(trusted + 1 + k - k % 8, 7) {
      assert HonestBlock(blake2b, chain, trusted, trustedHash, trusted + 1 + k);
      HeaderRoundTrip(blake2b, chain(trusted + 1 + k));
    } else {
      EmptyHeaderReads(blake2b);
    }
  }

  /** The honest range as the circuit sees it. */
  function Range(blake2b: Hasher, chain: U32 -> Header, trusted: U32, target: U32): (r: seq<BlockHeader>)
    requires trusted < target
    ensures |r| == target - trusted
  {
    seq(target - trusted, i requires 0 <= i < target - trusted => View(blake2b, chain(trusted + 1 + i)))
  }

  /** The state roots of the blocks (trusted, target]. */
  function StatesAfter(chain: U32 -> Header, trusted: U32, target: U32): (r: seq<Bytes32>)
    requires trusted < target
    ensures |r| == target - trusted && forall i :: 0 <= i < |r| ==> r[i] == chain(trusted + 1 + i).stateRoot
  {
    seq<Bytes32>(target - trusted, i requires 0 <= i < target - trusted => chain(trusted + 1 + i).stateRoot)
  }

  /** The data roots of the blocks (trusted, target]. */
  function DatasAfter(chain: U32 -> Header, trusted: U32, target: U32): (r: seq<Bytes32>)
    requires trusted < target
    ensures |r| == target - trusted && forall i :: 0 <= i < |r| ==> r[i] == chain(trusted + 1 + i).dataRoot
  {
    seq<Bytes32>(target - trusted, i requires 0 <= i < target - trusted => chain(trusted + 1 + i).dataRoot)
  }

  function RangeOutput(c: Crypto, depth: nat, chain: U32 -> Header, trusted: U32, target: U32): SubchainOutput
    requires 0 < target - trusted <= Pow2(depth)
  {
    SubchainOutput(
      c.blake2b(Encode(chain(target))),
      PaddedRoot(c.sha256, depth, StatesAfter(chain, trusted, target)),
      PaddedRoot(c.sha256, depth, DatasAfter(chain, trusted, target)))
  }

  lemma RangeLeaves(blake2b: Hasher, chain: U32 -> Header, trusted: U32, target: U32)
    requires trusted < target
    ensures StateRoots(Range(blake2b, chain, trusted, target)) == StatesAfter(chain, trusted, target)
    ensures DataRoots(Range(blake2b, chain, trusted, target)) == DatasAfter(chain, trusted, target)
  {
    hide Encode;
    var range := Range(blake2b, chain, trusted, target);
    forall i | 0 <= i < |range|
      ensures StateRoots(range)[i] == StatesAfter(chain, trusted, target)[i]
      ensures DataRoots(range)[i] == DatasAfter(chain, trusted, target)[i]
    {
      assert range[i] == View(blake2b, chain(trusted + 1 + i));
    }
  }

  /** No batch up to the target's runs past the largest block number. */
  predicate RangeIsRepresentable(depth: nat, trusted: U32, target: U32) {
    trusted + Pow2(depth) < TWO_32
    || (trusted + Pow2(depth) - 7 < TWO_32 && target < trusted + Pow2(depth) - 7)
  }

  /** No slot's batch starts past the largest block number, and no slot of the range lies behind the end
      block that its batch computes. */
  lemma SlotInRange(depth: nat, trusted: U32, target: U32, k: nat)
    requires BATCH_DEPTH <= depth && k < Pow2(depth) && RangeIsRepresentable(depth, trusted, target)
    ensures trusted + 1 + k - k % 8 < TWO_32
    ensures trusted + 1 + k <= target ==> trusted + 1 + k <= Add32(trusted + 1 + k - k % 8, 7)
  {
    hide Pow2;
    Pow2Divisible(depth);
    var p, q := Pow2(depth) / 8, k / 8;
    assert Pow2(depth) == 8 * p && k - k % 8 == 8 * q && q < p;
    assert q == p - 1 || 8 * q + 7 <= 8 * p - 9;
  }

  /** The hinted headers start with the honest range, and all can be read. */
  lemma HintReads(c: Crypto, depth: nat, chain: U32 -> Header, trusted: U32, trustedHash: Bytes32, target: U32,
      headers: seq<EncodedHeader>)
    requires BATCH_DEPTH <= depth && |headers| == Pow2(depth) < TWO_32
    requires 0 < target - trusted <= Pow2(depth) && RangeIsRepresentable(depth, trusted, target)
    requires HonestChain(c.blake2b, chain, trusted, trustedHash, target) && IsHint(chain, trusted, target, headers)
    ensures AllRead(Reads(c.blake2b, headers))
    ensures Blocks(Reads(c.blake2b, headers))[..target - trusted] == Range(c.blake2b, chain, trusted, target)
  {
    hide Encode, ReadHeader, HonestChain, IsHint, View, RangeIsRepresentable, Add32, Pow2;
    var rs := Reads(c.blake2b, headers);
    forall k | 0 <= k < |rs|
      ensures rs[k].Some?
      ensures k < target - trusted ==> rs[k] == Some(View(c.blake2b, chain(trusted + 1 + k)))
    {
      SlotInRange(depth, trusted, target, k);
      ReadHint(c.blake2b, chain, trusted, trustedHash, target, headers, k);
    }
  }

  lemma RangeIsChain(blake2b: Hasher, chain: U32 -> Header, trusted: U32, trustedHash: Bytes32, target: U32)
    requires trusted < target && HonestChain(blake2b, chain, trusted, trustedHash, target)
    ensures ChainFrom(trustedHash, trusted, Range(blake2b, chain, trusted, target))
  {
    hide Encode;
    var range := Range(blake2b, chain, trusted, target);
    forall i | 0 <= i < |range| ensures ChainAt(trustedHash, trusted, range, i) {
      assert HonestBlock(blake2b, chain, trusted, trustedHash, trusted + 1 + i);
      assert range[i] == View(blake2b, chain(trusted + 1 + i));
      assert i > 0 ==> range[i - 1] == View(blake2b, chain(trusted + 1 + i - 1));
    }
  }

  /** A batch that runs past the largest block number gets no headers, and then none of them is the block
      it should start with. */
  lemma HintMissesBatch(c: Crypto, depth: nat, chain: U32 -> Header, trusted: U32, trustedHash: Bytes32, target: U32,
      headers: seq<EncodedHeader>)
    requires BATCH_DEPTH <= depth && |headers| == Pow2(depth) < TWO_32
    requires 0 < target - trusted <= Pow2(depth)
    requires trusted + Pow2(depth) - 7 < TWO_32 && !RangeIsRepresentable(depth, trusted, target)
    requires HonestChain(c.blake2b, chain, trusted, trustedHash, target) && IsHint(chain, trusted, target, headers)
    ensures var rs := Reads(c.blake2b, headers);
            AllRead(rs) ==> !ChainFrom(trustedHash, trusted, Blocks(rs)[..target - trusted])
  {
    hide Encode, ReadHeader;
    var k := Pow2(depth) - 8;
    Pow2Divisible(depth);
    ReadHint(c.blake2b, chain, trusted, trustedHash, target, headers, k);
    var rs := Reads(c.blake2b, headers);
    if AllRead(rs) {
      assert Blocks(rs)[..target - trusted][k].number == 0;
      assert !ChainAt(trustedHash, trusted, Blocks(rs)[..target - trusted], k);
    }
  }

  /** The honest hint satisfies every assertion, and the result is the target header's hash with the
      zero-padded roots of the range - exactly as long as no batch that is needed runs past the largest
      block number. */
  lemma SubchainComplete(c: Crypto, depth: nat, chain: U32 -> Header, trusted: U32, trustedHash: Bytes32, target: U32,
      headers: seq<EncodedHeader>)
    requires BATCH_DEPTH <= depth && |headers| == Pow2(depth) < TWO_32
    requires 0 < target - trusted <= Pow2(depth)
    requires HonestChain(c.blake2b, chain, trusted, trustedHash, target) && IsHint(chain, trusted, target, headers)
    ensures SubchainOf(c, depth, trusted, trustedHash, target, Reads(c.blake2b, headers))
            == if RangeIsRepresentable(depth, trusted, target) then Some(RangeOutput(c, depth, chain, trusted, target)) else None
  {
    hide Encode, PaddedRoot, SubchainOf, HonestChain, IsHint, Pow2, ChainFrom;
    var rs := Reads(c.blake2b, headers);
    var r := SubchainOf(c, depth, trusted, trustedHash, target, rs);
    if RangeIsRepresentable(depth, trusted, target) {
      HintReads(c, depth, chain, trusted, trustedHash, target, headers);
      RangeIsChain(c.blake2b, chain, trusted, trustedHash, target);
      RangeLeaves(c.blake2b, chain, trusted, target);
      var last := target - trusted - 1;
      assert Blocks(rs)[last] == Blocks(rs)[..target - trusted][last] == View(c.blake2b, chain(trusted + 1 + last));
      assert trusted + 1 + last == target;
      SubchainExact(c, depth, trusted, trustedHash, target, rs, RangeOutput(c, depth, chain, trusted, target));
    } else if r.Some? {
      SubchainExact(c, depth, trusted, trustedHash, target, rs, r.value);
      HintMissesBatch(c, depth, chain, trusted, trustedHash, target, headers);
    }
  }

  lemma {:induction false} Pow2Divisible(depth: nat)
    requires BATCH_DEPTH <= depth
    ensures Pow2(depth) % 8 == 0
  {
    BatchDepth();
    if depth > BATCH_DEPTH {
      Pow2Divisible(depth - 1);
    }
  }

  // ----- binding -----

  /** Every decoded field of every header lies inside its hashed bytes. */
  ghost predicate AllFieldsHashed(hs: seq<EncodedHeader>) {
    forall i :: 0 <= i < |hs| ==> FieldsHashed(hs[i])
  }

  /** Every header but perhaps the first has hashed bytes, so its parent hash is among them. */
  ghost predicate LinksHashed(hs: seq<EncodedHeader>) {
    forall i :: 1 <= i < |hs| ==> hs[i].size != 0
  }

  ghost predicate SameHeaders(a: seq<EncodedHeader>, b: seq<EncodedHeader>) {
    |a| == |b| && forall i :: 0 <= i < |a| ==> Hashed(a[i]) == Hashed(b[i])
  }

  /** All headers can be read, and they are a chain. */
  ghost predicate HeadersFrom(blake2b: Hasher, parent: Bytes32, height: nat, hs: seq<EncodedHeader>) {
    AllRead(Reads(blake2b, hs)) && ChainFrom(parent, height, Blocks(Reads(blake2b, hs)))
  }

  lemma HeadersPrefix(blake2b: Hasher, parent: Bytes32, height: nat, hs: seq<EncodedHeader>, n: nat)
    requires n <= |hs| && HeadersFrom(blake2b, parent, height, hs)
    ensures HeadersFrom(blake2b, parent, height, hs[..n])
    ensures Blocks(Reads(blake2b, hs[..n])) == Blocks(Reads(blake2b, hs))[..n]
  {
    hide ReadHeader;
    ReadsSplit(blake2b, hs, n);
    BlocksSplit(Reads(blake2b, hs), n);
    var bs := Blocks(Reads(blake2b, hs));
    forall i | 0 <= i < n ensures ChainAt(parent, height, bs[..n], i) {
      assert ChainAt(parent, height, bs, i);
    }
  }

  /** Where the decoded fields of a header lie inside its hashed bytes, the other chain's are the same. */
  ghost predicate SameFields(blake2b: Hasher, a: seq<EncodedHeader>, b: seq<EncodedHeader>)
    requires |a| == |b|
  {
    forall i :: 0 <= i < |a| && FieldsHashed(a[i]) ==> ReadHeader(blake2b, a[i]) == ReadHeader(blake2b, b[i])
  }

  lemma AllFieldsSame(blake2b: Hasher, a: seq<EncodedHeader>, b: seq<EncodedHeader>)
    requires |a| == |b| && AllFieldsHashed(a) && SameFields(blake2b, a, b)
    ensures Reads(blake2b, a) == Reads(blake2b, b)
  {
    hide ReadHeader, FieldsHashed;
  }

  /** The same last hash means the same last bytes, and the same hash before them if there are any. */
  lemma LastHeaderBinding(blake2b: Hasher, a: seq<EncodedHeader>, b: seq<EncodedHeader>,
      parentA: Bytes32, parentB: Bytes32, height: nat)
    requires |a| == |b| > 0
    requires HeadersFrom(blake2b, parentA, height, a) && HeadersFrom(blake2b, parentB, height, b)
    requires Blocks(Reads(blake2b, a))[|a| - 1].hash == Blocks(Reads(blake2b, b))[|b| - 1].hash
    requires !Collision(blake2b, Hashed(a[|a| - 1]), Hashed(b[|a| - 1]))
    ensures var n := |a| - 1;
            Hashed(a[n]) == Hashed(b[n])
            && (FieldsHashed(a[n]) ==> ReadHeader(blake2b, a[n]) == ReadHeader(blake2b, b[n]))
            && (a[n].size != 0 ==>
                  if n == 0 then parentA == parentB
                  else Blocks(Reads(blake2b, a))[n - 1].hash == Blocks(Reads(blake2b, b))[n - 1].hash)
  {
    hide ReadHeader;
    var n := |a| - 1;
    assert Reads(blake2b, a)[n] == ReadHeader(blake2b, a[n]) && Reads(blake2b, b)[n] == ReadHeader(blake2b, b[n]);
    if FieldsHashed(a[n]) {
      EqualHashes(blake2b, a[n], b[n]);
    }
    ReadableSize(blake2b, a[n]);
    var ba, bb := Blocks(Reads(blake2b, a)), Blocks(Reads(blake2b, b));
    assert ChainAt(parentA, height, ba, n) && ChainAt(parentB, height, bb, n);
    if a[n].size != 0 {
      SliceOfHashed(a[n], b[n], 0, 32);
    }
  }

  /** Two chains of the same length that end in the same hash are the same chain byte by byte, and agree in
      every decoded field that is hashed, or two different hashed byte strings are a collision. */
  lemma {:induction false} ChainBinding(blake2b: Hasher, a: seq<EncodedHeader>, b: seq<EncodedHeader>,
      parentA: Bytes32, parentB: Bytes32, height: nat) returns (x: seq<Byte>, y: seq<Byte>)
    requires |a| == |b| > 0 && LinksHashed(a)
    requires HeadersFrom(blake2b, parentA, height, a) && HeadersFrom(blake2b, parentB, height, b)
    requires Blocks(Reads(blake2b, a))[|a| - 1].hash == Blocks(Reads(blake2b, b))[|b| - 1].hash
    ensures Collision(blake2b, x, y)
            || (SameHeaders(a, b) && SameFields(blake2b, a, b) && (a[0].size != 0 ==> parentA == parentB))
    decreases |a|
  {
    hide ReadHeader, HeadersFrom, FieldsHashed;
    var n := |a| - 1;
    x, y := Hashed(a[n]), Hashed(b[n]);
    if !Collision(blake2b, x, y) {
      LastHeaderBinding(blake2b, a, b, parentA, parentB, height);
      if n > 0 {
        HeadersPrefix(blake2b, parentA, height, a, n);
        HeadersPrefix(blake2b, parentB, height, b, n);
        x, y := ChainBinding(blake2b, a[..n], b[..n], parentA, parentB, height);
        assert forall i :: 0 <= i < n ==> a[i] == a[..n][i] && b[i] == b[..n][i];
      }
    }
  }

  /** The header with its parent hash replaced. */
  function WithParent(e: EncodedHeader, parent: Bytes32): EncodedHeader {
    PaddedBytes(parent + e.bytes[HASH_SIZE..], e.size)
  }

  /** The header with another size, so with other hashed bytes. */
  function Resized(e: EncodedHeader): EncodedHeader {
    PaddedBytes(e.bytes, if e.size == HASH_SIZE then HASH_SIZE + 1 else HASH_SIZE)
  }

  lemma ResizedReads(blake2b: Hasher, e: EncodedHeader)
    requires ReadHeader(blake2b, e).Some?
    ensures var r := ReadHeader(blake2b, Resized(e));
            r.Some? && r.value.number == ReadHeader(blake2b, e).value.number && r.value.parent == ReadHeader(blake2b, e).value.parent
    ensures Hashed(Resized(e)) != Hashed(e)
  {
    hide DecodeCompactInt;
    ReadableSize(blake2b, e);
    ReadableSize(blake2b, Resized(e));
  }

  /** A header of size 0 keeps its hash when its parent hash is replaced. */
  lemma WithParentReads(blake2b: Hasher, e: EncodedHeader, parent: Bytes32)
    requires ReadHeader(blake2b, e).Some? && e.size == 0
    ensures var r := ReadHeader(blake2b, WithParent(e, parent));
            r.Some? && r.value.number == ReadHeader(blake2b, e).value.number && r.value.parent == parent
            && r.value.hash == ReadHeader(blake2b, e).value.hash
  {
    hide DecodeCompactInt;
    var b := WithParent(e, parent);
    assert b.bytes[..HASH_SIZE] == parent;
    assert b.bytes[32..37] == e.bytes[32..37];
    assert Hashed(b) == Hashed(e) == [];
  }

  /** Why the links must be hashed: before a header of size 0, the header can be exchanged for one with other bytes,
      and the chain still ends in the same hash. */
  lemma UnhashedLinkIsUnbound(blake2b: Hasher, parent: Bytes32, height: nat, a: seq<EncodedHeader>, k: nat)
      returns (b: seq<EncodedHeader>)
    requires HeadersFrom(blake2b, parent, height, a) && 1 <= k < |a| && a[k].size == 0
    ensures HeadersFrom(blake2b, parent, height, b) && |b| == |a| && !SameHeaders(a, b)
    ensures Blocks(Reads(blake2b, b))[|a| - 1].hash == Blocks(Reads(blake2b, a))[|a| - 1].hash
  {
    hide ReadHeader, Hashed, Resized, WithParent;
    var ra := Reads(blake2b, a);
    assert ra[k - 1] == ReadHeader(blake2b, a[k - 1]) && ra[k] == ReadHeader(blake2b, a[k]);
    var before := Resized(a[k - 1]);
    ResizedReads(blake2b, a[k - 1]);
    var link := ReadHeader(blake2b, before).value.hash;
    WithParentReads(blake2b, a[k], link);
    b := a[k - 1 := before][k := WithParent(a[k], link)];
    var rb := Reads(blake2b, b);
    forall i | 0 <= i < |b| ensures rb[i].Some? {
      assert ra[i] == ReadHeader(blake2b, a[i]) && rb[i] == ReadHeader(blake2b, b[i]);
    }
    var ba, bb := Blocks(ra), Blocks(rb);
    forall i | 0 <= i < |b| ensures ChainAt(parent, height, bb, i) {
      assert ra[i] == ReadHeader(blake2b, a[i]) && rb[i] == ReadHeader(blake2b, b[i]);
      assert ChainAt(parent, height, ba, i);
    }
    assert Hashed(a[k - 1]) != Hashed(b[k - 1]);
  }

  /** Two accepted subchains from the same block number to the same target with the same target hash
      have the same header bytes, the same trusted hash, and the same commitments if the committed fields
      are hashed - or yield a collision. */
  lemma SubchainBinding(c: Crypto, depth: nat, trusted: U32, trustedA: Bytes32, trustedB: Bytes32, target: U32,
      a: seq<EncodedHeader>, b: seq<EncodedHeader>) returns (x: seq<Byte>, y: seq<Byte>)
    requires BATCH_DEPTH <= depth && |a| == |b| == Pow2(depth) < TWO_32 && trusted < target
    requires var oa := SubchainOf(c, depth, trusted, trustedA, target, Reads(c.blake2b, a));
             var ob := SubchainOf(c, depth, trusted, trustedB, target, Reads(c.blake2b, b));
             oa.Some? && ob.Some? && oa.value.targetHeaderHash == ob.value.targetHeaderHash
    requires LinksHashed(a[..Min(target - trusted, |a|)])
    ensures var n := Min(target - trusted, |a|);
            Collision(c.blake2b, x, y)
            || (SameHeaders(a[..n], b[..n]) && SameFields(c.blake2b, a[..n], b[..n])
                && (a[0].size != 0 ==> trustedA == trustedB)
                && (AllFieldsHashed(a[..n]) ==>
                      SubchainOf(c, depth, trusted, trustedA, target, Reads(c.blake2b, a))
                      == SubchainOf(c, depth, trusted, trustedB, target, Reads(c.blake2b, b))))
  {
    hide MapReduce, Root, ReadHeader, FieldsHashed;
    var ra, rb := Reads(c.blake2b, a), Reads(c.blake2b, b);
    SubchainExact(c, depth, trusted, trustedA, target, ra, SubchainOf(c, depth, trusted, trustedA, target, ra).value);
    SubchainExact(c, depth, trusted, trustedB, target, rb, SubchainOf(c, depth, trusted, trustedB, target, rb).value);
    var n := target - trusted;
    ReadsSplit(c.blake2b, a, n);
    ReadsSplit(c.blake2b, b, n);
    BlocksSplit(ra, n);
    BlocksSplit(rb, n);
    x, y := ChainBinding(c.blake2b, a[..n], b[..n], trustedA, trustedB, trusted);
    if !Collision(c.blake2b, x, y) && AllFieldsHashed(a[..n]) {
      AllFieldsSame(c.blake2b, a[..n], b[..n]);
    }
  }
}
