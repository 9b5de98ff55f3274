/** Subchain verification: batches of eight untrusted headers are checked one map job each, then
    folded pairwise. The flat closed form `RangeNode` says what a fold over any range computes. */
module Subchain {
  import opened Bytes
  import opened Headers
  import opened Merkle

  const HEADERS_PER_MAP := 8

  datatype Context = Context(globalStart: U32, globalEnd: U32)

  /** The result of a map job or of a reduce step. */
  datatype Node = Node(
    numBlocks: nat, startBlock: U32, startHeaderHash: Bytes32, startParent: Bytes32,
    endBlock: U32, endHeaderHash: Bytes32, stateRoot: Bytes32, dataRoot: Bytes32)

  datatype SubchainOutput = SubchainOutput(targetHeaderHash: Bytes32, stateRoot: Bytes32, dataRoot: Bytes32)

  // ----- chains of headers -----

  /** What the circuit reads from each of the hinted headers; None where decoding fails. */
  type Reading = Option<BlockHeader>

  function Reads(blake2b: Hasher, hs: seq<EncodedHeader>): (rs: seq<Reading>)
    ensures |rs| == |hs|
  {
    seq(|hs|, i requires 0 <= i < |hs| => ReadHeader(blake2b, hs[i]))
  }

  predicate AllRead(rs: seq<Reading>) {
    forall i :: 0 <= i < |rs| ==> rs[i].Some?
  }

  function Blocks(rs: seq<Reading>): (bs: seq<BlockHeader>)
    requires AllRead(rs)
    ensures |bs| == |rs|
  {
    seq(|rs|, i requires 0 <= i < |rs| => rs[i].value)
  }

  function StateRoots(bs: seq<BlockHeader>): (r: seq<Bytes32>)
    ensures |r| == |bs|
  {
    seq(|bs|, i requires 0 <= i < |bs| => bs[i].stateRoot)
  }

  function DataRoots(bs: seq<BlockHeader>): (r: seq<Bytes32>)
    ensures |r| == |bs|
  {
    seq(|bs|, i requires 0 <= i < |bs| => bs[i].dataRoot)
  }

  predicate LinkedPair(a: BlockHeader, b: BlockHeader) {
    b.parent == a.hash && b.number == Add32(a.number, 1)
  }

  /** Each of the first `n` headers but the first is linked to the one before it. */
  predicate Linked(bs: seq<BlockHeader>, n: nat)
    requires n <= |bs|
  {
    forall i :: 1 <= i < n ==> LinkedPair(bs[i - 1], bs[i])
  }

  /** Header `i` continues the block (height, parent): the right number, and as parent hash the hash of
      the header before. */
  predicate ChainAt(parent: Bytes32, height: nat, bs: seq<BlockHeader>, i: nat)
    requires i < |bs|
  {
    bs[i].number == height + 1 + i && bs[i].parent == if i == 0 then parent else bs[i - 1].hash
  }

  /** The headers are a chain on top of the block (height, parent). */
  predicate ChainFrom(parent: Bytes32, height: nat, bs: seq<BlockHeader>) {
    forall i :: 0 <= i < |bs| ==> ChainAt(parent, height, bs, i)
  }

  // ----- the closed form -----

  /** How many of `width` consecutive blocks from `start` on are at most `target`. */
  function ActiveCount(start: U32, target: U32, width: nat): (n: nat)
    ensures n <= width
  {
    if target < start then 0 else Min(width, target - start + 1)
  }

  /** The first `n` headers are blocks `start`, `start` + 1, ... and linked. */
  predicate ActiveOk(bs: seq<BlockHeader>, start: U32, n: nat)
    requires n <= |bs|
  {
    n > 0 ==> bs[0].number == start && Linked(bs, n)
  }

  /** The node for a complete array of headers of which the first `n` are active. */
  function NodeOf(c: Crypto, depth: nat, bs: seq<BlockHeader>, n: nat): Node
    requires n <= |bs| == Pow2(depth)
  {
    Node(n, bs[0].number, bs[0].hash, bs[0].parent,
         if n == 0 then 0 else bs[n - 1].number,
         if n == 0 then ZERO32 else bs[n - 1].hash,
         PaddedRoot(c.sha256, depth, StateRoots(bs[..n])),
         PaddedRoot(c.sha256, depth, DataRoots(bs[..n])))
  }

  /** The node of decoded headers that should be the blocks `start`, `start` + 1, ... up to `target`. */
  function BlocksNode(c: Crypto, depth: nat, start: U32, target: U32, bs: seq<BlockHeader>): Option<Node>
    requires |bs| == Pow2(depth)
  {
    var n := ActiveCount(start, target, |bs|);
    if ActiveOk(bs, start, n) then Some(NodeOf(c, depth, bs, n)) else None
  }

  /** What verification of the blocks `start`, `start` + 1, ... yields for a full array of headers, of
      which only those up to `target` are looked at. None means that some assertion fails. */
  function RangeNode(c: Crypto, depth: nat, start: U32, target: U32, rs: seq<Reading>): Option<Node>
    requires |rs| == Pow2(depth)
  {
    if AllRead(rs) then BlocksNode(c, depth, start, target, Blocks(rs)) else None
  }

  // ----- the map stage -----

  /** The depth of one batch's tree. */
  const BATCH_DEPTH := 3

  lemma BatchDepth()
    ensures Pow2(BATCH_DEPTH) == HEADERS_PER_MAP
  {
    assert Pow2(1) == 2 * Pow2(0);
    assert Pow2(3) == 2 * (2 * Pow2(1));
  }

  /** One map job. The loop carries five accumulators and masks the blocks after the target; the
      returned node, or failure, is the closed form over the batch. In particular the check of the
      batch's end block never fails on its own. */
  method MapBatch(c: Crypto, ctx: Context, firstRelative: U32, lastRelative: U32, headers: seq<EncodedHeader>)
      returns (r: Option<Node>)
    requires |headers| == HEADERS_PER_MAP
    requires lastRelative - firstRelative == HEADERS_PER_MAP - 1
    ensures |headers| == Pow2(BATCH_DEPTH)
    ensures r == RangeNode(c, BATCH_DEPTH, Add32(ctx.globalStart, firstRelative), ctx.globalEnd, Reads(c.blake2b, headers))
  {
    hide Root, ReadHeader;
    BatchDepth();
    var batchStart := Add32(ctx.globalStart, firstRelative);
    var batchEnd := Add32(ctx.globalStart, lastRelative);
    var target := ctx.globalEnd;

    ghost var rs := Reads(c.blake2b, headers);
    var blocks: seq<BlockHeader> := [];
    var endBlockNum: U32 := 0;
    var endHeaderHash: Bytes32 := ZERO32;
    var numHeaders := 0;
    var isBatchDisabled := target < batchStart;
    var currBlockNoop := isBatchDisabled;
    var nbEnabledLeaves := 0;
    var linksHold := true;

    for i := 0 to HEADERS_PER_MAP
      invariant |blocks| == i
      invariant forall k :: 0 <= k < i ==> rs[k] == Some(blocks[k])
      invariant nbEnabledLeaves == numHeaders
      invariant LoopState(batchStart, target, blocks, linksHold, currBlockNoop, numHeaders, endBlockNum, endHeaderHash)
    {
      var decoded := ReadHeader(c.blake2b, headers[i]);
      assert decoded == rs[i];
      if decoded.None? {
        return None;
      }
      var header := decoded.value;
      LoopStep(batchStart, target, blocks, header, linksHold, currBlockNoop, numHeaders, endBlockNum, endHeaderHash);
      if i > 0 {
        var linkCheck := currBlockNoop || LinkedPair(blocks[i - 1], header);
        linksHold := linksHold && linkCheck;
      }
      blocks := blocks + [header];
      endBlockNum := if currBlockNoop then endBlockNum else header.number;
      endHeaderHash := if currBlockNoop then endHeaderHash else header.hash;
      numHeaders := numHeaders + if currBlockNoop then 0 else 1;
      nbEnabledLeaves := nbEnabledLeaves + if currBlockNoop then 0 else 1;
      currBlockNoop := currBlockNoop || header.number == target;
    }

    assert blocks == Blocks(rs);
    var firstBlockCheck := blocks[0].number == batchStart || isBatchDisabled;
    var lastBlockCheck := endBlockNum == batchEnd || currBlockNoop;
    if !(linksHold && firstBlockCheck && lastBlockCheck) {
      return None;
    }
    RootsOfSlices(blocks, nbEnabledLeaves);
    r := Some(Node(numHeaders, blocks[0].number, blocks[0].hash, blocks[0].parent, endBlockNum, endHeaderHash,
                   RootFromHashedLeaves(c.sha256, BATCH_DEPTH, StateRoots(blocks), nbEnabledLeaves),
                   RootFromHashedLeaves(c.sha256, BATCH_DEPTH, DataRoots(blocks), nbEnabledLeaves)));
  }

  /** What the loop knows after some blocks of a batch: nothing moves while the batch is disabled, and
      once an enabled batch starts with the right block, the links checked so far are those of the
      active blocks and the accumulators describe the last of them. */
  ghost predicate LoopState(start: U32, target: U32, blocks: seq<BlockHeader>,
      linksHold: bool, noop: bool, count: nat, endBlock: U32, endHash: Bytes32)
  {
    if target < start then linksHold && noop && count == 0 && endBlock == 0 && endHash == ZERO32
    else (|blocks| > 0 ==> blocks[0].number == start) ==>
      && (linksHold <==> Linked(blocks, ActiveCount(start, target, |blocks|)))
      && (linksHold ==>
           && (noop <==> |blocks| > target - start)
           && count == ActiveCount(start, target, |blocks|)
           && (count == 0 ==> endBlock == 0 && endHash == ZERO32)
           && (count > 0 ==> endBlock == blocks[count - 1].number == start + count - 1 && endHash == blocks[count - 1].hash))
  }

  lemma LoopStep(start: U32, target: U32, blocks: seq<BlockHeader>, header: BlockHeader,
      linksHold: bool, noop: bool, count: nat, endBlock: U32, endHash: Bytes32)
    requires LoopState(start, target, blocks, linksHold, noop, count, endBlock, endHash)
    ensures LoopState(start, target, blocks + [header],
                      linksHold && (|blocks| > 0 ==> noop || LinkedPair(blocks[|blocks| - 1], header)),
                      noop || header.number == target, count + (if noop then 0 else 1),
                      if noop then endBlock else header.number, if noop then endHash else header.hash)
  {
    if start <= target && |blocks| > 0 {
      var n, n' := ActiveCount(start, target, |blocks|), ActiveCount(start, target, |blocks| + 1);
      var blocks' := blocks + [header];
      assert Linked(blocks', n') <==> Linked(blocks, n) && (n' > n ==> LinkedPair(blocks[n - 1], header)) by {
        if n' > n && Linked(blocks', n') { assert LinkedPair(blocks'[n - 1], blocks'[n]); }
        if Linked(blocks', n') {
          forall i | 1 <= i < n ensures LinkedPair(blocks[i - 1], blocks[i]) { assert LinkedPair(blocks'[i - 1], blocks'[i]); }
        }
      }
    }
  }

  // ----- the reduce stage -----

  /** Combine two neighbouring nodes; None when they are not linked and the right one is not empty. */
  function Reduce(c: Crypto, left: Node, right: Node): Option<Node> {
    var linked := left.endHeaderHash == right.startParent && left.endBlock == Sub32(right.startBlock, 1);
    var rightInactive := right.numBlocks == 0;
    if !(rightInactive || linked) then None
    else Some(Node(left.numBlocks + right.numBlocks, left.startBlock, left.startHeaderHash, left.startParent,
                   if rightInactive then left.endBlock else right.endBlock,
                   if rightInactive then left.endHeaderHash else right.endHeaderHash,
                   HashPair(c.sha256, left.stateRoot, right.stateRoot),
                   HashPair(c.sha256, left.dataRoot, right.dataRoot)))
  }

  function ReduceBoth(c: Crypto, left: Option<Node>, right: Option<Node>): Option<Node> {
    if left.None? || right.None? then None else Reduce(c, left.value, right.value)
  }

  /** The balanced fold over the batches of 2^depth headers, with relative block numbers from `first` on. */
  function MapReduce(c: Crypto, ctx: Context, first: U32, depth: nat, rs: seq<Reading>): Option<Node>
    requires BATCH_DEPTH <= depth && |rs| == Pow2(depth) && first + |rs| <= TWO_32
    decreases depth
  {
    if depth == BATCH_DEPTH then RangeNode(c, depth, Add32(ctx.globalStart, first), ctx.globalEnd, rs)
    else
      var width := Pow2(depth - 1);
      ReduceBoth(c, MapReduce(c, ctx, first, depth - 1, rs[..width]),
                 MapReduce(c, ctx, first + width, depth - 1, rs[width..]))
  }

  /** The same fold with every map job run by the loop above on its hinted headers. */
  method RunMapReduce(c: Crypto, ctx: Context, first: U32, depth: nat, headers: seq<EncodedHeader>)
      returns (r: Option<Node>)
    requires BATCH_DEPTH <= depth && |headers| == Pow2(depth) && first + |headers| <= TWO_32
    ensures r == MapReduce(c, ctx, first, depth, Reads(c.blake2b, headers))
    decreases depth
  {
    hide RangeNode, Reduce;
    if depth == BATCH_DEPTH {
      BatchDepth();
      r := MapBatch(c, ctx, first, first + HEADERS_PER_MAP - 1, headers);
    } else {
      var width := Pow2(depth - 1);
      var left := RunMapReduce(c, ctx, first, depth - 1, headers[..width]);
      var right := RunMapReduce(c, ctx, first + width, depth - 1, headers[width..]);
      ReadsSplit(c.blake2b, headers, width);
      r := ReduceBoth(c, left, right);
    }
  }

  lemma ReadsSplit(blake2b: Hasher, hs: seq<EncodedHeader>, k: nat)
    requires k <= |hs|
    ensures Reads(blake2b, hs)[..k] == Reads(blake2b, hs[..k])
    ensures Reads(blake2b, hs)[k..] == Reads(blake2b, hs[k..])
  {
  }

  lemma {:induction false} NumbersFromLinks(bs: seq<BlockHeader>, n: nat, start: U32)
    requires 0 < n <= |bs| && bs[0].number == start && start + n <= TWO_32
    requires Linked(bs, n)
    ensures forall i :: 0 <= i < n ==> bs[i].number == start + i
  {
    if n > 1 {
      NumbersFromLinks(bs, n - 1, start);
      assert LinkedPair(bs[n - 2], bs[n - 1]);
    }
  }

  /** The links of a range are those of its two halves plus the one the reduce step checks. */
  lemma LinksSplit(bs: seq<BlockHeader>, half: nat, n: nat, start: U32)
    requires 0 < half < n <= |bs| && start + n <= TWO_32
    ensures bs[0].number == start && Linked(bs, n) <==>
      && bs[0].number == start && Linked(bs[..half], half)
      && bs[half].number == start + half && Linked(bs[half..], n - half)
      && bs[half - 1].hash == bs[half].parent && bs[half - 1].number == Sub32(bs[half].number, 1)
  {
    var l, r := bs[..half], bs[half..];
    if bs[0].number == start && Linked(bs, n) {
      NumbersFromLinks(bs, n, start);
      assert LinkedPair(bs[half - 1], bs[half]);
      forall i | 1 <= i < n - half ensures LinkedPair(r[i - 1], r[i]) {
        assert LinkedPair(bs[half + i - 1], bs[half + i]);
      }
    }
    if bs[0].number == start && Linked(l, half) && bs[half].number == start + half && Linked(r, n - half)
       && bs[half - 1].hash == bs[half].parent && bs[half - 1].number == Sub32(bs[half].number, 1)
    {
      forall i | 1 <= i < n ensures LinkedPair(bs[i - 1], bs[i]) {
        if i < half {
          assert LinkedPair(l[i - 1], l[i]);
        } else if i > half {
          assert LinkedPair(r[i - half - 1], r[i - half]);
        }
      }
    }
  }

  lemma BlocksSplit(rs: seq<Reading>, half: nat)
    requires half <= |rs|
    ensures AllRead(rs) <==> AllRead(rs[..half]) && AllRead(rs[half..])
    ensures AllRead(rs) ==> Blocks(rs)[..half] == Blocks(rs[..half]) && Blocks(rs)[half..] == Blocks(rs[half..])
  {
    if AllRead(rs[..half]) && AllRead(rs[half..]) {
      forall i | 0 <= i < |rs| ensures rs[i].Some? {
        if i < half { assert rs[i] == rs[..half][i]; } else { assert rs[i] == rs[half..][i - half]; }
      }
    }
  }

  /** The roots of the active prefix, split at the middle of the array. */
  lemma RootsSplit(h: Hasher, depth: nat, bs: seq<BlockHeader>, n: nat)
    requires depth > 0 && n <= |bs| == Pow2(depth)
    ensures var half := Pow2(depth - 1);
            var nl := Min(n, half);
            var l, r := bs[..half], bs[half..];
            && PaddedRoot(h, depth, StateRoots(bs[..n]))
               == HashPair(h, PaddedRoot(h, depth - 1, StateRoots(l[..nl])), PaddedRoot(h, depth - 1, StateRoots(r[..n - nl])))
            && PaddedRoot(h, depth, DataRoots(bs[..n]))
               == HashPair(h, PaddedRoot(h, depth - 1, DataRoots(l[..nl])), PaddedRoot(h, depth - 1, DataRoots(r[..n - nl])))
  {
    var half := Pow2(depth - 1);
    var nl := Min(n, half);
    PaddedRootSplits(h, depth, StateRoots(bs[..n]));
    PaddedRootSplits(h, depth, DataRoots(bs[..n]));
    assert bs[..n][..nl] == bs[..half][..nl] && bs[..n][nl..] == bs[half..][..n - nl];
    RootsOfSlices(bs[..n], nl);
  }

  lemma RootsOfSlices(bs: seq<BlockHeader>, k: nat)
    requires k <= |bs|
    ensures StateRoots(bs)[..k] == StateRoots(bs[..k]) && StateRoots(bs)[k..] == StateRoots(bs[k..])
    ensures DataRoots(bs)[..k] == DataRoots(bs[..k]) && DataRoots(bs)[k..] == DataRoots(bs[k..])
  {
  }

  /** The reduce step's condition on two neighbouring nodes. */
  predicate ReduceOk(left: Node, right: Node) {
    right.numBlocks == 0
    || (left.endHeaderHash == right.startParent && left.endBlock == Sub32(right.startBlock, 1))
  }

  /** A range is in order when its halves are and the reduce step accepts them. */
  lemma ActiveSplit(c: Crypto, depth: nat, bs: seq<BlockHeader>, start: U32, n: nat)
    requires depth > 0 && n <= |bs| == Pow2(depth)
    requires start + Pow2(depth - 1) < TWO_32 && start + n <= TWO_32
    ensures var half := Pow2(depth - 1);
            var nl := Min(n, half);
            var l, r := bs[..half], bs[half..];
            ActiveOk(bs, start, n) <==>
              ActiveOk(l, start, nl) && ActiveOk(r, start + half, n - nl)
              && ReduceOk(NodeOf(c, depth - 1, l, nl), NodeOf(c, depth - 1, r, n - nl))
  {
    var half := Pow2(depth - 1);
    var l, r := bs[..half], bs[half..];
    if n > half {
      LinksSplit(bs, half, n, start);
    } else {
      assert NodeOf(c, depth - 1, r, 0).numBlocks == 0;
      if Linked(l, n) {
        forall i | 1 <= i < n ensures LinkedPair(bs[i - 1], bs[i]) {
          assert LinkedPair(l[i - 1], l[i]);
        }
      }
    }
  }

  /** The reduce step's output on two halves is the node of the whole. */
  lemma NodeSplit(c: Crypto, depth: nat, bs: seq<BlockHeader>, n: nat)
    requires depth > 0 && n <= |bs| == Pow2(depth)
    ensures var half := Pow2(depth - 1);
            var nl := Min(n, half);
            var l, r := NodeOf(c, depth - 1, bs[..half], nl), NodeOf(c, depth - 1, bs[half..], n - nl);
            Reduce(c, l, r) == if ReduceOk(l, r) then Some(NodeOf(c, depth, bs, n)) else None
  {
    RootsSplit(c.sha256, depth, bs, n);
  }

  lemma ActiveCountSplit(start: U32, target: U32, half: nat)
    requires start + half < TWO_32
    ensures var n := ActiveCount(start, target, 2 * half);
            ActiveCount(start, target, half) == Min(n, half)
            && ActiveCount(start + half, target, half) == n - Min(n, half)
            && start + n <= TWO_32
  {
  }

  lemma BlocksReduce(c: Crypto, depth: nat, start: U32, target: U32, bs: seq<BlockHeader>)
    requires depth > 0 && |bs| == Pow2(depth) && start + Pow2(depth - 1) < TWO_32
    ensures var half := Pow2(depth - 1);
            BlocksNode(c, depth, start, target, bs)
            == ReduceBoth(c, BlocksNode(c, depth - 1, start, target, bs[..half]),
                          BlocksNode(c, depth - 1, start + half, target, bs[half..]))
  {
    var half := Pow2(depth - 1);
    var n := ActiveCount(start, target, 2 * half);
    ActiveCountSplit(start, target, half);
    ActiveSplit(c, depth, bs, start, n);
    NodeSplit(c, depth, bs, n);
  }

  /** Reducing the closed forms of two halves gives the closed form of the whole. */
  lemma ReduceIsFlat(c: Crypto, depth: nat, start: U32, target: U32, rs: seq<Reading>)
    requires depth > 0 && |rs| == Pow2(depth) && start + Pow2(depth - 1) < TWO_32
    ensures var half := Pow2(depth - 1);
            RangeNode(c, depth, start, target, rs)
            == ReduceBoth(c, RangeNode(c, depth - 1, start, target, rs[..half]),
                          RangeNode(c, depth - 1, start + half, target, rs[half..]))
  {
    BlocksSplit(rs, Pow2(depth - 1));
    if AllRead(rs) {
      BlocksReduce(c, depth, start, target, Blocks(rs));
    }
  }

  /** The tree computes the flat closed form over the whole range, as long as no batch starts past
      the largest block number. */
  lemma {:induction false} MapReduceIsFlat(c: Crypto, ctx: Context, first: U32, depth: nat, rs: seq<Reading>)
    requires BATCH_DEPTH <= depth && |rs| == Pow2(depth) && first + |rs| <= TWO_32
    requires Add32(ctx.globalStart, first) + |rs| - HEADERS_PER_MAP < TWO_32
    ensures MapReduce(c, ctx, first, depth, rs)
            == RangeNode(c, depth, Add32(ctx.globalStart, first), ctx.globalEnd, rs)
    decreases depth
  {
    hide Root, BlocksNode, Reduce;
    Pow2AtLeast(depth);
    BatchDepth();
    if depth > BATCH_DEPTH {
      var width := Pow2(depth - 1);
      MapReduceIsFlat(c, ctx, first, depth - 1, rs[..width]);
      Pow2AtLeast(depth - 1);
      MapReduceIsFlat(c, ctx, first + width, depth - 1, rs[width..]);
      ReduceIsFlat(c, depth, Add32(ctx.globalStart, first), ctx.globalEnd, rs);
    }
  }

  lemma {:induction false} Pow2AtLeast(depth: nat)
    requires BATCH_DEPTH <= depth
    ensures Pow2(depth) >= HEADERS_PER_MAP
  {
    BatchDepth();
    if depth > BATCH_DEPTH {
      Pow2AtLeast(depth - 1);
    }
  }
}
