/** The operator's decisions over a snapshot of the chain: the binary search for the end of an epoch, and
    the choice of the next header range to request. */
module Operator {
  import opened Bytes

  /** A finalized chain as the operator can query it: the authority set id after each block up to the head,
      and the blocks for which a justification is available. Queries past the head panic. */
  datatype Snapshot = Snapshot(setIds: seq<nat>, justified: set<nat>)

  predicate Nondecreasing(setIds: seq<nat>) {
    forall i, j :: 0 <= i <= j < |setIds| ==> setIds[i] <= setIds[j]
  }

  /** Block `b` is the last one justified by set `target`. */
  predicate IsEpochEnd(setIds: seq<nat>, target: nat, b: nat) {
    1 <= b < |setIds| && setIds[b - 1] == target && setIds[b] == target + 1
  }

  lemma EpochEndUnique(setIds: seq<nat>, target: nat, a: nat, b: nat)
    requires Nondecreasing(setIds) && IsEpochEnd(setIds, target, a) && IsEpochEnd(setIds, target, b)
    ensures a == b
  {
  }

  /** The result of the search: a block, or 0 for none, unless u32 arithmetic leaves its range. */
  datatype Search = Found(block: U32) | OutOfRange

  /** What the search should return. */
  ghost predicate IsLastJustified(setIds: seq<nat>, target: nat, block: nat) {
    if block == 0 then forall b: nat :: !IsEpochEnd(setIds, target, b) else IsEpochEnd(setIds, target, block)
  }

  /** The binary search, with the source's arithmetic. On a chain whose set ids never decrease and whose
      head is below 2^31 it finds the unique end of the epoch or reports that there is none; it fails,
      by stepping below block 0, exactly when even block 0 is past the epoch after the target. */
  method LastJustifiedBlock(setIds: seq<nat>, target: nat) returns (r: Search)
    requires 0 < |setIds| <= TWO_32
    ensures Nondecreasing(setIds) && |setIds| <= 0x8000_0000 ==>
      if setIds[0] > target + 1 then r == OutOfRange
      else r.Found? && IsLastJustified(setIds, target, r.block)
  {
    var low: U32 := 0;
    var high: U32 := |setIds| - 1;
    while low <= high
      invariant low <= |setIds| && high < |setIds|
      invariant Nondecreasing(setIds) ==> forall b: nat :: IsEpochEnd(setIds, target, b) ==> low <= b <= high
      invariant Nondecreasing(setIds) && setIds[0] > target + 1 ==> low == 0
      decreases high - low
    {
      if low + high >= TWO_32 {
        return OutOfRange;
      }
      var mid := (low + high) / 2;
      if setIds[mid] == target + 1 {
        if mid == 0 {
          return Found(0);
        }
        if setIds[mid - 1] == target {
          return Found(mid);
        } else {
          high := mid - 1;
        }
      } else if setIds[mid] < target + 1 {
        if mid + 1 == TWO_32 {
          return OutOfRange;
        }
        low := mid + 1;
      } else {
        if mid == 0 {
          return OutOfRange;
        }
        high := mid - 1;
      }
    }
    return Found(0);
  }

  // ----- the block to step to -----

  datatype StepTarget = StepTo(block: U32) | NoStep | Panicked

  /** Whether the justification query for a block succeeds; None is the panic past the head. */
  function HasJustification(chain: Snapshot, b: nat): Option<bool> {
    if b < |chain.setIds| then Some(b in chain.justified) else None
  }

  /** A chain and a search target on which the search is exact. */
  predicate Searchable(chain: Snapshot, setId: nat) {
    Nondecreasing(chain.setIds) && 0 < |chain.setIds| <= 0x8000_0000 && chain.setIds[0] <= setId + 1
  }

  /** The end of the epoch, if there is one, is past `limit`. */
  ghost predicate EndsPast(chain: Snapshot, setId: nat, limit: nat) {
    forall e: nat :: IsEpochEnd(chain.setIds, setId, e) ==> e > limit
  }

  /** A block to step to: the end of the epoch when that is in reach, and only otherwise a later block in
      reach that is justified. */
  ghost predicate IsStep(chain: Snapshot, limit: nat, latest: U32, setId: nat, dummy: bool, b: U32) {
    b < |chain.setIds| && b <= limit
    && (IsEpochEnd(chain.setIds, setId, b)
        || (latest < b && (dummy || b in chain.justified) && EndsPast(chain, setId, limit)))
  }

  function Times(q: nat, interval: nat): nat {
    q * interval
  }

  /** `m` is the last multiple of the interval up to `b`. */
  ghost predicate LastMultiple(m: nat, b: nat, interval: nat) {
    m <= b < m + interval && exists q :: Times(q, interval) == m
  }

  /** Rounding down gives the only last multiple. */
  lemma RoundDownIsLast(b: U32, interval: U32)
    requires interval > 0
    ensures LastMultiple(RoundDown(b, interval), b, interval)
    ensures forall k: nat :: LastMultiple(k, b, interval) ==> k == RoundDown(b, interval)
  {
    DivMod(b, interval);
    var q := b / interval;
    var m := RoundDown(b, interval);
    assert Times(q, interval) == m;
    forall k: nat | LastMultiple(k, b, interval) ensures k == m {
      var p :| Times(p, interval) == k;
      TimesGrows(interval, p, q);
      TimesGrows(interval, q, p);
    }
  }

  /** How far the chain is known within the limit. */
  function Reach(chain: Snapshot, limit: nat): nat
    requires |chain.setIds| > 0
  {
    Min(limit, |chain.setIds| - 1)
  }

  /** Block `b` is known, is justified, and is the first such one from `m` on. */
  ghost predicate FirstJustified(chain: Snapshot, m: nat, b: nat) {
    m <= b < |chain.setIds| && b in chain.justified && forall k :: m <= k < b ==> k !in chain.justified
  }

  /** The answer when no end of the epoch is in reach: the last multiple of the interval within reach and known to
      the chain, if it is later than the latest block - for a dummy operator, and otherwise the first justified
      block from there on. */
  ghost predicate IsScanned(chain: Snapshot, interval: U32, limit: nat, latest: nat, dummy: bool, b: nat) {
    |chain.setIds| > 0 && interval > 0
    && exists m: nat :: LastMultiple(m, Reach(chain, limit), interval) && latest < m
                        && if dummy then b == m else b <= limit && FirstJustified(chain, m, b)
  }

  /** The block to step to. */
  ghost predicate IsTheStep(chain: Snapshot, interval: U32, limit: nat, latest: nat, setId: nat, dummy: bool, b: nat) {
    (b <= limit && IsEpochEnd(chain.setIds, setId, b))
    || (EndsPast(chain, setId, limit) && IsScanned(chain, interval, limit, latest, dummy, b))
  }

  /** There is none, and all queries can be answered: no end of the epoch is in reach, and either the multiple is
      not later than the latest block, or all blocks from it to the limit are known and none is justified. */
  ghost predicate HasNoStep(chain: Snapshot, interval: U32, limit: nat, latest: nat, setId: nat, dummy: bool) {
    |chain.setIds| > 0 && interval > 0 && limit < TWO_32 && EndsPast(chain, setId, limit)
    && exists m: nat :: LastMultiple(m, Reach(chain, limit), interval)
                        && (m <= latest
                            || (!dummy && limit < |chain.setIds| && limit < TWO_32 - 1
                                && forall k :: m <= k <= limit ==> k !in chain.justified))
  }

  lemma SearchedEnd(chain: Snapshot, setId: nat, block: U32, limit: nat)
    requires Searchable(chain, setId) && IsLastJustified(chain.setIds, setId, block)
    ensures block == 0 || block > limit ==> EndsPast(chain, setId, limit)
    ensures forall e: nat :: IsEpochEnd(chain.setIds, setId, e) ==> e == block
  {
    forall e: nat | IsEpochEnd(chain.setIds, setId, e) ensures e == block {
      if block != 0 { EpochEndUnique(chain.setIds, setId, e, block); }
    }
  }

  /** Scan upwards for a justification, at most to `limit`. */
  method ScanUp(chain: Snapshot, from: U32, limit: U32) returns (r: StepTarget)
    ensures r.StepTo? ==> from <= r.block <= limit && HasJustification(chain, r.block) == Some(true)
    ensures r.StepTo? ==> forall b: nat :: from <= b < r.block ==> HasJustification(chain, b) == Some(false)
    ensures r.NoStep? <==> (forall b: nat :: from <= b <= limit ==> HasJustification(chain, b) == Some(false))
                           && (from > limit || limit < TWO_32 - 1)
    ensures r.Panicked? ==> |chain.setIds| <= limit || limit == TWO_32 - 1
    ensures r.StepTo? <==> exists b: nat :: from <= b <= limit && HasJustification(chain, b) == Some(true)
  {
    var b: U32 := from;
    while true
      invariant from <= b && (b <= limit || b == limit + 1 || b == from)
      invariant forall k: nat :: from <= k < b ==> HasJustification(chain, k) == Some(false)
      decreases limit + 1 - b
    {
      if b > limit {
        return NoStep;
      }
      var justified := HasJustification(chain, b);
      if justified.None? {
        return Panicked;
      }
      if justified.value {
        return StepTo(b);
      }
      if b + 1 == TWO_32 {
        return Panicked;
      }
      b := b + 1;
    }
  }

  method FindBlockToStepTo(chain: Snapshot, interval: U32, treeSize: U32, latest: U32, setId: nat, dummy: bool)
      returns (r: StepTarget)
    requires 0 < |chain.setIds| <= TWO_32
    ensures Searchable(chain, setId) && r.StepTo? ==> IsStep(chain, latest + treeSize, latest, setId, dummy, r.block)
    // Which block it is, and when there is one.
    ensures Searchable(chain, setId) ==> forall b: U32 ::
      r == StepTo(b) <==> latest + treeSize < TWO_32 && IsTheStep(chain, interval, latest + treeSize, latest, setId, dummy, b)
    ensures Searchable(chain, setId) ==> (r == NoStep <==> HasNoStep(chain, interval, latest + treeSize, latest, setId, dummy))
    // The end of the epoch is not missed when it is in reach.
    ensures Searchable(chain, setId) && latest + treeSize < TWO_32 ==>
      forall e: nat :: IsEpochEnd(chain.setIds, setId, e) && e <= latest + treeSize ==> r.StepTo? && r.block == e
  {
    hide Nondecreasing, LastMultiple, FirstJustified;
    var search := LastJustifiedBlock(chain.setIds, setId);
    if search == OutOfRange || latest + treeSize >= TWO_32 {
      return Panicked;
    }
    var limit: U32 := latest + treeSize;
    var lastJustified := search.block;
    if Searchable(chain, setId) {
      SearchedEnd(chain, setId, lastJustified, limit);
    }
    if lastJustified != 0 && lastJustified <= limit {
      return StepTo(lastJustified);
    }
    if interval == 0 {
      return Panicked;
    }
    var maxValid := Min(limit, |chain.setIds| - 1);
    var blockToStepTo: U32 := RoundDown(maxValid, interval);
    RoundDownIsLast(maxValid, interval);
    if blockToStepTo <= latest {
      r := NoStep;
    } else if dummy {
      r := StepTo(blockToStepTo);
    } else {
      r := ScanUp(chain, blockToStepTo, limit);
      ScanIsFirst(chain, blockToStepTo, limit, r);
    }
    if Searchable(chain, setId) {
      ScannedStep(chain, interval, limit, latest, setId, dummy, blockToStepTo, r);
    }
  }

  lemma ScanIsFirst(chain: Snapshot, from: U32, limit: U32, r: StepTarget)
    requires r.StepTo? ==> from <= r.block <= limit && HasJustification(chain, r.block) == Some(true)
    requires r.StepTo? ==> forall b: nat :: from <= b < r.block ==> HasJustification(chain, b) == Some(false)
    requires r.NoStep? <==> (forall b: nat :: from <= b <= limit ==> HasJustification(chain, b) == Some(false))
                            && (from > limit || limit < TWO_32 - 1)
    requires from <= limit
    ensures r.StepTo? ==> FirstJustified(chain, from, r.block)
    ensures r.NoStep? <==> limit < |chain.setIds| && limit < TWO_32 - 1 && forall k :: from <= k <= limit ==> k !in chain.justified
  {
    if r.NoStep? {
      assert HasJustification(chain, limit) == Some(false);
      forall k | from <= k <= limit ensures k !in chain.justified {
        assert HasJustification(chain, k) == Some(false);
      }
    }
    if r.StepTo? {
      forall k | from <= k < r.block ensures k !in chain.justified {
        assert HasJustification(chain, k) == Some(false);
      }
    }
  }

  /** What the scan finds is the step, when no end of the epoch is in reach. */
  lemma ScannedStep(chain: Snapshot, interval: U32, limit: U32, latest: U32, setId: nat, dummy: bool, m: U32, r: StepTarget)
    requires |chain.setIds| > 0 && interval > 0 && EndsPast(chain, setId, limit)
    requires LastMultiple(m, Reach(chain, limit), interval)
    requires forall k: nat :: LastMultiple(k, Reach(chain, limit), interval) ==> k == m
    requires m <= latest ==> r == NoStep
    requires m > latest && dummy ==> r == StepTo(m)
    requires m > latest && !dummy ==>
      && (r.StepTo? ==> r.block <= limit && FirstJustified(chain, m, r.block))
      && (r.StepTo? <==> exists b: nat :: m <= b <= limit && HasJustification(chain, b) == Some(true))
      && (r.NoStep? <==> limit < |chain.setIds| && limit < TWO_32 - 1 && forall k :: m <= k <= limit ==> k !in chain.justified)
    ensures forall b: U32 :: r == StepTo(b) <==> IsTheStep(chain, interval, limit, latest, setId, dummy, b)
    ensures r == NoStep <==> HasNoStep(chain, interval, limit, latest, setId, dummy)
  {
    hide LastMultiple, Reach;
    forall b: U32 ensures r == StepTo(b) <==> IsTheStep(chain, interval, limit, latest, setId, dummy, b) {
      if IsTheStep(chain, interval, limit, latest, setId, dummy, b) && !dummy {
        assert HasJustification(chain, b) == Some(true);
      }
    }
  }

  /** The largest multiple of the interval that is not past `b`. */
  function RoundDown(b: U32, interval: U32): (r: U32)
    requires interval > 0
    ensures r <= b
  {
    b - b % interval
  }

  // ----- the header range request -----

  datatype Request = Request(setId: nat, block: U32) | NoRequest | RequestPanicked

  /** Set ids start at 0 and rise by at most one per block. */
  predicate RegularEpochs(setIds: seq<nat>) {
    |setIds| > 0 && setIds[0] == 0
    && forall i :: 0 < i < |setIds| ==> setIds[i - 1] <= setIds[i] <= setIds[i - 1] + 1
  }

  lemma {:induction false} RegularIsNondecreasing(setIds: seq<nat>, i: nat, j: nat)
    requires RegularEpochs(setIds) && i <= j < |setIds|
    ensures setIds[i] <= setIds[j]
    decreases j
  {
    if i < j {
      RegularIsNondecreasing(setIds, i, j - 1);
    }
  }

  /** Between a block of one set and a later block of a higher set, there is the end of the epoch. */
  lemma {:induction false} EpochEndBetween(setIds: seq<nat>, a: nat, b: nat) returns (e: nat)
    requires RegularEpochs(setIds) && a <= b < |setIds| && setIds[b] > setIds[a]
    ensures a < e <= b && IsEpochEnd(setIds, setIds[a], e)
    decreases b
  {
    RegularIsNondecreasing(setIds, a, b - 1);
    if setIds[b - 1] == setIds[a] {
      e := b;
    } else {
      e := EpochEndBetween(setIds, a, b - 1);
    }
  }

  /** A request that the contract and the circuit can meet: the block is later, in reach of a tree that does not
      run past the largest block number, known to the chain, and its set is the requested one. */
  ghost predicate Admissible(chain: Snapshot, treeSize: U32, latest: U32, dummy: bool, setId: nat, b: U32) {
    latest < b <= latest + treeSize < TWO_32 && b < |chain.setIds| && chain.setIds[b - 1] == setId
    && (dummy || b in chain.justified || IsEpochEnd(chain.setIds, setId, b))
  }

  /** A step found from a block of the set, or from the end of the set before, is admissible. */
  lemma StepIsAdmissible(chain: Snapshot, treeSize: U32, latest: U32, setId: nat, dummy: bool, from: nat, b: U32)
    requires RegularEpochs(chain.setIds) && IsStep(chain, latest + treeSize, latest, setId, dummy, b)
    requires latest + treeSize < TWO_32
    requires from < |chain.setIds| && chain.setIds[from] == setId
    requires (from == latest - 1 && !IsEpochEnd(chain.setIds, setId, latest)) || (from == latest && latest > 0 && chain.setIds[latest - 1] < setId)
    ensures Admissible(chain, treeSize, latest, dummy, setId, b)
  {
    var ids := chain.setIds;
    if IsEpochEnd(ids, setId, b) {
      if b <= from {
        RegularIsNondecreasing(ids, b, from);
      }
    } else {
      RegularIsNondecreasing(ids, from, b - 1);
      if ids[b - 1] > setId {
        var e := EpochEndBetween(ids, from, b - 1);
      }
    }
  }

  /** The set under which a range after `latest` is requested: the set of the block before, or the next one if
      `latest` is the end of its epoch. */
  ghost function RequestSetId(chain: Snapshot, latest: U32): nat
    requires 1 <= latest <= |chain.setIds|
  {
    chain.setIds[latest - 1] + if IsEpochEnd(chain.setIds, chain.setIds[latest - 1], latest) then 1 else 0
  }

  /** A request is issued exactly when the block before the latest is known, the next set is stored if it is
      needed, and there is a block to step to. */
  method FindAndRequestHeaderRange(chain: Snapshot, latest: U32, treeSize: U32, nextSetStored: bool, interval: U32, dummy: bool)
      returns (r: Request)
    requires 0 < |chain.setIds| <= TWO_32
    ensures RegularEpochs(chain.setIds) && |chain.setIds| <= 0x8000_0000 && r.Request? ==>
      && Admissible(chain, treeSize, latest, dummy, r.setId, r.block)
      && 1 <= latest <= |chain.setIds| && r.setId == RequestSetId(chain, latest)
    // Which request it is, and when there is none.
    ensures RegularEpochs(chain.setIds) && |chain.setIds| <= 0x8000_0000 && 1 <= latest <= |chain.setIds| ==>
      forall b: U32 :: r == Request(RequestSetId(chain, latest), b) <==>
        (RequestSetId(chain, latest) != chain.setIds[latest - 1] ==> nextSetStored)
        && latest + treeSize < TWO_32
        && IsTheStep(chain, interval, latest + treeSize, latest, RequestSetId(chain, latest), dummy, b)
    ensures RegularEpochs(chain.setIds) && |chain.setIds| <= 0x8000_0000 ==>
      (r == NoRequest <==>
         1 <= latest <= |chain.setIds|
         && ((RequestSetId(chain, latest) != chain.setIds[latest - 1] && !nextSetStored)
             || HasNoStep(chain, interval, latest + treeSize, latest, RequestSetId(chain, latest), dummy)))
  {
    hide IsTheStep, HasNoStep, Nondecreasing, RegularEpochs;
    if latest == 0 || latest - 1 >= |chain.setIds| {
      return RequestPanicked;
    }
    var currentSetId := chain.setIds[latest - 1];
    if RegularEpochs(chain.setIds) {
      RegularChain(chain.setIds);
    }
    var search := LastJustifiedBlock(chain.setIds, currentSetId);
    if search == OutOfRange {
      return RequestPanicked;
    }
    ghost var regular := RegularEpochs(chain.setIds) && |chain.setIds| <= 0x8000_0000;
    assert regular ==> (latest == search.block <==> IsEpochEnd(chain.setIds, currentSetId, latest)) by {
      if regular && IsEpochEnd(chain.setIds, currentSetId, latest) && search.block != 0 {
        EpochEndUnique(chain.setIds, currentSetId, latest, search.block);
      }
    }
    var requestSetId := currentSetId;
    if latest == search.block {
      if !nextSetStored {
        return NoRequest;
      }
      requestSetId := currentSetId + 1;
    }
    assert regular ==> requestSetId == RequestSetId(chain, latest) && Searchable(chain, requestSetId);
    var step := FindBlockToStepTo(chain, interval, treeSize, latest, requestSetId, dummy);
    r := match step
      case Panicked => RequestPanicked
      case NoStep => NoRequest
      case StepTo(b) => Request(requestSetId, b);
    assert forall b: U32 :: r == Request(requestSetId, b) <==> step == StepTo(b);
    if regular && step.StepTo? {
      StepIsAdmissible(chain, treeSize, latest, requestSetId, dummy,
                       if requestSetId == currentSetId then latest - 1 else latest, step.block);
    }
  }

  lemma RegularChain(setIds: seq<nat>)
    requires RegularEpochs(setIds)
    ensures Nondecreasing(setIds) && setIds[0] == 0
  {
    forall i, j | 0 <= i <= j < |setIds| ensures setIds[i] <= setIds[j] {
      RegularIsNondecreasing(setIds, i, j);
    }
  }
}
