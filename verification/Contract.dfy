/** The VectorX contract: its storage, its state-changing functions and the circuit relations behind the
    gateway. A proof is modelled by the circuit's hinted inputs: the gateway returns the circuit's
    output for them, and reverts when the circuit rejects. */
module Contract {
  import opened Bytes
  import opened Headers
  import opened Merkle
  import opened Subchain
  import opened SubchainTheorems
  import opened Justification
  import opened HeaderRotate

  // ----- the header range circuit -----

  /** The tree depth of a deployed header range circuit: `TreeDepth` of the number of headers it is built for. */
  type CircuitDepth = d: nat | BATCH_DEPTH <= d && Pow2(d) < TWO_32 witness 3

  datatype HeaderRangeWitness = HeaderRangeWitness(headers: seq<EncodedHeader>, justification: HintedJustification)

  /** Verify the chain up to the target, then the justification of the resulting target hash. */
  function HeaderRangeOf(c: Crypto, depth: CircuitDepth, trusted: U32, trustedHash: Bytes32, setId: U64, setHash: Bytes32,
      target: U32, w: HeaderRangeWitness): Option<SubchainOutput>
  {
    if |w.headers| != Pow2(depth) then None
    else
      var out := SubchainOf(c, depth, trusted, trustedHash, target, Reads(c.blake2b, w.headers));
      if out.Some? && Justifies(c, target, out.value.targetHeaderHash, setId, setHash, w.justification) then out else None
  }

  // ----- storage -----

  /** A `HeaderRangeCommitmentStored` event. */
  datatype RangeStored = RangeStored(start: U32, end: U32, dataRoot: Bytes32, stateRoot: Bytes32)

  /** The contract's storage. Ranges are keyed by the pair of their bounds; `circuitDepth` stands for the
      circuit registered under the header range function id; `stored` is the log of emitted ranges. */
  datatype State = State(
    frozen: bool, latestBlock: U32, latestAuthoritySetId: U64,
    headerHashes: map<U32, Bytes32>, authorityHashes: map<U64, Bytes32>,
    dataRoots: map<(U32, U32), Bytes32>, stateRoots: map<(U32, U32), Bytes32>, rangeStarts: map<(U32, U32), U32>,
    circuitDepth: CircuitDepth, treeSize: U32, stored: seq<RangeStored>)

  datatype Genesis = Genesis(
    height: U32, header: Bytes32, setId: U64, setHash: Bytes32, circuitDepth: CircuitDepth, treeSize: U32)

  datatype Error =
    | ContractFrozen | TrustedHeaderNotFound | AuthoritySetNotFound | OldAuthoritySetId | NextAuthoritySetExists
    | RequireFailed | AssertFailed | ArithmeticOverflow | ProofRejected

  datatype Outcome = Done(state: State) | Reverted(error: Error)

  /** Reading a mapping: absent keys hold zero. */
  function Lookup<K>(m: map<K, Bytes32>, k: K): Bytes32 {
    if k in m then m[k] else ZERO32
  }

  /** A hash is stored under the key: it is not zero. */
  predicate Stored<K>(m: map<K, Bytes32>, k: K) {
    k in m && m[k] != ZERO32
  }

  function Initial(g: Genesis): State {
    State(false, g.height, g.setId, map[g.height := g.header], map[g.setId := g.setHash],
          map[], map[], map[], g.circuitDepth, g.treeSize, [])
  }

  /** Storing one range: its commitments, its start, the hash of its last block, and the event. */
  function StoreRange(s: State, r: RangeStored, endHash: Bytes32): State {
    s.(headerHashes := s.headerHashes[r.end := endHash],
       dataRoots := s.dataRoots[(r.start, r.end) := r.dataRoot],
       stateRoots := s.stateRoots[(r.start, r.end) := r.stateRoot],
       rangeStarts := s.rangeStarts[(r.start, r.end) := r.start],
       stored := s.stored + [r])
  }

  /** `commitHeaderRange`. */
  function CommitHeaderRange(c: Crypto, s: State, setId: U64, target: U32, w: HeaderRangeWitness): Outcome {
    var trustedHeader := Lookup(s.headerHashes, s.latestBlock);
    var setHash := Lookup(s.authorityHashes, setId);
    if s.frozen then Reverted(ContractFrozen)
    else if trustedHeader == ZERO32 then Reverted(TrustedHeaderNotFound)
    else if setHash == ZERO32 then Reverted(AuthoritySetNotFound)
    else if setId < s.latestAuthoritySetId then Reverted(OldAuthoritySetId)
    else if target <= s.latestBlock then Reverted(RequireFailed)
    else
      var out := HeaderRangeOf(c, s.circuitDepth, s.latestBlock, trustedHeader, setId, setHash, target, w);
      if out.None? then Reverted(ProofRejected)
      else
        var r := RangeStored(s.latestBlock, target, out.value.dataRoot, out.value.stateRoot);
        Done(StoreRange(s, r, out.value.targetHeaderHash).(latestBlock := target, latestAuthoritySetId := setId))
  }

  /** `rotate`. */
  function RotateSet(c: Crypto, s: State, setId: U64, w: HintedRotate): Outcome {
    if s.frozen then Reverted(ContractFrozen)
    else if Lookup(s.authorityHashes, setId) == ZERO32 then Reverted(AuthoritySetNotFound)
    else if setId + 1 == TWO_64 then Reverted(ArithmeticOverflow)
    else if Lookup(s.authorityHashes, setId + 1) != ZERO32 then Reverted(NextAuthoritySetExists)
    else
      var out := RotateOf(c, setId, Lookup(s.authorityHashes, setId), w);
      if out.None? then Reverted(ProofRejected)
      else Done(s.(authorityHashes := s.authorityHashes[setId + 1 := out.value]))
  }

  /** `updateGenesisState`. */
  function UpdateGenesisState(s: State, height: U32, header: Bytes32, setId: U64, setHash: Bytes32): State {
    s.(headerHashes := s.headerHashes[height := header], latestBlock := height,
       authorityHashes := s.authorityHashes[setId := setHash], latestAuthoritySetId := setId)
  }

  /** The arguments of `updateBlockRangeData`: five arrays and the final authority set. */
  datatype RangeData = RangeData(
    startBlocks: seq<U32>, endBlocks: seq<U32>, headerHashes: seq<Bytes32>,
    dataRoots: seq<Bytes32>, stateRoots: seq<Bytes32>, endSetId: U64, endSetHash: Bytes32)

  predicate SameLengths(d: RangeData) {
    |d.startBlocks| > 0 && |d.startBlocks| == |d.endBlocks| == |d.headerHashes| == |d.dataRoots| == |d.stateRoots|
  }

  predicate Adjacent(d: RangeData)
    requires SameLengths(d)
  {
    forall i :: 0 <= i < |d.startBlocks| - 1 ==> d.endBlocks[i] == d.startBlocks[i + 1]
  }

  /** The state after the first `k` ranges have been stored. */
  function StoreRanges(s: State, d: RangeData, k: nat): State
    requires SameLengths(d) && k <= |d.startBlocks|
  {
    if k == 0 then s
    else StoreRange(StoreRanges(s, d, k - 1),
                    RangeStored(d.startBlocks[k - 1], d.endBlocks[k - 1], d.dataRoots[k - 1], d.stateRoots[k - 1]),
                    d.headerHashes[k - 1])
  }

  /** `updateBlockRangeData`. */
  function UpdateBlockRangeData(s: State, d: RangeData): Outcome {
    if !SameLengths(d) then Reverted(AssertFailed)
    else if d.startBlocks[0] != s.latestBlock || !Adjacent(d) then Reverted(RequireFailed)
    else
      var t := StoreRanges(s, d, |d.startBlocks|);
      Done(t.(latestBlock := d.endBlocks[|d.endBlocks| - 1],
              authorityHashes := t.authorityHashes[d.endSetId := d.endSetHash],
              latestAuthoritySetId := d.endSetId))
  }

  // ----- the contract itself -----

  /** What a call leaves behind: the new state, or on a revert the old one and the error. */
  predicate Settled(outcome: Outcome, before: State, after: State, error: Option<Error>) {
    match outcome
    case Done(s) => error == None && after == s
    case Reverted(e) => error == Some(e) && after == before
  }

  class VectorX {
    var frozen: bool
    var latestBlock: U32
    var latestAuthoritySetId: U64
    var blockHeightToHeaderHash: map<U32, Bytes32>
    var authoritySetIdToHash: map<U64, Bytes32>
    var dataRootCommitments: map<(U32, U32), Bytes32>
    var stateRootCommitments: map<(U32, U32), Bytes32>
    var rangeStartBlocks: map<(U32, U32), U32>
    var circuitDepth: CircuitDepth
    var headerRangeCommitmentTreeSize: U32
    var stored: seq<RangeStored>

    function View(): State
      reads this
    {
      State(frozen, latestBlock, latestAuthoritySetId, blockHeightToHeaderHash, authoritySetIdToHash,
            dataRootCommitments, stateRootCommitments, rangeStartBlocks,
            circuitDepth, headerRangeCommitmentTreeSize, stored)
    }

    constructor (g: Genesis)
      ensures View() == Initial(g)
      ensures !frozen && latestBlock == g.height && latestAuthoritySetId == g.setId
      ensures blockHeightToHeaderHash == map[g.height := g.header] && authoritySetIdToHash == map[g.setId := g.setHash]
      ensures dataRootCommitments == stateRootCommitments == map[] && rangeStartBlocks == map[] && stored == []
      ensures circuitDepth == g.circuitDepth && headerRangeCommitmentTreeSize == g.treeSize
    {
      frozen := false;
      blockHeightToHeaderHash := map[g.height := g.header];
      authoritySetIdToHash := map[g.setId := g.setHash];
      latestAuthoritySetId := g.setId;
      latestBlock := g.height;
      dataRootCommitments, stateRootCommitments, rangeStartBlocks := map[], map[], map[];
      circuitDepth := g.circuitDepth;
      headerRangeCommitmentTreeSize := g.treeSize;
      stored := [];
    }

    /** A revert undoes every write of the call. */
    method Rollback(s: State)
      modifies this
      ensures View() == s
    {
      frozen := s.frozen;
      latestBlock := s.latestBlock;
      latestAuthoritySetId := s.latestAuthoritySetId;
      blockHeightToHeaderHash := s.headerHashes;
      authoritySetIdToHash := s.authorityHashes;
      dataRootCommitments := s.dataRoots;
      stateRootCommitments := s.stateRoots;
      rangeStartBlocks := s.rangeStarts;
      circuitDepth := s.circuitDepth;
      headerRangeCommitmentTreeSize := s.treeSize;
      stored := s.stored;
    }

    /** The writes and the event that both range functions make. */
    method Store(r: RangeStored, endHash: Bytes32)
      modifies this
      ensures View() == StoreRange(old(View()), r, endHash)
    {
      blockHeightToHeaderHash := blockHeightToHeaderHash[r.end := endHash];
      var key := (r.start, r.end);
      dataRootCommitments := dataRootCommitments[key := r.dataRoot];
      stateRootCommitments := stateRootCommitments[key := r.stateRoot];
      rangeStartBlocks := rangeStartBlocks[key := r.start];
      stored := stored + [r];
    }

    method UpdateFreeze(freeze: bool)
      modifies this
      ensures View() == old(View()).(frozen := freeze)
      ensures forall c: Crypto :: View() == Step(c, old(View()), FreezeCall(freeze))
    {
      frozen := freeze;
    }

    method UpdateFunctionIds(depth: CircuitDepth, treeSize: U32)
      modifies this
      ensures View() == old(View()).(circuitDepth := depth, treeSize := treeSize)
      ensures forall c: Crypto :: View() == Step(c, old(View()), FunctionIdsCall(depth, treeSize))
    {
      circuitDepth := depth;
      headerRangeCommitmentTreeSize := treeSize;
    }

    method SetGenesisState(height: U32, header: Bytes32, setId: U64, setHash: Bytes32)
      modifies this
      ensures View() == UpdateGenesisState(old(View()), height, header, setId, setHash)
      ensures forall c: Crypto :: View() == Step(c, old(View()), GenesisCall(height, header, setId, setHash))
      ensures latestBlock == height && latestAuthoritySetId == setId
      ensures blockHeightToHeaderHash == old(blockHeightToHeaderHash)[height := header]
      ensures authoritySetIdToHash == old(authoritySetIdToHash)[setId := setHash]
      ensures frozen == old(frozen) && stored == old(stored) && rangeStartBlocks == old(rangeStartBlocks)
      ensures dataRootCommitments == old(dataRootCommitments) && stateRootCommitments == old(stateRootCommitments)
      ensures circuitDepth == old(circuitDepth) && headerRangeCommitmentTreeSize == old(headerRangeCommitmentTreeSize)
    {
      blockHeightToHeaderHash := blockHeightToHeaderHash[height := header];
      latestBlock := height;
      authoritySetIdToHash := authoritySetIdToHash[setId := setHash];
      latestAuthoritySetId := setId;
    }

    /** The source raises `latestAuthoritySetId` before it checks the target block. */
    method Commit(c: Crypto, setId: U64, target: U32, w: HeaderRangeWitness) returns (error: Option<Error>)
      modifies this
      ensures Settled(CommitHeaderRange(c, old(View()), setId, target, w), old(View()), View(), error)
      ensures View() == Step(c, old(View()), CommitCall(setId, target, w))
      ensures error == None <==>
        && !old(frozen) && Stored(old(blockHeightToHeaderHash), old(latestBlock)) && Stored(old(authoritySetIdToHash), setId)
        && old(latestAuthoritySetId) <= setId && old(latestBlock) < target
        && HeaderRangeOf(c, old(circuitDepth), old(latestBlock), old(blockHeightToHeaderHash)[old(latestBlock)],
                         setId, old(authoritySetIdToHash)[setId], target, w).Some?
      ensures error != None ==> View() == old(View())
    {
      hide HeaderRangeOf;
      var before := View();
      if frozen {
        return Some(ContractFrozen);
      }
      var trustedHeader := Lookup(blockHeightToHeaderHash, latestBlock);
      if trustedHeader == ZERO32 {
        return Some(TrustedHeaderNotFound);
      }
      var setHash := Lookup(authoritySetIdToHash, setId);
      if setHash == ZERO32 {
        return Some(AuthoritySetNotFound);
      }
      if setId < latestAuthoritySetId {
        return Some(OldAuthoritySetId);
      }
      if setId > latestAuthoritySetId {
        latestAuthoritySetId := setId;
      }
      if target <= latestBlock {
        Rollback(before);
        return Some(RequireFailed);
      }
      var output := HeaderRangeOf(c, circuitDepth, latestBlock, trustedHeader, setId, setHash, target, w);
      if output.None? {
        Rollback(before);
        return Some(ProofRejected);
      }
      var SubchainOutput(targetHeaderHash, stateRoot, dataRoot) := output.value;
      Store(RangeStored(latestBlock, target, dataRoot, stateRoot), targetHeaderHash);
      latestBlock := target;
      return None;
    }

    method Rotate(c: Crypto, setId: U64, w: HintedRotate) returns (error: Option<Error>)
      modifies this
      ensures Settled(RotateSet(c, old(View()), setId, w), old(View()), View(), error)
      ensures View() == Step(c, old(View()), RotateCall(setId, w))
      ensures error == None <==>
        && !old(frozen) && Stored(old(authoritySetIdToHash), setId)
        && setId + 1 < TWO_64 && !Stored(old(authoritySetIdToHash), setId + 1)
        && RotateOf(c, setId, old(authoritySetIdToHash)[setId], w).Some?
      ensures error != None ==> View() == old(View())
    {
      hide RotateOf;
      if frozen {
        return Some(ContractFrozen);
      }
      var currentHash := Lookup(authoritySetIdToHash, setId);
      if currentHash == ZERO32 {
        return Some(AuthoritySetNotFound);
      }
      if setId + 1 == TWO_64 {
        return Some(ArithmeticOverflow);
      }
      var nextHash := Lookup(authoritySetIdToHash, setId + 1);
      if nextHash != ZERO32 {
        return Some(NextAuthoritySetExists);
      }
      var output := RotateOf(c, setId, currentHash, w);
      if output.None? {
        return Some(ProofRejected);
      }
      authoritySetIdToHash := authoritySetIdToHash[setId + 1 := output.value];
      return None;
    }

    /** The loop writes range by range and may still fail in the middle; a failure undoes all of it. */
    method SetBlockRangeData(d: RangeData) returns (error: Option<Error>)
      modifies this
      ensures Settled(UpdateBlockRangeData(old(View()), d), old(View()), View(), error)
      ensures forall c: Crypto :: View() == Step(c, old(View()), RangesCall(d))
      ensures error == None ==> authoritySetIdToHash == old(authoritySetIdToHash)[d.endSetId := d.endSetHash]
      ensures error != None ==> View() == old(View())
    {
      var before := View();
      if !SameLengths(d) {
        return Some(AssertFailed);
      }
      if d.startBlocks[0] != latestBlock {
        return Some(RequireFailed);
      }
      for i := 0 to |d.startBlocks|
        invariant View() == StoreRanges(before, d, i)
        invariant forall k :: 0 <= k < i && k < |d.startBlocks| - 1 ==> d.endBlocks[k] == d.startBlocks[k + 1]
      {
        if i < |d.startBlocks| - 1 {
          if d.endBlocks[i] != d.startBlocks[i + 1] {
            Rollback(before);
            return Some(RequireFailed);
          }
        }
        Store(RangeStored(d.startBlocks[i], d.endBlocks[i], d.dataRoots[i], d.stateRoots[i]), d.headerHashes[i]);
      }
      StoreRangesFrame(before, d, |d.startBlocks|);
      latestBlock := d.endBlocks[|d.endBlocks| - 1];
      authoritySetIdToHash := authoritySetIdToHash[d.endSetId := d.endSetHash];
      latestAuthoritySetId := d.endSetId;
      return None;
    }
  }

  // ----- runs -----

  /** A call of one of the functions above. */
  datatype Action =
    | CommitCall(setId: U64, target: U32, range: HeaderRangeWitness)
    | RotateCall(setId: U64, rotation: HintedRotate)
    | FreezeCall(freeze: bool)
    | FunctionIdsCall(depth: CircuitDepth, treeSize: U32)
    | GenesisCall(height: U32, header: Bytes32, setId: U64, setHash: Bytes32)
    | RangesCall(data: RangeData)

  function Settle(outcome: Outcome, before: State): State {
    if outcome.Done? then outcome.state else before
  }

  function Step(c: Crypto, s: State, a: Action): State {
    match a
    case CommitCall(setId, target, w) => Settle(CommitHeaderRange(c, s, setId, target, w), s)
    case RotateCall(setId, w) => Settle(RotateSet(c, s, setId, w), s)
    case FreezeCall(freeze) => s.(frozen := freeze)
    case FunctionIdsCall(depth, treeSize) => s.(circuitDepth := depth, treeSize := treeSize)
    case GenesisCall(height, header, setId, setHash) => UpdateGenesisState(s, height, header, setId, setHash)
    case RangesCall(d) => Settle(UpdateBlockRangeData(s, d), s)
  }

  function Run(c: Crypto, s: State, actions: seq<Action>): State {
    if actions == [] then s else Step(c, Run(c, s, actions[..|actions| - 1]), actions[|actions| - 1])
  }

  // ----- what a call demands and does -----

  /** A commit succeeds exactly under these conditions, tried in this order; it then changes exactly these fields. */
  lemma CommitIff(c: Crypto, s: State, setId: U64, target: U32, w: HeaderRangeWitness)
    ensures var outcome := CommitHeaderRange(c, s, setId, target, w);
            var known := Stored(s.headerHashes, s.latestBlock);
            var hasSet := Stored(s.authorityHashes, setId);
            && (outcome == Reverted(ContractFrozen) <==> s.frozen)
            && (outcome == Reverted(TrustedHeaderNotFound) <==> !s.frozen && !known)
            && (outcome == Reverted(AuthoritySetNotFound) <==> !s.frozen && known && !hasSet)
            && (outcome == Reverted(OldAuthoritySetId) <==> !s.frozen && known && hasSet && setId < s.latestAuthoritySetId)
            && (outcome == Reverted(RequireFailed) <==>
                  !s.frozen && known && hasSet && s.latestAuthoritySetId <= setId && target <= s.latestBlock)
            && (outcome.Done? <==>
                  && !s.frozen && known && hasSet && s.latestAuthoritySetId <= setId && s.latestBlock < target
                  && HeaderRangeOf(c, s.circuitDepth, s.latestBlock, s.headerHashes[s.latestBlock], setId, s.authorityHashes[setId], target, w).Some?)
            && (outcome.Done? ==>
                  var out := HeaderRangeOf(c, s.circuitDepth, s.latestBlock, s.headerHashes[s.latestBlock], setId, s.authorityHashes[setId], target, w).value;
                  var key := (s.latestBlock, target);
                  outcome.state == State(
                    false, target, setId, s.headerHashes[target := out.targetHeaderHash], s.authorityHashes,
                    s.dataRoots[key := out.dataRoot], s.stateRoots[key := out.stateRoot], s.rangeStarts[key := s.latestBlock],
                    s.circuitDepth, s.treeSize, s.stored + [RangeStored(s.latestBlock, target, out.dataRoot, out.stateRoot)]))
  {
    hide HeaderRangeOf;
  }

  /** A rotation succeeds exactly under these conditions, tried in this order, and stores the one hash. */
  lemma RotateIff(c: Crypto, s: State, setId: U64, w: HintedRotate)
    ensures var outcome := RotateSet(c, s, setId, w);
            var hasSet := Stored(s.authorityHashes, setId);
            && (outcome == Reverted(ContractFrozen) <==> s.frozen)
            && (outcome == Reverted(AuthoritySetNotFound) <==> !s.frozen && !hasSet)
            && (outcome == Reverted(ArithmeticOverflow) <==> !s.frozen && hasSet && setId + 1 == TWO_64)
            && (outcome == Reverted(NextAuthoritySetExists) <==>
                  !s.frozen && hasSet && setId + 1 < TWO_64 && Stored(s.authorityHashes, setId + 1))
            && (outcome.Done? <==>
                  && !s.frozen && hasSet && setId + 1 < TWO_64 && !Stored(s.authorityHashes, setId + 1)
                  && RotateOf(c, setId, s.authorityHashes[setId], w).Some?)
            && (outcome.Done? ==>
                  outcome.state == State(
                    false, s.latestBlock, s.latestAuthoritySetId, s.headerHashes,
                    s.authorityHashes[setId + 1 := RotateOf(c, setId, s.authorityHashes[setId], w).value],
                    s.dataRoots, s.stateRoots, s.rangeStarts, s.circuitDepth, s.treeSize, s.stored))
  {
    hide RotateOf;
  }

  /** Calls that only the circuits can let through. */
  predicate NeedsProof(a: Action) {
    a.CommitCall? || a.RotateCall?
  }

  predicate Unfreezes(a: Action) {
    a == FreezeCall(false)
  }

  /** The other calls of a run. */
  function WithoutProofs(actions: seq<Action>): seq<Action> {
    if actions == [] then []
    else
      var last := |actions| - 1;
      WithoutProofs(actions[..last]) + if NeedsProof(actions[last]) then [] else [actions[last]]
  }

  /** As long as the contract stays frozen, commits and rotations change nothing: every run is the run of its
      other calls. */
  lemma {:induction false} FrozenRun(c: Crypto, s: State, actions: seq<Action>)
    requires s.frozen && forall a :: a in actions ==> !Unfreezes(a)
    ensures Run(c, s, actions).frozen && Run(c, s, actions) == Run(c, s, WithoutProofs(actions))
    decreases |actions|
  {
    hide Step;
    if actions != [] {
      var last := |actions| - 1;
      var a := actions[last];
      FrozenRun(c, s, actions[..last]);
      var t := Run(c, s, actions[..last]);
      if NeedsProof(a) {
        ProofsStopped(c, t, a);
        assert WithoutProofs(actions) == WithoutProofs(actions[..last]);
      } else {
        FrozenStays(c, t, a);
        assert WithoutProofs(actions)[..|WithoutProofs(actions)| - 1] == WithoutProofs(actions[..last]);
      }
    }
  }

  lemma {:induction false} StoreRangesFrame(s: State, d: RangeData, k: nat)
    requires SameLengths(d) && k <= |d.startBlocks|
    ensures var t := StoreRanges(s, d, k);
            && t.frozen == s.frozen && t.latestBlock == s.latestBlock && t.latestAuthoritySetId == s.latestAuthoritySetId
            && t.authorityHashes == s.authorityHashes && t.circuitDepth == s.circuitDepth && t.treeSize == s.treeSize
            && (forall b :: b !in d.endBlocks[..k] ==>
                  (b in t.headerHashes <==> b in s.headerHashes) && (b in s.headerHashes ==> t.headerHashes[b] == s.headerHashes[b]))
            && (forall key :: !RangeGiven(d, k, key) ==>
                  && (key in t.dataRoots <==> key in s.dataRoots) && (key in s.dataRoots ==> t.dataRoots[key] == s.dataRoots[key])
                  && (key in t.stateRoots <==> key in s.stateRoots) && (key in s.stateRoots ==> t.stateRoots[key] == s.stateRoots[key])
                  && (key in t.rangeStarts <==> key in s.rangeStarts) && (key in s.rangeStarts ==> t.rangeStarts[key] == s.rangeStarts[key]))
  {
    if k > 0 {
      StoreRangesFrame(s, d, k - 1);
      assert d.endBlocks[..k] == d.endBlocks[..k - 1] + [d.endBlocks[k - 1]];
      GivenSnoc(d, k);
    }
  }

  /** The key is that of one of the first `k` ranges. */
  ghost predicate RangeGiven(d: RangeData, k: nat, key: (U32, U32))
    requires SameLengths(d) && k <= |d.startBlocks|
  {
    exists i :: 0 <= i < k && d.startBlocks[i] == key.0 && d.endBlocks[i] == key.1
  }

  lemma GivenSnoc(d: RangeData, k: nat)
    requires SameLengths(d) && 0 < k <= |d.startBlocks|
    ensures forall key :: RangeGiven(d, k - 1, key) ==> RangeGiven(d, k, key)
    ensures RangeGiven(d, k, (d.startBlocks[k - 1], d.endBlocks[k - 1]))
  {
  }

  /** The entries and the latest block after `updateBlockRangeData`: it demands non-empty arrays of one length that
      lead on from the latest block without gaps; one set hash is written; nothing changes off the given ranges. */
  lemma RangesFrame(s: State, d: RangeData)
    ensures UpdateBlockRangeData(s, d).Done? <==>
            && |d.startBlocks| > 0 && |d.endBlocks| == |d.startBlocks| && |d.headerHashes| == |d.startBlocks|
            && |d.dataRoots| == |d.startBlocks| && |d.stateRoots| == |d.startBlocks|
            && d.startBlocks[0] == s.latestBlock
            && forall i :: 0 <= i < |d.startBlocks| - 1 ==> d.endBlocks[i] == d.startBlocks[i + 1]
    ensures UpdateBlockRangeData(s, d).Done? ==>
            var t := UpdateBlockRangeData(s, d).state;
            && t.latestBlock == d.endBlocks[|d.endBlocks| - 1] && t.latestAuthoritySetId == d.endSetId
            && t.authorityHashes == s.authorityHashes[d.endSetId := d.endSetHash]
            && t.frozen == s.frozen && t.circuitDepth == s.circuitDepth && t.treeSize == s.treeSize
            && (forall b :: b !in d.endBlocks ==>
                  (b in t.headerHashes <==> b in s.headerHashes) && (b in s.headerHashes ==> t.headerHashes[b] == s.headerHashes[b]))
            && (forall key :: !RangeGiven(d, |d.startBlocks|, key) ==>
                  && (key in t.dataRoots <==> key in s.dataRoots) && (key in s.dataRoots ==> t.dataRoots[key] == s.dataRoots[key])
                  && (key in t.stateRoots <==> key in s.stateRoots) && (key in s.stateRoots ==> t.stateRoots[key] == s.stateRoots[key])
                  && (key in t.rangeStarts <==> key in s.rangeStarts) && (key in s.rangeStarts ==> t.rangeStarts[key] == s.rangeStarts[key]))
  {
    hide StoreRanges, RangeGiven;
    if UpdateBlockRangeData(s, d).Done? {
      StoreRangesFrame(s, d, |d.startBlocks|);
      assert d.endBlocks[..|d.startBlocks|] == d.endBlocks;
    }
  }

  lemma ProofsStopped(c: Crypto, s: State, a: Action)
    requires s.frozen && NeedsProof(a)
    ensures Step(c, s, a) == s
  {
    hide CommitHeaderRange, RotateSet;
    if a.CommitCall? {
      CommitIff(c, s, a.setId, a.target, a.range);
    } else {
      RotateIff(c, s, a.setId, a.rotation);
    }
  }

  lemma FrozenStays(c: Crypto, s: State, a: Action)
    requires s.frozen && !NeedsProof(a) && !Unfreezes(a)
    ensures Step(c, s, a).frozen
  {
    hide UpdateBlockRangeData;
    if a.RangesCall? {
      RangesFrame(s, a.data);
    }
  }

  // ----- ranges are written once, whoever stores them -----

  /** Ranges that all end after they start. */
  predicate Ascending(d: RangeData) {
    |d.endBlocks| >= |d.startBlocks| && forall i :: 0 <= i < |d.startBlocks| ==> d.startBlocks[i] < d.endBlocks[i]
  }

  /** Everything but a new genesis; stored ranges ascend. */
  predicate Planned(a: Action) {
    !a.GenesisCall? && (a.RangesCall? ==> Ascending(a.data))
  }

  /** Nothing is stored for blocks after the latest one. */
  ghost predicate KeysBelow(s: State) {
    && (forall b :: b in s.headerHashes ==> b <= s.latestBlock)
    && (forall k :: k in s.dataRoots || k in s.stateRoots || k in s.rangeStarts ==> k.1 <= s.latestBlock)
  }

  /** No stored header hash and no stored commitment is lost or changed, and the latest block does not go back. */
  ghost predicate RangesKept(s: State, t: State) {
    && s.latestBlock <= t.latestBlock
    && (forall b :: b in s.headerHashes ==> b in t.headerHashes && t.headerHashes[b] == s.headerHashes[b])
    && (forall k :: k in s.dataRoots ==> k in t.dataRoots && t.dataRoots[k] == s.dataRoots[k])
    && (forall k :: k in s.stateRoots ==> k in t.stateRoots && t.stateRoots[k] == s.stateRoots[k])
    && (forall k :: k in s.rangeStarts ==> k in t.rangeStarts && t.rangeStarts[k] == s.rangeStarts[k])
  }

  /** The set with this id is given by some call that stores ranges. */
  predicate SetGiven(actions: seq<Action>, id: U64) {
    exists i :: 0 <= i < |actions| && actions[i].RangesCall? && actions[i].data.endSetId == id
  }

  lemma {:induction false} RangesAbove(d: RangeData, latest: U32, i: nat)
    requires SameLengths(d) && Adjacent(d) && Ascending(d) && d.startBlocks[0] == latest && i < |d.startBlocks|
    ensures latest <= d.startBlocks[i] && d.endBlocks[i] <= d.endBlocks[|d.endBlocks| - 1]
    decreases i
  {
    if i > 0 {
      RangesAbove(d, latest, i - 1);
      assert d.endBlocks[i - 1] == d.startBlocks[i - 1 + 1];
    }
    EndsRise(d, i, |d.endBlocks| - 1);
  }

  lemma {:induction false} EndsRise(d: RangeData, i: nat, j: nat)
    requires SameLengths(d) && Adjacent(d) && Ascending(d) && i <= j < |d.startBlocks|
    ensures d.endBlocks[i] <= d.endBlocks[j]
    decreases j
  {
    if i < j {
      EndsRise(d, i, j - 1);
      assert d.endBlocks[j - 1] == d.startBlocks[j - 1 + 1];
    }
  }

  lemma RangesKeep(s: State, d: RangeData)
    requires KeysBelow(s) && Ascending(d) && UpdateBlockRangeData(s, d).Done?
    ensures var t := UpdateBlockRangeData(s, d).state;
            KeysBelow(t) && RangesKept(s, t) && SetsKept(s, t, Some(d.endSetId))
  {
    hide UpdateBlockRangeData, Ascending;
    RangesFrame(s, d);
    var n := |d.startBlocks|;
    forall i | 0 <= i < n ensures s.latestBlock < d.endBlocks[i] <= d.endBlocks[n - 1] {
      RangesAbove(d, s.latestBlock, i);
      StartBeforeEnd(d, i);
    }
  }

  lemma StartBeforeEnd(d: RangeData, i: nat)
    requires Ascending(d) && i < |d.startBlocks|
    ensures i < |d.endBlocks| && d.startBlocks[i] < d.endBlocks[i]
  {
  }

  /** No stored set hash changes but that with the given id. */
  ghost predicate SetsKept(s: State, t: State, except: Option<U64>) {
    forall id: U64 :: Stored(s.authorityHashes, id) && except != Some(id) ==>
      Stored(t.authorityHashes, id) && t.authorityHashes[id] == s.authorityHashes[id]
  }

  lemma CommitKeeps(c: Crypto, s: State, setId: U64, target: U32, w: HeaderRangeWitness)
    requires KeysBelow(s) && CommitHeaderRange(c, s, setId, target, w).Done?
    ensures var t := CommitHeaderRange(c, s, setId, target, w).state;
            KeysBelow(t) && RangesKept(s, t) && SetsKept(s, t, None)
  {
    hide CommitHeaderRange, HeaderRangeOf;
    CommitIff(c, s, setId, target, w);
  }

  lemma RotateKeeps(c: Crypto, s: State, setId: U64, w: HintedRotate)
    requires KeysBelow(s) && RotateSet(c, s, setId, w).Done?
    ensures var t := RotateSet(c, s, setId, w).state;
            KeysBelow(t) && RangesKept(s, t) && SetsKept(s, t, None)
  {
    hide RotateSet, RotateOf;
    RotateIff(c, s, setId, w);
  }

  lemma StepKeeps(c: Crypto, s: State, a: Action)
    requires KeysBelow(s) && Planned(a)
    ensures KeysBelow(Step(c, s, a)) && RangesKept(s, Step(c, s, a))
    ensures SetsKept(s, Step(c, s, a), if a.RangesCall? then Some(a.data.endSetId) else None)
  {
    hide CommitHeaderRange, RotateSet, UpdateBlockRangeData, Ascending, KeysBelow, RangesKept, RangeGiven;
    KeptReflexive(s);
    match a {
      case CommitCall(setId, target, w) =>
        if CommitHeaderRange(c, s, setId, target, w).Done? { CommitKeeps(c, s, setId, target, w); }
      case RotateCall(setId, w) =>
        if RotateSet(c, s, setId, w).Done? { RotateKeeps(c, s, setId, w); }
      case RangesCall(d) =>
        if UpdateBlockRangeData(s, d).Done? { RangesKeep(s, d); }
      case _ => AdministrationKeeps(c, s, a);
    }
  }

  lemma AdministrationKeeps(c: Crypto, s: State, a: Action)
    requires KeysBelow(s) && (a.FreezeCall? || a.FunctionIdsCall?)
    ensures KeysBelow(Step(c, s, a)) && RangesKept(s, Step(c, s, a)) && SetsKept(s, Step(c, s, a), None)
  {
  }

  /** Over commits, rotations, administration and planned ranges in any order: no stored header hash or commitment
      is ever changed, the latest block never goes back, and a stored set hash changes only when a call that
      stores ranges gives that set. */
  lemma {:induction false} PlannedRunKeeps(c: Crypto, s: State, actions: seq<Action>)
    requires KeysBelow(s) && forall a :: a in actions ==> Planned(a)
    ensures KeysBelow(Run(c, s, actions)) && RangesKept(s, Run(c, s, actions))
    ensures forall id: U64 :: Stored(s.authorityHashes, id) && !SetGiven(actions, id) ==>
              Stored(Run(c, s, actions).authorityHashes, id) && Run(c, s, actions).authorityHashes[id] == s.authorityHashes[id]
    decreases |actions|
  {
    hide Step, KeysBelow, RangesKept, Planned;
    if actions == [] {
      KeptReflexive(s);
    } else {
      var last := |actions| - 1;
      var t := Run(c, s, actions[..last]);
      PlannedRunKeeps(c, s, actions[..last]);
      StepKeeps(c, t, actions[last]);
      KeptTransitive(s, t, Run(c, s, actions));
      forall id: U64 | Stored(s.authorityHashes, id) && !SetGiven(actions, id)
        ensures Stored(Run(c, s, actions).authorityHashes, id) && Run(c, s, actions).authorityHashes[id] == s.authorityHashes[id]
      {
        SetGivenSnoc(actions, id);
      }
    }
  }

  lemma SetGivenSnoc(actions: seq<Action>, id: U64)
    requires actions != []
    ensures var last := |actions| - 1;
            SetGiven(actions[..last], id) || (actions[last].RangesCall? && actions[last].data.endSetId == id) ==> SetGiven(actions, id)
  {
  }

  lemma KeptReflexive(s: State)
    ensures RangesKept(s, s)
  {
  }

  lemma KeptTransitive(s: State, t: State, u: State)
    requires RangesKept(s, t) && RangesKept(t, u)
    ensures RangesKept(s, u)
  {
  }

  /** The state after deployment meets the condition. */
  lemma InitialKeysBelow(g: Genesis)
    ensures KeysBelow(Initial(g))
  {
  }

  // ----- ranges chain, whoever stores them -----

  /** The ranges lead from one block to another, each starting where the one before ended. */
  ghost predicate Chained(from: U32, ranges: seq<RangeStored>, to: U32) {
    if ranges == [] then from == to
    else ranges[|ranges| - 1].end == to && Chained(from, ranges[..|ranges| - 1], ranges[|ranges| - 1].start)
  }

  lemma {:induction false} StoreRangesChained(s: State, d: RangeData, k: nat)
    requires SameLengths(d) && Adjacent(d) && d.startBlocks[0] == s.latestBlock && k <= |d.startBlocks|
    ensures var t := StoreRanges(s, d, k);
            s.stored <= t.stored
            && Chained(s.latestBlock, t.stored[|s.stored|..], if k == 0 then s.latestBlock else d.endBlocks[k - 1])
  {
    if k > 0 {
      StoreRangesChained(s, d, k - 1);
      var before := StoreRanges(s, d, k - 1).stored;
      var after := StoreRanges(s, d, k).stored;
      assert after[|s.stored|..][..|after| - |s.stored| - 1] == before[|s.stored|..];
    }
  }

  /** Chains join. */
  lemma {:induction false} ChainedJoin(a: U32, x: seq<RangeStored>, b: U32, y: seq<RangeStored>, d: U32)
    requires Chained(a, x, b) && Chained(b, y, d)
    ensures Chained(a, x + y, d)
    decreases |y|
  {
    if y == [] {
      assert x + y == x;
    } else {
      var last := |y| - 1;
      ChainedJoin(a, x, b, y[..last], y[last].start);
      assert (x + y)[..|x + y| - 1] == x + y[..last];
    }
  }

  /** From any state, over any calls but a new genesis: the ranges that are stored lead, each from the end
      of the one before, from the latest block at the start to the latest block at the end. */
  lemma {:induction false} RangesChain(c: Crypto, s: State, actions: seq<Action>)
    requires forall a :: a in actions ==> !a.GenesisCall?
    ensures var t := Run(c, s, actions);
            s.stored <= t.stored && Chained(s.latestBlock, t.stored[|s.stored|..], t.latestBlock)
    decreases |actions|
  {
    hide Step;
    if actions != [] {
      var last := |actions| - 1;
      RangesChain(c, s, actions[..last]);
      var m := Run(c, s, actions[..last]);
      var t := Run(c, s, actions);
      StepChains(c, m, actions[last]);
      ChainedJoin(s.latestBlock, m.stored[|s.stored|..], m.latestBlock, t.stored[|m.stored|..], t.latestBlock);
      assert t.stored[|s.stored|..] == m.stored[|s.stored|..] + t.stored[|m.stored|..];
    } else {
      assert s.stored[|s.stored|..] == [];
    }
  }

  lemma StepChains(c: Crypto, s: State, a: Action)
    requires !a.GenesisCall?
    ensures var t := Step(c, s, a);
            s.stored <= t.stored && Chained(s.latestBlock, t.stored[|s.stored|..], t.latestBlock)
  {
    hide HeaderRangeOf, RotateOf;
    var t := Step(c, s, a);
    if a.RangesCall? && UpdateBlockRangeData(s, a.data).Done? {
      StoreRangesChained(s, a.data, |a.data.startBlocks|);
    } else if a.CommitCall? && CommitHeaderRange(c, s, a.setId, a.target, a.range).Done? {
      var r := t.stored[|s.stored|..];
      assert r == [t.stored[|s.stored|]] && r[..0] == [];
      assert Chained(s.latestBlock, r[..0], s.latestBlock);
    } else {
      assert t.stored[|s.stored|..] == [];
    }
  }
}
