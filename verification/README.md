# VectorX, modelled and proved in Dafny

VectorX is a zero-knowledge light client for the Avail chain. Provers hint headers, votes and authority
sets; circuits check them; a contract accumulates what has been checked; an operator decides what to prove
next. This project models those parts and proves what they guarantee together.

- `Bytes.dfy`: bytes, wrapping 32-bit arithmetic, hash functions and signature verification as parameters.
- `Scale.dfy`: the bit-sum decoder of compact integers against the SCALE codec ("compact/general integers").
- `Headers.dfy`: header encoding, padding, hashing and decoding.
- `Merkle.dfy`: the host's level-by-level root, the recursive root, and the circuit's root with disabled leaves.
- `Subchain.dfy`: one map job with its masked loop, the reduce step, the balanced fold, and the flat closed form they equal.
- `SubchainTheorems.dfy`: exact acceptance of a subchain, completeness with the honest hint, binding.
- `Justification.dfy`: authority set commitment, precommit, threshold, quorum intersection, host padding.
- `Rotate.dfy`, `HeaderRotate.dfy`: the parser of a scheduled change, the host that locates it, and the rotate circuit.
- `Contract.dfy`: the contract as a class, its functions as a state machine, and its range log.
- `LightClient.dfy`: safety over all runs, write-once storage, when two runs agree and what explains it if they do not, success of honest proofs.
- `Operator.dfy`: the binary search and the choice of the next request.
- `FillBlockRange.dfy`: the range planner against the contract's checks, and the host's commitments against the circuit's.

## How to read the model

**Circuits.** A circuit is a function or method of its public inputs and of arbitrary hinted values; it returns
nothing when some assertion of the circuit fails. `U32` arithmetic wraps as in the circuit. Loops of the source
are loops here, and each is proved equal to a closed form; the theorems are about the closed forms.

**Primitives.** SHA-256, BLAKE2b and Ed25519 verification are parameters of every theorem (`Crypto`), so each
holds for all of them. Injectivity is never assumed; binding is stated as "equal, or here is a colliding pair".

**Library gadgets, as assumed here.** The hash of a variable-length array is the hash of its first `size` bytes;
`get_fixed_subarray` is an in-bounds slice, and a slice out of bounds cannot be proved;
`get_root_from_hashed_leaves` treats leaves from the enabled count on as zero; `mapreduce` is the balanced fold
in order; the conditional signature check holds when every flagged signature verifies.

**Contract.** `verifiedCall` is the circuit relation: it returns the circuit's output for the prover's hinted
values and reverts if there is none. A revert restores the whole state. Ranges are keyed by the pair of their
bounds, where the contract hashes the pair. The log of `HeaderRangeCommitmentStored` events is part of the state.

**What came out differently from what one might expect.**

- Soundness of the subchain needs no bound on block numbers. When a batch would start past 2^32 - 1 the circuit
  rejects everything; completeness then fails, and `SubchainComplete` says exactly when.
- A hash binds a header's fields only if they lie inside the hashed bytes (`FieldsBoundIff`); a header of size 0
  has the same hash whatever it says. Binding and fork theorems give equal bytes for chains whose links are hashed,
  and equal fields where these are hashed, as in honest headers (`HonestFieldsHashed`).
- A rotation reads the padded header, and the justification covers its hashed bytes only. These bind the keys
  exactly when the last key ends within them (`KeysBoundIff`), and the whole log exactly when the log does
  (`LogBoundIff`); `UnhashedLogIsUnbound` shows that nothing binds a log behind them, and `HostLogHashed` that the
  host's data meets the condition. The circuit does not compare the position with the header's size.
- The circuit alone forces a quorum of the committed set exactly when the number of authorities modulo 2^31 fills
  the 300 slots (`QuorumForcedIff`). The votes it forces for any other number, whatever is hinted, are exactly those
  of `AcceptedVotes` and `SufficientVotes`; a quorum then follows for the host's shape (`AcceptedQuorum`).
- Two votes for different blocks show members voting twice only if the flags past the end of the set leave that
  forced. Whatever is hinted, it is forced exactly when the least votes of both do not fit side by side into the
  set, which is from 257 authorities on (`DoubleVoteForcedIff`, with the other case in `DisjointVotes`); in the
  host's shape it always is, for more than a third of the set (`HostShape`).
- Target blocks that are not later than the trusted one are excluded by the contract; the circuit alone would
  accept target 0, and later ones on top of block 2^32 - 1 (`TargetNotLater`).
- The host refuses fewer than two thirds, the circuit demands strictly more than two thirds; they differ exactly
  at two thirds (`HonestJustification`).
- The position that the host reports is one byte before the scheduled change only for fewer than 64 digest logs
  (`RotatePositions`). The circuit accepts the host's data exactly then, and when its largest authority subarray
  still fits in the padded header (`RotateRoundTrip`).

## Model

| member | source | states |
|---|---|---|
| Scale.BitSums | circuits/builder/decoder.rs:43-79 | each slice of little-endian bits that the decoder sums is the byte-level value divided by four, within its mode's range |
| Scale.DecodeIffPrefix | circuits/builder/decoder.rs:39-92 | the decoder returns (n, mode) for a five-byte window exactly when the window starts with n written in that mode |
| Scale.DecodeBytes | circuits/builder/decoder.rs:39-92 | the decoder in numbers: which of the bytes each mode reads, low-order byte first, divided by four, and when it rejects |
| Scale.CompactRoundTrip | circuits/builder/decoder.rs:39-103 | for every u32 and any following bytes, decoding the canonical encoding gives the value back, and the byte length by mode is the encoding's length |
| Headers.HeaderRoundTrip | circuits/builder/decoder.rs:104-157 | decoding a zero-padded encoded header returns, field by field, its number, parent hash, state root at the mode's offset, last 32 bytes as data root, and the hash of exactly its bytes |
| Headers.EmptyHeaderReads | circuits/builder/decoder.rs:132-149 | the hint's empty filler header is readable: block 0 with zero fields and the hash of the empty string |
| Headers.EqualHashes | circuits/builder/header.rs:13-20 | two readable headers with one hash agree in bytes and in all decoded fields, or the bytes collide, if the fields are hashed |
| Headers.FieldsBoundIff | circuits/builder/decoder.rs:104-157 | the hashed bytes of a readable header determine all decoded fields if and only if the fields lie inside them |
| Headers.HonestFieldsHashed | circuits/builder/subchain_verification.rs:348-364 | every padded honest header has its decoded fields inside the hashed bytes |
| Merkle.GetMerkleRoot | circuits/input/mod.rs:464-489 | the padding and halving loops terminate and return the recursive split-in-half root of the leaves zero-padded to the next power of two; every leaf, and every zero behind them, climbs to it by hashing with one sibling per bit of its index, left or right; no leaves, empty result |
| Merkle.GetMerkleRootCommitment | circuits/input/mod.rs:493-528 | the host's commitment is the zero-padded root at the tree size, and it fails exactly for a tree size that is no power of two or a range larger than the tree |
| Merkle.OneBitIffPow2 | circuits/input/mod.rs:469-473 | one bit set is the same as being one's own next power of two |
| Merkle.LevelUpKeepsRoot | circuits/input/mod.rs:475-486 | hashing one level of neighbours keeps the recursive root |
| Merkle.PaddedRootSplits | circuits/builder/subchain_verification.rs:266-274 | a padded root is the hash of the padded roots of its halves, wherever the leaves end |
| Merkle.PaddedRootClimbs | circuits/input/mod.rs:475-486 | every slot of a padded root, leaf or zero, has a path of siblings to it: at each level the hash of node and sibling, or of sibling and node, by the index's bit |
| Subchain.MapBatch | circuits/builder/subchain_verification.rs:81-232 | the masked loop of a map job with its five accumulators and all its checks equals the closed form over the batch; the batch-end check never fails on its own |
| Subchain.LoopStep | circuits/builder/subchain_verification.rs:148-200 | one iteration keeps the relation between the accumulators and the active blocks |
| Subchain.NodeSplit | circuits/builder/subchain_verification.rs:233-289 | the reduce step on two halves yields the node of the whole: end values, counts and both roots |
| Subchain.ActiveSplit | circuits/builder/subchain_verification.rs:246-257 | a range is numbered and linked exactly when both halves are and the reduce step's check passes |
| Subchain.RunMapReduce | circuits/builder/subchain_verification.rs:77-290 | running every map job by its loop and folding pairwise computes the specified tree |
| Subchain.MapReduceIsFlat | circuits/builder/subchain_verification.rs:77-290 | the whole tree, including partly and wholly disabled batches, equals the flat check and the flat padded roots over all headers, as long as no batch starts past the largest block number within the tree |
| SubchainTheorems.VerifySubchain | circuits/builder/subchain_verification.rs:56-303 | the circuit built for a maximal number of headers, as a method on the headers of all its map jobs: fold, trusted parent, target number, outputs |
| SubchainTheorems.WrappedBatchWins | circuits/builder/subchain_verification.rs:93-98 | if the last batch's start wraps, the fold ends with its wrapped end block |
| SubchainTheorems.SubchainExact | circuits/builder/subchain_verification.rs:56-303 | for every hint and any later target: accepted with an output if and only if no batch start wraps, exactly target - trusted headers fit the tree, form a numbered and linked chain from the trusted hash, and the output is the last hash with the padded roots of exactly those headers |
| SubchainTheorems.SubchainMeans | circuits/builder/subchain_verification.rs:144-303 | the same spelled out over the readings: numbers, parent hashes, the target hash, and for the lists of exactly the range's state roots and data roots the two padded roots |
| SubchainTheorems.SubchainClimbs | circuits/builder/subchain_verification.rs:190-216 | every slot of the two trees climbs to the circuit's outputs: the range's state roots to the one, its data roots to the other, in order, zeros behind |
| SubchainTheorems.TargetNotLater | circuits/builder/subchain_verification.rs:136-142 | for a target that is not later, and a trusted block below 2^32 - (tree size) + 7 so that no batch start wraps, acceptance means target 0 and the trusted hash as first parent, nothing else; for trusted block 2^32 - 1, acceptance means a linked range from block 0 up to the target that fits the tree, with the trusted hash as first parent |
| SubchainTheorems.TreeDepthOfPow2 | circuits/builder/subchain_verification.rs:71-75 | a circuit for a power of two of headers, at least a batch, has a tree of exactly that many leaves; so every depth of at least a batch is some circuit's |
| SubchainTheorems.TreeHoldsJobs | circuits/builder/subchain_verification.rs:71-75 | the tree has eight leaves for each map job, and the number of map jobs is the least power of two that holds the whole batches |
| SubchainTheorems.HeaderRangeFetcher | circuits/builder/subchain_verification.rs:318-377 | the hint supplies the padded headers of the batch up to the maximal block, then empty headers, and fails exactly on an oversized header |
| SubchainTheorems.SubchainComplete | circuits/builder/subchain_verification.rs:318-377 | the honest hint for a range that fits the tree is accepted, with the chain's hash and padded roots, exactly when no needed batch runs past the largest block number |
| SubchainTheorems.ChainBinding | circuits/builder/subchain_verification.rs:163-177 | two chains of one length that end in one hash, where every header but the first has hashed bytes, have the same bytes, the same decoded fields wherever these are hashed, and the same parent if the first header has hashed bytes - or yield a BLAKE2b collision |
| SubchainTheorems.UnhashedLinkIsUnbound | circuits/builder/subchain_verification.rs:163-177 | the condition on the links is needed: any chain with an empty header behind its first one has another chain with the same last hash, number and parent but other bytes |
| SubchainTheorems.SubchainBinding | circuits/builder/subchain_verification.rs:148-303 | two accepted subchains with the same trusted block, target and target hash, whose links are hashed, have the same header bytes and the same decoded fields wherever hashed, the same trusted hash if the first header has hashed bytes, and the same outputs if all fields are hashed - or yield a BLAKE2b collision |
| Justification.ComputeAuthoritySetHash | circuits/input/mod.rs:250-260 | the host's loop computes the chained hash of the list: the hash of the first key, then of each hash followed by the next key |
| Justification.ComputeAuthoritySetCommitment | circuits/builder/justification.rs:127-162 | the masked loop returns the chained hash of the first n keys whatever the padding keys are, of all keys if n is larger - the hash of the first key, then of each hash followed by the next key - and rejects exactly n = 0 |
| Justification.ChainHashBinding | circuits/builder/justification.rs:138-161 | equal commitments of two non-empty lists of any lengths mean equal lists or a concrete SHA-256 collision |
| Justification.ChainsToIff | circuits/input/mod.rs:250-260 | the chained hash is the one and only end of the trace that starts with the hash of the first key and hashes each hash followed by the next key |
| Justification.VerifyVotingThreshold | circuits/builder/justification.rs:164-186 | the loop compares the number of flags over all slots with the threshold, modulo 2^32 |
| Justification.CountedVotes | circuits/builder/justification.rs:173-179 | the count over all slots is the members' votes plus those past the end of the set, and the latter are none exactly when no flag is set there |
| Justification.PrecommitIff | circuits/builder/decoder.rs:159-200 | a 53-byte message decodes to a precommit exactly when it is that precommit's encoding |
| Justification.PrecommitBytes | circuits/builder/decoder.rs:159-200 | which bytes of the message are the tag, block hash, number, round and set id, low-order byte first |
| Justification.VerifySimpleJustification | circuits/builder/justification.rs:195-257 | acceptance is: commitment matches, message is for this block, hash and set, all flagged signatures verify, strictly more than two thirds |
| Justification.JustifiesIff | circuits/builder/justification.rs:195-257 | acceptance spelled out: the set hash is the trace's end, the message's bytes carry block hash, number and set id, every flag of all 300 slots has a valid signature, and three times the number of flagged slots exceeds twice the number of authorities modulo 2^31 |
| Justification.QuorumIntersection | circuits/builder/justification.rs:245-256 | two sets of authorities share at least what they exceed the whole by, and two of more than two thirds of n share more than n/3 |
| Justification.ThresholdIsTwoThirds | circuits/builder/justification.rs:180-185 | the wrapping comparison is the real one, with the number of authorities taken modulo 2^31 |
| Justification.AcceptedVotes | circuits/builder/justification.rs:195-257 | for every accepted justification, whatever is hinted: the flagged members have valid signatures, and their number is at least the least whose triple exceeds twice the number of authorities (modulo 2^31) less three times the flags past the end - for up to 300 authorities, at least the least whose triple exceeds 5n - 900 |
| Justification.SufficientVotes | circuits/builder/justification.rs:164-257 | that bound is attained: once some key, a member's or not, has signed and can fill the slots past the end, a justification with just these members' flags is accepted if and only if they reach the bound |
| Justification.QuorumForcedIff | circuits/builder/justification.rs:164-257 | if all members have signed, then every accepted justification by the set carries more than two thirds of it if and only if the number of authorities modulo 2^31 is at least 300; otherwise one member's repeated signature makes up for others |
| Justification.AcceptedQuorum | circuits/builder/justification.rs:195-257 | the flagged signers of an accepted justification of the host's shape are more than two thirds of the committed set |
| Justification.ForkNeedsEvidence | circuits/builder/justification.rs:164-257 | two accepted justifications of one round, block number and set hash, of any shape, are for one block hash, or show a SHA-256 collision, or are different votes of one set and show members validly signing both (at least one, and as many as are forced), or carry so many flags past the end of the set that no double vote is forced |
| Justification.HostShape | circuits/builder/justification.rs:164-186 | for two justifications of the host's shape by one set, more than a third of the set is forced to have signed both |
| Justification.UnforcedNeedsFlags | circuits/builder/justification.rs:164-186 | that two different votes leave no double vote forced takes a flag past the end of the set, or a number of authorities from 2^31 on |
| Justification.FewDoubleSignersAgree | circuits/builder/justification.rs:195-257 | if at most a third of the set signs both of two different precommits of a round, two accepted justifications of the host's shape for one block number are for one block hash, or show a SHA-256 collision |
| Justification.FewIffOneVote | circuits/builder/justification.rs:195-257 | accepted justifications of the host's shape by one set meet that condition if and only if they are for one precommit: different ones always show more than a third |
| Justification.OneMessageIsFew | circuits/input/mod.rs:800-828 | the host's padded justifications of one message, by any signers, meet that condition |
| Justification.DoubleVoteForcedIff | circuits/builder/justification.rs:164-257 | if the members and some key have signed both precommits, then all pairs of accepted justifications of the two by this set share a signing member if and only if the least votes of both exceed the set together; for n up to 300, if and only if n is at least 257 |
| Justification.DisjointVotes | circuits/builder/justification.rs:164-257 | otherwise, as an input: two accepted justifications with no member flagged in both |
| Justification.GetJustificationData | circuits/input/mod.rs:694-755 | flag i is set exactly when authority i has signed, with its signature, and the voting weight is the number of flags |
| Justification.GetJustificationFromBlock | circuits/input/mod.rs:800-828 | the host refuses less than two thirds and otherwise pads every list to the maximal set size |
| Justification.HonestJustification | circuits/input/mod.rs:789-829 | padding keeps the vote count, and the circuit accepts honest data exactly for strictly more than two thirds |
| Rotate.VerifyAuthorities | circuits/builder/rotate.rs:236-275 | the masked loop checks exactly the first n entries and, after the last, the delay |
| Rotate.VerifyEpochEndHeader | circuits/builder/rotate.rs:169-276 | the parser run at a position equals its closed form; every access to the prefix is in bounds |
| Rotate.EntriesIff | circuits/builder/rotate.rs:245-258 | the bytes are the printed entries exactly when key and weight match at each 40-byte stride |
| Rotate.PrefixIff | circuits/builder/rotate.rs:74-167 | the prefix checks succeed, with the right length, exactly on a printed prefix |
| Rotate.EpochEndExact | circuits/builder/rotate.rs:74-276 | for 1 <= n <= MAX: accepted at a position if and only if one byte later stands a FRNK consensus log with some compact length, flag 1, compact n, exactly these keys in order with weight 1, and zero delay, with room for the largest subarray |
| Rotate.EpochEndBytes | circuits/builder/rotate.rs:74-276 | acceptance spelled out byte by byte, for any number of authorities: flag 4, "FRNK", a decodable length, flag 1, n as a compact integer, each key followed by 1 and seven zeros, four zeros, and room for 12004 bytes |
| Rotate.EntriesBytes | circuits/builder/rotate.rs:245-258 | printed entries byte by byte: at each 40-byte stride the key, 1 and seven zeros |
| Rotate.LongEpochEndExact | circuits/builder/rotate.rs:74-276 | for n above MAX: accepted at a position if and only if one byte later stands the same prefix with compact n and as many entries as there are slots; no delay is checked |
| Rotate.SameKeysOnly | circuits/builder/rotate.rs:169-276 | at one position, two headers with the same bytes up to the last key are accepted with the same number of authorities and the same keys only |
| Rotate.ListedKeysOnly | circuits/builder/rotate.rs:169-276 | where a printed log stands, no other keys are accepted, and the checked log ends where the printed one does |
| Rotate.LogBoundIff | circuits/builder/rotate.rs:200-276 | an accepted log ends within the hashed bytes if and only if every header with the same hashed bytes is accepted with the same keys |
| Rotate.KeysBoundIff | circuits/builder/rotate.rs:200-276 | the last key of an accepted log ends within the hashed bytes if and only if every header with the same hashed bytes that is accepted at the position is accepted with the same number of authorities and keys |
| Rotate.UnhashedLogIsFree | circuits/builder/rotate.rs:200-276 | at a position behind the hashed bytes with enough room, every list of 1 to 300 keys stands in some header with the same hashed bytes |
| HeaderRotate.CheckScheduledChange | circuits/input/mod.rs:889-920 | the host's chunk loop accepts exactly values with the flag, the expected authorities in whole entries, and a zero delay |
| HeaderRotate.HostAcceptsIff | circuits/input/mod.rs:889-920 | the accepted values are exactly 1, as many bytes as the expected number's encoding has, the entries of some first expected authorities, four zeros, and fewer than 36 further bytes |
| HeaderRotate.GetHeaderRotate | circuits/input/mod.rs:835-968 | the host finds the first FRNK log, fails exactly when a check fails or there is none, and reports positions, the keys padded with the dummy key, and hash |
| HeaderRotate.LogStandsAt | circuits/input/mod.rs:876-929 | where a log stands in the encoded header |
| HeaderRotate.PrintedIsAccepted | circuits/input/mod.rs:889-920 | the host's checks pass on a printed scheduled change |
| HeaderRotate.RotatePositions | circuits/input/mod.rs:868-968 | the log lies within the hashed bytes; the reported end is one byte plus the log's length behind the reported start, and that start is one byte before where the log stands exactly for fewer than 64 logs |
| HeaderRotate.RotateRoundTrip | circuits/input/mod.rs:868-968 | the circuit accepts the data of the host's search exactly for fewer than 64 logs and when its largest authority subarray fits behind the log's prefix |
| HeaderRotate.HostLogHashed | circuits/input/mod.rs:868-968 | the log that is accepted from the host's data ends at the reported end position, within the hashed bytes |
| HeaderRotate.RunRotate | circuits/builder/rotate.rs:278-323 | the rotate circuit as a method |
| HeaderRotate.RotationIsListed | circuits/builder/rotate.rs:278-323 | for every number of authorities, an accepted rotation outputs the host hash of exactly the keys (of all slots, beyond 300) that stand in the log at its position in the padded header; the current set has justified that header's hash, and the hashed bytes bind the keys if and only if the last key ends within them |
| HeaderRotate.UnhashedLogIsUnbound | circuits/builder/rotate.rs:200-226 | the other half as an input: with a justified header that leaves room behind its hashed bytes, the circuit outputs the hash of any 1 to 300 keys for some header with these hashed bytes |
| HeaderRotate.RotationBinding | circuits/builder/rotate.rs:278-323 | two accepted rotations at one position of headers with one hash, one of them with its keys hashed, have the same keys and output, or yield a BLAKE2b collision |
| HeaderRotate.RotationFollowsHeader | circuits/builder/rotate.rs:278-323 | an accepted rotation with the hash of an honest epoch end header, at the host's position, outputs the hash of the chain's new set whatever else is hinted, and the header has fewer than 64 logs - or it yields a BLAKE2b collision |
| HeaderRotate.RotationComplete | circuits/rotate.rs:27-64 | with a justification of the epoch end header, the host's data makes the circuit output the hash of the chain's new set exactly for fewer than 64 logs and when the largest subarray fits, and nothing otherwise |
| HeaderRotate.AnyListedChange | circuits/builder/rotate.rs:278-323 | every scheduled change that a justified header lists, not the first one only, is accepted at its own position within the hashed bytes, if there is room |
| HeaderRotate.TwoListedChanges | circuits/builder/rotate.rs:278-323 | so one justified header with two scheduled changes has two accepted positions and two outputs |
| Contract.VectorX.constructor | contracts/src/VectorX.sol:71-84 | the initial state, field by field |
| Contract.VectorX.SetGenesisState | contracts/src/VectorX.sol:108-119 | a new genesis changes one header hash, one set hash and the latest ids, field by field nothing else |
| Contract.VectorX.SetBlockRangeData | contracts/src/VectorX.sol:122-164 | the loop stores all ranges and one set hash or, on any failing check, nothing |
| Contract.VectorX.Commit | contracts/src/VectorX.sol:224-290 | the new state or the exact error with the old state, although a write precedes a check; it succeeds if and only if the contract is not frozen, knows the latest header and the set, the set is not old, the target is later, and the circuit accepts |
| Contract.VectorX.Rotate | contracts/src/VectorX.sol:332-371 | the new state or the exact error with the old state; it succeeds if and only if the contract is not frozen, knows the set but not the next one, and the circuit accepts |
| Contract.CommitIff | contracts/src/VectorX.sol:224-290 | each error's exact condition, success's exact condition, and every field after success |
| Contract.RotateIff | contracts/src/VectorX.sol:332-371 | each error's exact condition, success's exact condition, and every field after success |
| Contract.FrozenRun | contracts/src/VectorX.sol:224-230 | over any run of a frozen contract without an unfreeze, commits and rotations change nothing: the run ends where its other calls alone lead |
| Contract.RangesFrame | contracts/src/VectorX.sol:122-164 | storing ranges succeeds exactly for non-empty arrays of one length that lead on from the latest block without gaps; it writes one set hash and keeps all others, and changes no entry off the given ranges |
| Contract.PlannedRunKeeps | contracts/src/VectorX.sol:122-371 | over commits, rotations, administration and ascending planned ranges in any order, no stored header hash or commitment changes, the latest block never goes back, and a stored set hash changes only where a stored range's call gives that set |
| Contract.StoreRangesChained | contracts/src/VectorX.sol:138-160 | ranges stored in one call lead from the latest block to the last end |
| Contract.RangesChain | contracts/src/VectorX.sol:122-290 | over any calls but a new genesis, from any state, every stored range starts where the one before ended and the latest block is the last end |
| LightClient.CommitShows | contracts/src/VectorX.sol:224-290 | what a successful commit proves: the contract is not frozen and knows the latest header; what the committed headers are and what is stored |
| LightClient.CommitMeans | contracts/src/VectorX.sol:224-290 | the stored commitments are the padded roots of exactly the lists of state roots and data roots read from the range's headers, and every slot climbs to them |
| LightClient.CommitKeepsSafe | contracts/src/VectorX.sol:224-290 | a commit extends the safe history |
| LightClient.RotatesAtTop | contracts/src/VectorX.sol:332-350 | a rotation can succeed at the highest stored set id only |
| LightClient.RotateKeepsSafe | contracts/src/VectorX.sol:332-371 | a rotation extends the safe history |
| LightClient.RunSafe | contracts/src/VectorX.sol:224-371 | in every state reached from initialization by any commits, rotations, freezes and circuit changes with any proofs: stored header hashes lie on one linked, consecutively numbered chain; ranges tile it; each commitment is the padded root of exactly its range; the circuit has accepted a justification of each end block by a stored set (how many of the set have signed: `CommittedVotes`); each stored set comes from the genesis set by accepted rotations |
| LightClient.HistoryMeans | circuits/builder/subchain_verification.rs:148-180 | the headers behind a safe state, spelled out: all can be read, header k has number genesis + 1 + k and as parent hash the hash of the one before, the first that of genesis |
| LightClient.CommittedRangeMeans | contracts/src/VectorX.sol:262-289 | for each committed range over these headers: the stored hash is that of the last header's hashed bytes, and every slot of the stored trees climbs to the commitments - the range's state roots and data roots in order, zeros behind |
| LightClient.CommittedVotes | contracts/src/VectorX.sol:224-290 | each committed end block has a precommit signed by members of the committed stored set, by at least the exact bound of the circuit, and by more than two thirds of the set if the justification has the host's shape or the set fills the 300 slots |
| LightClient.RunGrows | contracts/src/VectorX.sol:236-289 | over such runs no stored header hash, commitment or non-zero set hash ever changes, and latest block and set id never decrease |
| LightClient.AuthorityInterval | contracts/src/VectorX.sol:332-365 | the ids with a stored set are exactly an interval from the genesis id on |
| LightClient.StoredSetIsListed | contracts/src/VectorX.sol:357-365 | every later stored set is the hash of exactly the keys that stand in the log at the rotation's position in a padded header; the set before has justified that header's hash, and the hashed bytes bind the keys if and only if the last key ends within them |
| LightClient.JustifiedChainsAgree | circuits/header_range.rs:26-59 | two header chains of one length from one block, with hashed links, whose ends one set has justified in one round are equal byte by byte and in their hashed fields, or show a hash collision or different votes that explain the fork |
| LightClient.RotationsAgree | circuits/rotate.rs:27-64 | two accepted rotations from one set, reading one position of one epoch end block's header justified in one round, with hashed keys, are to the same set, or show a hash collision, or different votes that explain the fork: members of the set voting twice, or flags past its end that leave that unforced |
| LightClient.SetsAgree | contracts/src/VectorX.sol:332-371 | by induction over the ids, two runs from one genesis with such rotations store the same sets, or show a hash collision or different votes that explain the fork in one of them |
| LightClient.NoFork | circuits/header_range.rs:26-59 | two runs from one genesis that commit one block number under one set id and round, and have rotated up to that id from the same positions of the same epoch end blocks with hashed keys, hold the same header bytes up to it and the same fields if hashed, or show a hash collision, or different votes of one set that explain the fork: members voting twice, or flags past its end that leave that unforced |
| LightClient.NoForkIfFewVoteTwice | circuits/header_range.rs:26-59 | for justifications of the host's shape, where at most a third of the set has signed both wherever the two runs' votes differ, such runs hold the same headers or show a hash collision |
| LightClient.HonestCommitSucceeds | contracts/src/VectorX.sol:224-290 | an honest range commits exactly when more than two thirds have signed and no needed batch runs past the largest block number, and stores the chain's own hash and, in the right trees and order, its state roots and data roots |
| LightClient.HonestRotationSucceeds | contracts/src/VectorX.sol:332-371 | on an unfrozen contract that knows the set but not the next one, an honest rotation succeeds exactly for fewer than 64 logs and when the largest subarray fits, and stores the chained hash of the chain's new set |
| LightClient.AdmissibleRequestCommits | bin/vectorx.rs:213-282 | for the contract's latest block and tree size, an honest proof for an admissible request of the operator commits exactly when strictly more than two thirds of the set have signed |
| Operator.LastJustifiedBlock | circuits/input/mod.rs:417-451 | for nondecreasing set ids and a head below 2^31 the search terminates with the unique end of the epoch or 0, and leaves the u32 range exactly when block 0 is already past the next epoch |
| Operator.ScanUp | bin/vectorx.rs:437-458 | the upward scan terminates with the first justified block in reach, exactly when there is one, and reports none exactly when all blocks in reach are known and not justified |
| Operator.FindBlockToStepTo | bin/vectorx.rs:390-459 | the step is the end of the epoch when that is in reach; otherwise, for the last multiple m of the interval that is within reach and known, and later than the latest block, it is m for a dummy operator and else the first justified block from m on - and none, exactly when m is not later or all blocks from m on are known and not justified |
| Operator.EpochEndBetween | bin/vectorx.rs:213-282 | with set ids rising by at most one, a change of set contains the end of the epoch |
| Operator.FindAndRequestHeaderRange | bin/vectorx.rs:213-282 | for regular set ids: the request is exactly the step above under the set of the block before the latest, or under the next set if the latest block ends the epoch and the next set is stored; no request is issued exactly when that set is missing or there is no step; a requested block is later, within a tree size that does not run past the largest block number, known to the chain and of the requested set |
| FillBlockRange.GetBlockRangeData | bin/fill_block_range.rs:48-86 | the stepped loop yields non-empty lists of equal length that cover the range without gaps, in ranges of the tree size but for the last, with the chain's hash and commitments; it succeeds exactly when the tree size is a power of two and the start of the last range, a whole number of steps on, plus the tree size stays below 2^32 |
| FillBlockRange.PlanMeans | bin/fill_block_range.rs:61-72 | range i of a plan starts i tree sizes on and ends one further or at the end, has the hash of its last block, and every slot of its two trees climbs to the commitments: the chain's state roots and data roots of exactly its blocks |
| FillBlockRange.PlannerMeetsContract | contracts/src/VectorX.sol:131-163 | a plan from the latest block ascends and passes every check of the contract, and every range ends up stored as planned |
| FillBlockRange.HostAgreesWithCircuit | circuits/input/mod.rs:493-528 | for an accepted range the circuit's output equals the host's header hash and commitments over the chain's state roots and data roots |

## Left out

- Justification.ForkNeedsEvidence: takes one common round as a hypothesis; agreement across rounds is the consensus protocol's business.
- SubchainTheorems.TargetNotLater: not stated for trusted blocks below 2^32 - 1 from which some, but not all, batches start past the largest block number; the contract excludes targets that are not later.
- Rotate.EpochEndExact: the claimed message length is skipped by the circuit, so it is existentially quantified.
- LightClient.NoFork: the two runs' rotations must read the same position; a header that lists two scheduled changes leads to either set (`TwoListedChanges`).
- Operator.LastJustifiedBlock: the search is exact below a head of 2^31; above it the sum of the bounds may leave the u32 range. The target id plus one is not bounded by 64 bits.
- Circuit internals (gates, field constraints, hash and signature gadgets, hint registries, serializers).
- RPC, Redis, environment, logging, proof submission; stored justifications read back from Redis.
- The gateway, upgrades, roles, and the request functions that only forward call data.
- `find_and_request_rotate`, `find_justifications_in_range`, the fetching of headers in groups of 200, the event and indexer programs, the dummy circuits.
