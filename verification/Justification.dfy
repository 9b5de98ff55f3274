/** GRANDPA justifications: the authority set commitment, the signed precommit, the voting threshold,
    and what two accepted justifications have in common. */
module Justification {
  import opened Bytes

  const MAX_AUTHORITY_SET_SIZE := 300
  const ENCODED_PRECOMMIT_LENGTH := 53

  type Signature = s: seq<Byte> | |s| == 64 witness Zeros(64)

  // ----- the authority set commitment -----

  /** The chained hash of a list of keys: hash the first, then repeatedly the hash so far and the next. */
  function ChainHash(h: Hasher, keys: seq<Bytes32>): Bytes32
    requires keys != []
  {
    var last := |keys| - 1;
    if last == 0 then h(keys[0]) else HashPair(h, ChainHash(h, keys[..last]), keys[last])
  }

  /** The hash is reached from the first key's by hashing it with one key after the other. */
  ghost predicate ChainsTo(h: Hasher, keys: seq<Bytes32>, hash: seq<Byte>) {
    exists t: seq<seq<Byte>> ::
      && |t| == |keys| > 0 && t[0] == h(keys[0]) && t[|keys| - 1] == hash
      && forall i :: 1 <= i < |keys| ==> t[i] == h(t[i - 1] + keys[i])
  }

  lemma {:induction false} ChainsToIff(h: Hasher, keys: seq<Bytes32>, hash: seq<Byte>)
    requires keys != []
    ensures ChainsTo(h, keys, hash) <==> hash == ChainHash(h, keys)
  {
    var t := ChainTrace(h, keys);
    if ChainsTo(h, keys, hash) {
      var u: seq<seq<Byte>> :|
        && |u| == |keys| > 0 && u[0] == h(keys[0]) && u[|keys| - 1] == hash
        && forall i :: 1 <= i < |keys| ==> u[i] == h(u[i - 1] + keys[i]);
      for i := 0 to |keys|
        invariant forall k :: 0 <= k < i ==> u[k] == t[k]
      {
        assert i > 0 ==> u[i - 1] == t[i - 1];
      }
    }
  }

  lemma {:induction false} ChainTrace(h: Hasher, keys: seq<Bytes32>) returns (t: seq<seq<Byte>>)
    requires keys != []
    ensures |t| == |keys| && t[0] == h(keys[0]) && t[|keys| - 1] == ChainHash(h, keys)
    ensures forall i :: 1 <= i < |keys| ==> t[i] == h(t[i - 1] + keys[i])
    decreases |keys|
  {
    var last := |keys| - 1;
    t := [];
    if last > 0 {
      t := ChainTrace(h, keys[..last]);
    }
    t := t + [ChainHash(h, keys)];
  }

  /** The host's loop over the list, which starts from the empty string. */
  method ComputeAuthoritySetHash(h: Hasher, authorities: seq<Bytes32>) returns (hashSoFar: seq<Byte>)
    ensures authorities == [] ==> hashSoFar == []
    ensures authorities != [] ==> hashSoFar == ChainHash(h, authorities) && ChainsTo(h, authorities, hashSoFar)
  {
    hide ChainsTo;
    hashSoFar := [];
    for i := 0 to |authorities|
      invariant hashSoFar == if i == 0 then [] else ChainHash(h, authorities[..i])
    {
      assert authorities[..i + 1][..i] == authorities[..i];
      assert i == 0 ==> hashSoFar + authorities[i] == authorities[i];
      hashSoFar := h(hashSoFar + authorities[i]);
    }
    assert authorities[..|authorities|] == authorities;
    if authorities != [] {
      ChainsToIff(h, authorities, hashSoFar);
    }
  }

  /** What the circuit's masked loop commits to: the first `n` keys of a full array, all of them if `n`
      is larger. None when the assertion that there is an authority fails. */
  function Commitment(h: Hasher, n: nat, keys: seq<Bytes32>): Option<Bytes32>
    requires keys != []
  {
    if n == 0 then None else Some(ChainHash(h, keys[..Min(n, |keys|)]))
  }

  /** The circuit's loop runs over the whole array and stops updating once it has passed `n` keys. */
  method ComputeAuthoritySetCommitment(h: Hasher, n: nat, keys: seq<Bytes32>) returns (r: Option<Bytes32>)
    requires keys != []
    ensures r == Commitment(h, n, keys)
    ensures r.None? <==> n == 0
    ensures r.Some? ==> ChainsTo(h, keys[..Min(n, |keys|)], r.value)
  {
    hide ChainsTo;
    if n == 0 {
      return None;
    }
    var authorityEnabled := true;
    var commitmentSoFar := h(keys[0]);
    assert keys[..1] == [keys[0]];
    for i := 1 to |keys|
      invariant authorityEnabled <==> i <= n
      invariant commitmentSoFar == ChainHash(h, keys[..Min(n, i)])
    {
      var atEnd := i == n;
      authorityEnabled := authorityEnabled && !atEnd;
      var chainedHash := HashPair(h, commitmentSoFar, keys[i]);
      assert keys[..i + 1][..i] == keys[..i];
      commitmentSoFar := if authorityEnabled then chainedHash else commitmentSoFar;
    }
    ChainsToIff(h, keys[..Min(n, |keys|)], commitmentSoFar);
    r := Some(commitmentSoFar);
  }

  /** Equal chained hashes of two non-empty lists, of any lengths, mean equal lists or a collision. */
  lemma {:induction false} ChainHashBinding(h: Hasher, a: seq<Bytes32>, b: seq<Bytes32>)
      returns (x: seq<Byte>, y: seq<Byte>)
    requires a != [] && b != [] && ChainHash(h, a) == ChainHash(h, b)
    ensures a == b || Collision(h, x, y)
    decreases |a|
  {
    var la, lb := |a| - 1, |b| - 1;
    x := if la == 0 then a[0] else Join(ChainHash(h, a[..la]), a[la]);
    y := if lb == 0 then b[0] else Join(ChainHash(h, b[..lb]), b[lb]);
    if x == y {
      assert |x| == (if la == 0 then 32 else 64) && |y| == (if lb == 0 then 32 else 64);
      if la > 0 {
        assert x[32..] == y[32..] && x[..32] == y[..32];
        x, y := ChainHashBinding(h, a[..la], b[..lb]);
        assert a == a[..la] + [a[la]] && b == b[..lb] + [b[lb]];
      } else {
        assert a == [a[0]] && b == [b[0]];
      }
    }
  }

  // ----- the voting threshold -----

  function CountSigned(signed: seq<bool>): (n: nat)
    ensures n <= |signed|
  {
    if signed == [] then 0
    else CountSigned(signed[..|signed| - 1]) + if signed[|signed| - 1] then 1 else 0
  }

  method VerifyVotingThreshold(numActive: U32, signed: seq<bool>, numerator: U32, denominator: U32)
      returns (ok: bool)
    requires |signed| < TWO_32
    ensures ok <==> Mul32(CountSigned(signed), denominator) > Mul32(numActive, numerator)
  {
    var numSigned: U32 := 0;
    for i := 0 to |signed|
      invariant numSigned == CountSigned(signed[..i]) <= i
    {
      assert signed[..i + 1][..i] == signed[..i];
      numSigned := Add32(numSigned, if signed[i] then 1 else 0);
    }
    assert signed[..|signed|] == signed;
    ok := Mul32(numSigned, denominator) > Mul32(numActive, numerator);
  }

  ghost function Signers(signed: seq<bool>): set<nat> {
    set i: nat | i < |signed| && signed[i]
  }

  lemma {:induction false} CountIsSigners(signed: seq<bool>)
    ensures CountSigned(signed) == |Signers(signed)|
  {
    if signed != [] {
      var last := |signed| - 1;
      CountIsSigners(signed[..last]);
      assert Signers(signed) == Signers(signed[..last]) + if signed[last] then {last} else {};
    }
  }

  // ----- the signed message -----

  /** What a precommit signature is over. */
  datatype Precommit = Precommit(blockHash: Bytes32, blockNumber: U32, round: U64, setId: U64)

  /** The host's SCALE encoding of the signed message. */
  function EncodePrecommit(p: Precommit): (bs: seq<Byte>)
    ensures |bs| == ENCODED_PRECOMMIT_LENGTH
  {
    [1] + p.blockHash + LeBytes(p.blockNumber, 4) + LeBytes(p.round, 8) + LeBytes(p.setId, 8)
  }

  /** The circuit's decoder; None when the message is not a precommit. */
  function DecodePrecommit(bs: seq<Byte>): Option<Precommit>
    requires |bs| == ENCODED_PRECOMMIT_LENGTH
  {
    LeFits(bs[33..37], 4);
    LeFits(bs[37..45], 8);
    LeFits(bs[45..53], 8);
    if bs[0] != 1 then None
    else Some(Precommit(bs[1..33], LeValue(bs[33..37]), LeValue(bs[37..45]), LeValue(bs[45..53])))
  }

  lemma LeFits(bs: seq<Byte>, k: nat)
    requires |bs| == k && (k == 4 || k == 8)
    ensures LeValue(bs) < if k == 4 then TWO_32 else TWO_64
  {
    PowValues();
    LeValueBound(bs);
  }

  /** Decoding and encoding are inverse to each other: a message is accepted as a precommit exactly when
      it is that precommit's encoding. */
  lemma PrecommitIff(bs: seq<Byte>, p: Precommit)
    requires |bs| == ENCODED_PRECOMMIT_LENGTH
    ensures DecodePrecommit(bs) == Some(p) <==> bs == EncodePrecommit(p)
  {
    hide LeBytes, LeValue;
    PowValues();
    LeBytesIff(bs[33..37], p.blockNumber);
    LeBytesIff(bs[37..45], p.round);
    LeBytesIff(bs[45..53], p.setId);
    assert bs == [bs[0]] + bs[1..33] + bs[33..37] + bs[37..45] + bs[45..53];
    var e := EncodePrecommit(p);
    assert e[0] == 1 && e[1..33] == p.blockHash && e[33..37] == LeBytes(p.blockNumber, 4)
        && e[37..45] == LeBytes(p.round, 8) && e[45..53] == LeBytes(p.setId, 8);
  }

  // ----- the justification circuit -----

  /** The untrusted justification that a hint supplies, at the circuit's fixed sizes. */
  datatype JustificationData = JustificationData(
    precommit: seq<Byte>, signed: seq<bool>, signatures: seq<Signature>, pubkeys: seq<Bytes32>, numAuthorities: U32)

  predicate FixedSizes(j: JustificationData) {
    |j.precommit| == ENCODED_PRECOMMIT_LENGTH
    && |j.signed| == |j.signatures| == |j.pubkeys| == MAX_AUTHORITY_SET_SIZE
  }

  type HintedJustification = j: JustificationData | FixedSizes(j)
    witness JustificationData(Zeros(53), seq(300, _ => false), seq(300, _ => Zeros(64)), seq(300, _ => ZERO32), 0)

  /** Every flagged key has signed the message. */
  predicate SignaturesValid(c: Crypto, j: HintedJustification) {
    forall i :: 0 <= i < MAX_AUTHORITY_SET_SIZE && j.signed[i] ==> c.verify(j.pubkeys[i], j.precommit, j.signatures[i])
  }

  predicate Justifies(c: Crypto, blockNumber: U32, blockHash: Bytes32, setId: U64, setHash: Bytes32, j: HintedJustification) {
    && Commitment(c.sha256, j.numAuthorities, j.pubkeys) == Some(setHash)
    && DecodePrecommit(j.precommit).Some?
    && DecodePrecommit(j.precommit).value.blockNumber == blockNumber
    && DecodePrecommit(j.precommit).value.setId == setId
    && DecodePrecommit(j.precommit).value.blockHash == blockHash
    && SignaturesValid(c, j)
    && Mul32(CountSigned(j.signed), 3) > Mul32(j.numAuthorities, 2)
  }

  method VerifySimpleJustification(c: Crypto, blockNumber: U32, blockHash: Bytes32, setId: U64, setHash: Bytes32,
      j: HintedJustification) returns (ok: bool)
    ensures ok <==> Justifies(c, blockNumber, blockHash, setId, setHash, j)
  {
    var commitment := ComputeAuthoritySetCommitment(c.sha256, j.numAuthorities, j.pubkeys);
    if commitment != Some(setHash) {
      return false;
    }
    var decoded := DecodePrecommit(j.precommit);
    if decoded.None? || decoded.value.blockNumber != blockNumber || decoded.value.setId != setId
       || decoded.value.blockHash != blockHash {
      return false;
    }
    if !SignaturesValid(c, j) {
      return false;
    }
    ok := VerifyVotingThreshold(j.numAuthorities, j.signed, 2, 3);
  }

  /** Where the message carries what. */
  lemma PrecommitBytes(bs: seq<Byte>)
    requires |bs| == ENCODED_PRECOMMIT_LENGTH
    ensures DecodePrecommit(bs).Some? <==> bs[0] == 1
    ensures DecodePrecommit(bs).Some? ==>
      var p := DecodePrecommit(bs).value;
      && p.blockHash == bs[1..33]
      && p.blockNumber == Word(bs, 33)
      && p.round == Word(bs, 37) + TWO_32 * Word(bs, 41)
      && p.setId == Word(bs, 45) + TWO_32 * Word(bs, 49)
  {
    hide LeValue;
    LeValueOfWord(bs[33..37]);
    LeValueOfWord(bs[37..45]);
    LeValueOfWord(bs[45..53]);
  }

  /** Acceptance, spelled out over the bytes and over all slots. */
  lemma JustifiesIff(c: Crypto, blockNumber: U32, blockHash: Bytes32, setId: U64, setHash: Bytes32, j: HintedJustification)
    ensures Justifies(c, blockNumber, blockHash, setId, setHash, j) <==>
      && j.numAuthorities > 0 && ChainsTo(c.sha256, j.pubkeys[..Min(j.numAuthorities, 300)], setHash)
      && j.precommit[0] == 1 && j.precommit[1..33] == blockHash
      && blockNumber == Word(j.precommit, 33)
      && setId == Word(j.precommit, 45) + TWO_32 * Word(j.precommit, 49)
      && (forall i :: 0 <= i < 300 && j.signed[i] ==> c.verify(j.pubkeys[i], j.precommit, j.signatures[i]))
      && 3 * |set i: nat | i < 300 && j.signed[i]| > 2 * (j.numAuthorities % TWO_31)
  {
    hide ChainsTo, DecodePrecommit, CountSigned, ChainHash;
    PrecommitBytes(j.precommit);
    ThresholdIsTwoThirds(j);
    CountIsSigners(j.signed);
    assert (set i: nat | i < 300 && j.signed[i]) == Signers(j.signed);
    if j.numAuthorities > 0 {
      ChainsToIff(c.sha256, j.pubkeys[..Min(j.numAuthorities, 300)], setHash);
    }
  }

  /** The shape of every justification that the host builds: a set that fits, and no flag past its end.
      The circuit itself does not check it. */
  predicate WellShaped(j: HintedJustification) {
    1 <= j.numAuthorities <= MAX_AUTHORITY_SET_SIZE
    && forall i :: j.numAuthorities <= i < MAX_AUTHORITY_SET_SIZE ==> !j.signed[i]
  }

  /** How many of the slots the commitment covers: the authorities, or all slots if there are more. */
  function Members(j: HintedJustification): (m: nat)
    ensures m <= MAX_AUTHORITY_SET_SIZE
  {
    Min(j.numAuthorities, MAX_AUTHORITY_SET_SIZE)
  }

  /** The keys that the commitment covers. */
  function Authorities(j: HintedJustification): seq<Bytes32> {
    j.pubkeys[..Members(j)]
  }

  /** How many members of the set are flagged. */
  function MemberVotes(j: HintedJustification): nat {
    CountSigned(j.signed[..Members(j)])
  }

  /** How many slots past the end of the set are flagged. */
  function ForeignVotes(j: HintedJustification): nat {
    CountSigned(j.signed[Members(j)..])
  }

  lemma {:induction false} CountConcat(a: seq<bool>, b: seq<bool>)
    ensures CountSigned(a + b) == CountSigned(a) + CountSigned(b)
  {
    if b == [] {
      assert a + b == a;
    } else {
      var last := |b| - 1;
      CountConcat(a, b[..last]);
      assert (a + b)[..|a + b| - 1] == a + b[..last];
    }
  }

  lemma {:induction false} CountZero(signed: seq<bool>)
    ensures CountSigned(signed) == 0 <==> forall i :: 0 <= i < |signed| ==> !signed[i]
  {
    if signed != [] {
      CountZero(signed[..|signed| - 1]);
    }
  }

  lemma {:induction false} CountAll(n: nat)
    ensures CountSigned(seq(n, _ => true)) == n
  {
    if n > 0 {
      CountAll(n - 1);
      assert seq(n, _ => true)[..n - 1] == seq(n - 1, _ => true);
    }
  }

  /** The circuit counts flags over all slots: the members' and those past the end of the set. The count is
      the number of signing members exactly when no flag is set past the end. */
  lemma CountedVotes(j: HintedJustification)
    ensures CountSigned(j.signed) == MemberVotes(j) + ForeignVotes(j)
    ensures ForeignVotes(j) <= MAX_AUTHORITY_SET_SIZE - Members(j)
    ensures ForeignVotes(j) == 0 <==> forall i :: Members(j) <= i < MAX_AUTHORITY_SET_SIZE ==> !j.signed[i]
  {
    CountConcat(j.signed[..Members(j)], j.signed[Members(j)..]);
    assert j.signed == j.signed[..Members(j)] + j.signed[Members(j)..];
    CountZero(j.signed[Members(j)..]);
    if ForeignVotes(j) == 0 {
      forall i | Members(j) <= i < MAX_AUTHORITY_SET_SIZE ensures !j.signed[i] {
        assert j.signed[i] == j.signed[Members(j)..][i - Members(j)];
      }
    }
  }

  const TWO_31 := 0x8000_0000

  /** A number modulo 2^31, which is how the threshold sees the number of authorities: its double wraps. */
  function Mod31(n: U32): (m: nat)
    ensures m == n % TWO_31
  {
    if n < TWO_31 then n else n - TWO_31
  }

  function ThresholdBase(j: HintedJustification): nat {
    Mod31(j.numAuthorities)
  }

  /** What the circuit's modular comparison means: more than two thirds of the number modulo 2^31. */
  lemma ThresholdIsTwoThirds(j: HintedJustification)
    ensures Mul32(CountSigned(j.signed), 3) > Mul32(j.numAuthorities, 2) <==> 3 * CountSigned(j.signed) > 2 * ThresholdBase(j)
  {
    hide CountSigned;
    SmallProduct(CountSigned(j.signed), 3);
  }

  lemma SmallProduct(a: nat, k: nat)
    requires a <= MAX_AUTHORITY_SET_SIZE && k <= 3
    ensures Mul32(a, k) == k * a
  {
    assert 0 <= a * k <= 3 * MAX_AUTHORITY_SET_SIZE;
  }

  lemma {:induction false} SubsetSize(a: set<nat>, n: nat)
    requires forall i :: i in a ==> i < n
    ensures |a| <= n
  {
    if n == 0 {
      assert a == {};
    } else {
      SubsetSize(a - {n - 1}, n - 1);
    }
  }

  /** Two sets of authorities share at least what they together exceed the whole set by; two quorums of
      more than two thirds share more than one third. */
  lemma QuorumIntersection(a: set<nat>, b: set<nat>, n: nat)
    requires forall i :: i in a + b ==> i < n
    ensures |a * b| >= |a| + |b| - n
    ensures 3 * |a| > 2 * n && 3 * |b| > 2 * n ==> 3 * |a * b| > n
  {
    SubsetSize(a + b, n);
    assert |a + b| == |a| + |b| - |a * b|;
  }

  /** The least number that three times exceeds `x`. */
  function LeastAbove(x: int): (v: nat)
    ensures 3 * v > x && (v > 0 ==> 3 * (v - 1) <= x)
  {
    if x < 0 then 0 else x / 3 + 1
  }

  /** The least number of members' votes with which a justification for `n` authorities can be accepted: every
      slot past the end of the set may be flagged besides. */
  function LeastMemberVotes(n: U32): nat {
    LeastAbove(2 * Mod31(n) - 3 * (MAX_AUTHORITY_SET_SIZE - Min(n, MAX_AUTHORITY_SET_SIZE)))
  }

  /** The least number of members' votes next to the flags that this justification has past the end of the set. */
  function LeastVotes(j: HintedJustification): nat {
    LeastAbove(2 * ThresholdBase(j) - 3 * ForeignVotes(j))
  }

  /** Acceptance in terms of the committed set, for every hint: the members that are flagged have signed, and
      they and the flags past the end of the set are more than two thirds. */
  lemma AcceptedVotes(c: Crypto, blockNumber: U32, blockHash: Bytes32, setId: U64, setHash: Bytes32, j: HintedJustification)
    requires Justifies(c, blockNumber, blockHash, setId, setHash, j)
    ensures Authorities(j) != [] && ChainHash(c.sha256, Authorities(j)) == setHash
    ensures forall i :: i in Signers(j.signed[..Members(j)]) ==>
      i < |Authorities(j)| && c.verify(Authorities(j)[i], j.precommit, j.signatures[i])
    ensures |Signers(j.signed[..Members(j)])| == MemberVotes(j)
    ensures MemberVotes(j) >= LeastVotes(j) >= LeastMemberVotes(j.numAuthorities)
  {
    ThresholdIsTwoThirds(j);
    CountedVotes(j);
    CountIsSigners(j.signed[..Members(j)]);
  }

  /** The signers of an accepted, well-shaped justification are a quorum of its authority set. */
  lemma AcceptedQuorum(c: Crypto, blockNumber: U32, blockHash: Bytes32, setId: U64, setHash: Bytes32, j: HintedJustification)
    requires Justifies(c, blockNumber, blockHash, setId, setHash, j) && WellShaped(j)
    ensures 3 * |Signers(j.signed[..Members(j)])| > 2 * |Authorities(j)|
  {
    AcceptedVotes(c, blockNumber, blockHash, setId, setHash, j);
    CountedVotes(j);
  }

  // ----- what the circuit alone guarantees -----

  /** A justification by the flagged members of a set, with every slot past its end given to one key. */
  function FilledUp(message: seq<Byte>, n: U32, keys: seq<Bytes32>, flags: seq<bool>, signatures: seq<Signature>,
      key: Bytes32, signature: Signature): HintedJustification
    requires |message| == ENCODED_PRECOMMIT_LENGTH
    requires |keys| == |flags| == |signatures| == Min(n, MAX_AUTHORITY_SET_SIZE)
  {
    JustificationData(message, Fill(flags, true, MAX_AUTHORITY_SET_SIZE), Fill(signatures, signature, MAX_AUTHORITY_SET_SIZE),
                      Fill(keys, key, MAX_AUTHORITY_SET_SIZE), n)
  }

  /** Which members' votes suffice when any key may fill the slots past the end of the set: the bound of
      `AcceptedVotes` is attained. The key may also be a member's, whose signature is then counted repeatedly. */
  lemma SufficientVotes(c: Crypto, p: Precommit, n: U32, keys: seq<Bytes32>, flags: seq<bool>,
      signatures: seq<Signature>, key: Bytes32, signature: Signature)
    requires n > 0 && |keys| == |flags| == |signatures| == Min(n, MAX_AUTHORITY_SET_SIZE)
    requires forall i :: 0 <= i < |keys| && flags[i] ==> c.verify(keys[i], EncodePrecommit(p), signatures[i])
    requires c.verify(key, EncodePrecommit(p), signature)
    ensures (exists j: HintedJustification ::
              Justifies(c, p.blockNumber, p.blockHash, p.setId, ChainHash(c.sha256, keys), j)
              && j.numAuthorities == n && j.signed[..Members(j)] == flags)
            <==> CountSigned(flags) >= LeastMemberVotes(n)
  {
    hide DecodePrecommit, EncodePrecommit, ChainHash, CountSigned, Justifies;
    var setHash := ChainHash(c.sha256, keys);
    forall j: HintedJustification | Justifies(c, p.blockNumber, p.blockHash, p.setId, setHash, j)
                                    && j.numAuthorities == n && j.signed[..Members(j)] == flags
      ensures CountSigned(flags) >= LeastMemberVotes(n)
    {
      AcceptedVotes(c, p.blockNumber, p.blockHash, p.setId, setHash, j);
    }
    var j := FilledUp(EncodePrecommit(p), n, keys, flags, signatures, key, signature);
    FilledUpIff(c, p, n, keys, flags, signatures, key, signature);
    assert j.signed[..Members(j)] == flags;
  }

  lemma FilledUpIff(c: Crypto, p: Precommit, n: U32, keys: seq<Bytes32>, flags: seq<bool>,
      signatures: seq<Signature>, key: Bytes32, signature: Signature)
    requires n > 0 && |keys| == |flags| == |signatures| == Min(n, MAX_AUTHORITY_SET_SIZE)
    requires forall i :: 0 <= i < |keys| && flags[i] ==> c.verify(keys[i], EncodePrecommit(p), signatures[i])
    requires c.verify(key, EncodePrecommit(p), signature)
    ensures Justifies(c, p.blockNumber, p.blockHash, p.setId, ChainHash(c.sha256, keys),
                      FilledUp(EncodePrecommit(p), n, keys, flags, signatures, key, signature))
            <==> CountSigned(flags) >= LeastMemberVotes(n)
  {
    hide DecodePrecommit, EncodePrecommit, ChainHash, CountSigned, LeastAbove, Mul32, Mod31, SignaturesValid;
    var j := FilledUp(EncodePrecommit(p), n, keys, flags, signatures, key, signature);
    var rest := MAX_AUTHORITY_SET_SIZE - |flags|;
    ThresholdIsTwoThirds(j);
    PrecommitIff(j.precommit, p);
    CountConcat(flags, seq(rest, _ => true));
    CountAll(rest);
    assert j.pubkeys[..Members(j)] == keys;
    FilledUpSigned(c, EncodePrecommit(p), n, keys, flags, signatures, key, signature);
    LeastAboveIff(CountSigned(flags), 2 * Mod31(n) - 3 * rest);
  }

  lemma LeastAboveIff(v: nat, x: int)
    ensures v >= LeastAbove(x) <==> 3 * v > x
  {
    hide LeastAbove;
  }

  lemma FilledUpSigned(c: Crypto, message: seq<Byte>, n: U32, keys: seq<Bytes32>, flags: seq<bool>,
      signatures: seq<Signature>, key: Bytes32, signature: Signature)
    requires |message| == ENCODED_PRECOMMIT_LENGTH
    requires |keys| == |flags| == |signatures| == Min(n, MAX_AUTHORITY_SET_SIZE)
    requires forall i :: 0 <= i < |keys| && flags[i] ==> c.verify(keys[i], message, signatures[i])
    requires c.verify(key, message, signature)
    ensures SignaturesValid(c, FilledUp(message, n, keys, flags, signatures, key, signature))
  {
  }

  /** Every accepted justification by a set of these `n` authorities carries a quorum of the set. */
  ghost predicate QuorumForced(c: Crypto, p: Precommit, n: U32, keys: seq<Bytes32>)
    requires keys != []
  {
    forall j: HintedJustification ::
      (Justifies(c, p.blockNumber, p.blockHash, p.setId, ChainHash(c.sha256, keys), j)
       && j.numAuthorities == n && Authorities(j) == keys) ==> 3 * MemberVotes(j) > 2 * |keys|
  }

  /** The circuit alone forces a quorum, whatever is hinted, exactly for sets that fill all slots and whose
      number the threshold does not see wrapped to less. Otherwise one member's signature, repeated in the slots
      past the end, makes up for others. */
  lemma QuorumForcedIff(c: Crypto, p: Precommit, n: U32, keys: seq<Bytes32>, signatures: seq<Signature>)
    requires n > 0 && |keys| == |signatures| == Min(n, MAX_AUTHORITY_SET_SIZE)
    requires forall i :: 0 <= i < |keys| ==> c.verify(keys[i], EncodePrecommit(p), signatures[i])
    ensures QuorumForced(c, p, n, keys) <==> Mod31(n) >= MAX_AUTHORITY_SET_SIZE
  {
    hide Justifies, EncodePrecommit, ChainHash, CountSigned, LeastAbove;
    var setHash := ChainHash(c.sha256, keys);
    if Mod31(n) >= MAX_AUTHORITY_SET_SIZE {
      forall j: HintedJustification | Justifies(c, p.blockNumber, p.blockHash, p.setId, setHash, j)
                                      && j.numAuthorities == n && Authorities(j) == keys
        ensures 3 * MemberVotes(j) > 2 * |keys|
      {
        AcceptedVotes(c, p.blockNumber, p.blockHash, p.setId, setHash, j);
      }
    } else {
      var k := 2 * |keys| / 3;
      var flags := seq(k, _ => true) + seq(|keys| - k, _ => false);
      CountConcat(seq(k, _ => true), seq(|keys| - k, _ => false));
      CountAll(k);
      CountZero(seq(|keys| - k, _ => false));
      FilledUpIff(c, p, n, keys, flags, signatures, keys[0], signatures[0]);
      var j := FilledUp(EncodePrecommit(p), n, keys, flags, signatures, keys[0], signatures[0]);
      assert j.signed[..Members(j)] == flags && Authorities(j) == keys;
    }
  }

  // ----- two justifications -----

  /** The members that have signed both messages, by the two justifications' signatures. */
  ghost function DoubleSigners(j1: HintedJustification, j2: HintedJustification): set<nat> {
    Signers(j1.signed[..Members(j1)]) * Signers(j2.signed[..Members(j2)])
  }

  /** How many members must have signed both, given the flags past the end of the set in each. */
  function ForcedDoubles(j1: HintedJustification, j2: HintedJustification): int {
    LeastVotes(j1) + LeastVotes(j2) - Members(j1)
  }

  /** Evidence of misbehaviour: members of one set have validly signed two different precommits of one round -
      at least one, at least as many as are forced, and more than a third in the host's shape (`HostShape`). */
  ghost predicate DoubleVote(c: Crypto, j1: HintedJustification, j2: HintedJustification) {
    && j1.precommit != j2.precommit
    && Authorities(j1) == Authorities(j2)
    && DoubleSigners(j1, j2) != {} && |DoubleSigners(j1, j2)| >= ForcedDoubles(j1, j2)
    && forall i :: i in DoubleSigners(j1, j2) ==>
         i < |Authorities(j1)| && c.verify(Authorities(j1)[i], j1.precommit, j1.signatures[i])
         && c.verify(Authorities(j1)[i], j2.precommit, j2.signatures[i])
  }

  /** The flags past the end of one set, in two justifications of different precommits together, make up for so
      many votes that no member needs to have signed both. `UnforcedNeedsFlags` says when this can happen. */
  predicate Unforced(j1: HintedJustification, j2: HintedJustification) {
    j1.precommit != j2.precommit && Authorities(j1) == Authorities(j2) && ForcedDoubles(j1, j2) <= 0
  }

  /** That takes a flag past the end of the set, or a number of authorities whose double wraps. */
  lemma UnforcedNeedsFlags(j1: HintedJustification, j2: HintedJustification)
    requires j1.numAuthorities > 0 && j2.numAuthorities > 0 && Unforced(j1, j2)
    ensures || ForeignVotes(j1) > 0 || ForeignVotes(j2) > 0
            || j1.numAuthorities >= TWO_31 || j2.numAuthorities >= TWO_31
  {
    hide CountSigned, LeastAbove;
    assert |Authorities(j1)| == Members(j1) && |Authorities(j2)| == Members(j2);
  }

  /** In the host's shape more than a third of the set is forced to have signed both. */
  lemma HostShape(j1: HintedJustification, j2: HintedJustification)
    requires WellShaped(j1) && WellShaped(j2) && Authorities(j1) == Authorities(j2)
    ensures 3 * ForcedDoubles(j1, j2) > |Authorities(j1)| && !Unforced(j1, j2)
  {
    hide CountSigned, LeastAbove;
    CountedVotes(j1);
    CountedVotes(j2);
    assert |Authorities(j1)| == Members(j1) && |Authorities(j2)| == Members(j2);
  }

  /** Two accepted justifications of one round and set id against the same commitment are for the same
      block hash, or show a SHA-256 collision, or show members of the set voting twice - unless the flags past
      the end of the set leave none forced. */
  lemma ForkNeedsEvidence(c: Crypto, blockNumber: U32, hash1: Bytes32, hash2: Bytes32, setId: U64, setHash: Bytes32,
      j1: HintedJustification, j2: HintedJustification) returns (x: seq<Byte>, y: seq<Byte>)
    requires Justifies(c, blockNumber, hash1, setId, setHash, j1)
    requires Justifies(c, blockNumber, hash2, setId, setHash, j2)
    requires DecodePrecommit(j1.precommit).value.round == DecodePrecommit(j2.precommit).value.round
    ensures Collision(c.sha256, x, y) || Authorities(j1) == Authorities(j2)
    ensures Collision(c.sha256, x, y) || hash1 == hash2 || DoubleVote(c, j1, j2) || Unforced(j1, j2)
    ensures hash1 == hash2 <==> j1.precommit == j2.precommit
  {
    hide ChainHash, CountSigned, LeastAbove;
    AcceptedVotes(c, blockNumber, hash1, setId, setHash, j1);
    AcceptedVotes(c, blockNumber, hash2, setId, setHash, j2);
    x, y := ChainHashBinding(c.sha256, Authorities(j1), Authorities(j2));
    PrecommitIff(j1.precommit, DecodePrecommit(j1.precommit).value);
    PrecommitIff(j2.precommit, DecodePrecommit(j2.precommit).value);
    if Authorities(j1) == Authorities(j2) {
      QuorumIntersection(Signers(j1.signed[..Members(j1)]), Signers(j2.signed[..Members(j2)]), |Authorities(j1)|);
    }
  }

  /** Two votes in the host's shape; if they are for different precommits, at most a third of the set has cast
      both. */
  ghost predicate FewDoubleSigners(j1: HintedJustification, j2: HintedJustification) {
    && WellShaped(j1) && WellShaped(j2)
    && (j1.precommit != j2.precommit ==> 3 * |DoubleSigners(j1, j2)| <= |Authorities(j1)|)
  }

  /** The host's justifications of one message by any signers meet this. */
  lemma OneMessageIsFew(d1: SimpleJustificationData, d2: SimpleJustificationData, dummyKey: Bytes32, dummySignature: Signature)
    requires Consistent(d1) && Consistent(d2) && d1.numAuthorities > 0 && d2.numAuthorities > 0
    requires d1.signedMessage == d2.signedMessage
    ensures FewDoubleSigners(PaddedJustification(d1, dummyKey, dummySignature), PaddedJustification(d2, dummyKey, dummySignature))
  {
    hide CountSigned, DoubleSigners;
  }

  /** Accepted votes of one set meet it exactly when they are for one precommit. */
  lemma FewIffOneVote(c: Crypto, blockNumber: U32, hash1: Bytes32, hash2: Bytes32, setId: U64, setHash: Bytes32,
      j1: HintedJustification, j2: HintedJustification)
    requires Justifies(c, blockNumber, hash1, setId, setHash, j1) && WellShaped(j1)
    requires Justifies(c, blockNumber, hash2, setId, setHash, j2) && WellShaped(j2)
    requires Authorities(j1) == Authorities(j2)
    ensures FewDoubleSigners(j1, j2) <==> j1.precommit == j2.precommit
  {
    hide Justifies, CountSigned, LeastAbove, WellShaped;
    AcceptedVotes(c, blockNumber, hash1, setId, setHash, j1);
    AcceptedVotes(c, blockNumber, hash2, setId, setHash, j2);
    QuorumIntersection(Signers(j1.signed[..Members(j1)]), Signers(j2.signed[..Members(j2)]), |Authorities(j1)|);
    HostShape(j1, j2);
    assert |Authorities(j1)| == Members(j1);
    assert |DoubleSigners(j1, j2)| >= LeastVotes(j1) + LeastVotes(j2) - Members(j1);
  }

  lemma FewIsNoEvidence(c: Crypto, j1: HintedJustification, j2: HintedJustification)
    requires FewDoubleSigners(j1, j2)
    ensures !DoubleVote(c, j1, j2) && !Unforced(j1, j2)
  {
    hide WellShaped, DoubleSigners, ForcedDoubles;
    if Authorities(j1) == Authorities(j2) {
      HostShape(j1, j2);
    }
  }

  /** Agreement: if at most a third of the set signs two different precommits of a round, the host's justifications of one
      block number are for one hash, or show a SHA-256 collision. */
  lemma FewDoubleSignersAgree(c: Crypto, blockNumber: U32, hash1: Bytes32, hash2: Bytes32, setId: U64, setHash: Bytes32,
      j1: HintedJustification, j2: HintedJustification) returns (x: seq<Byte>, y: seq<Byte>)
    requires Justifies(c, blockNumber, hash1, setId, setHash, j1)
    requires Justifies(c, blockNumber, hash2, setId, setHash, j2)
    requires DecodePrecommit(j1.precommit).value.round == DecodePrecommit(j2.precommit).value.round
    requires FewDoubleSigners(j1, j2)
    ensures Collision(c.sha256, x, y) || hash1 == hash2
  {
    hide Justifies, DecodePrecommit, FewDoubleSigners, DoubleVote, Unforced;
    x, y := ForkNeedsEvidence(c, blockNumber, hash1, hash2, setId, setHash, j1, j2);
    FewIsNoEvidence(c, j1, j2);
  }

  // ----- when the circuit alone forces a double vote -----

  /** An accepted justification of this precommit by these `n` authorities. */
  ghost predicate Accepted(c: Crypto, p: Precommit, n: U32, keys: seq<Bytes32>, j: HintedJustification)
    requires keys != []
  {
    && Justifies(c, p.blockNumber, p.blockHash, p.setId, ChainHash(c.sha256, keys), j)
    && j.precommit == EncodePrecommit(p) && j.numAuthorities == n && Authorities(j) == keys
  }

  /** However two precommits have been justified by these keys, some member has signed both. */
  ghost predicate DoubleVoteForced(c: Crypto, p1: Precommit, n1: U32, p2: Precommit, n2: U32, keys: seq<Bytes32>)
    requires keys != []
  {
    forall j1: HintedJustification, j2: HintedJustification ::
      Accepted(c, p1, n1, keys, j1) && Accepted(c, p2, n2, keys, j2) ==> DoubleSigners(j1, j2) != {}
  }

  /** Justifications of two precommits by disjoint parts of the set, when their least votes leave room for that
      and some key, in the set or not, has signed both to fill the slots past the end. */
  lemma DisjointVotes(c: Crypto, keys: seq<Bytes32>, key: Bytes32,
      p1: Precommit, n1: U32, signatures1: seq<Signature>, signature1: Signature,
      p2: Precommit, n2: U32, signatures2: seq<Signature>, signature2: Signature)
      returns (j1: HintedJustification, j2: HintedJustification)
    requires n1 > 0 && |keys| == |signatures1| == Min(n1, MAX_AUTHORITY_SET_SIZE)
    requires n2 > 0 && |keys| == |signatures2| == Min(n2, MAX_AUTHORITY_SET_SIZE)
    requires forall i :: 0 <= i < |keys| ==> c.verify(keys[i], EncodePrecommit(p1), signatures1[i])
    requires forall i :: 0 <= i < |keys| ==> c.verify(keys[i], EncodePrecommit(p2), signatures2[i])
    requires c.verify(key, EncodePrecommit(p1), signature1) && c.verify(key, EncodePrecommit(p2), signature2)
    requires LeastMemberVotes(n1) + LeastMemberVotes(n2) <= |keys|
    ensures Accepted(c, p1, n1, keys, j1) && Accepted(c, p2, n2, keys, j2) && DoubleSigners(j1, j2) == {}
    ensures MemberVotes(j1) == LeastMemberVotes(n1) && MemberVotes(j2) == LeastMemberVotes(n2)
  {
    hide Justifies, EncodePrecommit, ChainHash, CountSigned, LeastMemberVotes;
    var m := |keys|;
    var v1, v2 := LeastMemberVotes(n1), LeastMemberVotes(n2);
    var flags1 := seq(v1, _ => true) + seq(m - v1, _ => false);
    var flags2 := seq(m - v2, _ => false) + seq(v2, _ => true);
    CountOfRuns(v1, m - v1);
    CountOfRuns(v2, m - v2);
    j1 := FilledUp(EncodePrecommit(p1), n1, keys, flags1, signatures1, key, signature1);
    j2 := FilledUp(EncodePrecommit(p2), n2, keys, flags2, signatures2, key, signature2);
    FilledUpIff(c, p1, n1, keys, flags1, signatures1, key, signature1);
    FilledUpIff(c, p2, n2, keys, flags2, signatures2, key, signature2);
    assert j1.signed[..m] == flags1 && Authorities(j1) == keys;
    assert j2.signed[..m] == flags2 && Authorities(j2) == keys;
  }

  lemma CountOfRuns(yes: nat, no: nat)
    ensures CountSigned(seq(yes, _ => true) + seq(no, _ => false)) == yes
    ensures CountSigned(seq(no, _ => false) + seq(yes, _ => true)) == yes
  {
    CountConcat(seq(yes, _ => true), seq(no, _ => false));
    CountConcat(seq(no, _ => false), seq(yes, _ => true));
    CountAll(yes);
    CountZero(seq(no, _ => false));
  }

  /** The circuit alone forces a double vote, whatever is hinted, exactly when the least members' votes of the
      two justifications do not fit side by side into the set: from 257 to 300 authorities, for one. */
  lemma DoubleVoteForcedIff(c: Crypto, keys: seq<Bytes32>, key: Bytes32,
      p1: Precommit, n1: U32, signatures1: seq<Signature>, signature1: Signature,
      p2: Precommit, n2: U32, signatures2: seq<Signature>, signature2: Signature)
    requires n1 > 0 && |keys| == |signatures1| == Min(n1, MAX_AUTHORITY_SET_SIZE)
    requires n2 > 0 && |keys| == |signatures2| == Min(n2, MAX_AUTHORITY_SET_SIZE)
    requires forall i :: 0 <= i < |keys| ==> c.verify(keys[i], EncodePrecommit(p1), signatures1[i])
    requires forall i :: 0 <= i < |keys| ==> c.verify(keys[i], EncodePrecommit(p2), signatures2[i])
    requires c.verify(key, EncodePrecommit(p1), signature1) && c.verify(key, EncodePrecommit(p2), signature2)
    ensures DoubleVoteForced(c, p1, n1, p2, n2, keys) <==> LeastMemberVotes(n1) + LeastMemberVotes(n2) > |keys|
    ensures n1 == n2 <= MAX_AUTHORITY_SET_SIZE ==> (DoubleVoteForced(c, p1, n1, p2, n2, keys) <==> 257 <= n1)
  {
    hide Justifies, EncodePrecommit, ChainHash, CountSigned, LeastMemberVotes;
    if LeastMemberVotes(n1) + LeastMemberVotes(n2) > |keys| {
      forall j1: HintedJustification, j2: HintedJustification | Accepted(c, p1, n1, keys, j1) && Accepted(c, p2, n2, keys, j2)
        ensures DoubleSigners(j1, j2) != {}
      {
        AcceptedVotes(c, p1.blockNumber, p1.blockHash, p1.setId, ChainHash(c.sha256, keys), j1);
        AcceptedVotes(c, p2.blockNumber, p2.blockHash, p2.setId, ChainHash(c.sha256, keys), j2);
        QuorumIntersection(Signers(j1.signed[..Members(j1)]), Signers(j2.signed[..Members(j2)]), |keys|);
      }
    } else {
      var j1, j2 := DisjointVotes(c, keys, key, p1, n1, signatures1, signature1, p2, n2, signatures2, signature2);
    }
    LeastVotesOfSmall(n1);
  }

  lemma LeastVotesOfSmall(n: U32)
    ensures n <= MAX_AUTHORITY_SET_SIZE ==> (2 * LeastMemberVotes(n) > n <==> 257 <= n)
  {
  }

  // ----- what the host supplies -----

  /** The host's view of a justification before padding. */
  datatype SimpleJustificationData = SimpleJustificationData(
    pubkeys: seq<Bytes32>, signatures: seq<Signature>, validatorSigned: seq<bool>, signedMessage: seq<Byte>,
    votingWeight: nat, numAuthorities: nat)

  /** Pair each authority with its signature, if there is one. None is the panic on a set that is too large. */
  method GetJustificationData(authorities: seq<Bytes32>, signatureOf: map<Bytes32, Signature>, message: seq<Byte>,
      dummySignature: Signature) returns (r: Option<SimpleJustificationData>)
    ensures r.None? <==> |authorities| > MAX_AUTHORITY_SET_SIZE
    ensures r.Some? ==>
      var d := r.value;
      && d.pubkeys == authorities && d.numAuthorities == |authorities| && d.signedMessage == message
      && |d.signatures| == |d.validatorSigned| == |authorities|
      && (forall i :: 0 <= i < |authorities| ==> (d.validatorSigned[i] <==> authorities[i] in signatureOf))
      && (forall i :: 0 <= i < |authorities| && authorities[i] in signatureOf ==> d.signatures[i] == signatureOf[authorities[i]])
      && d.votingWeight == CountSigned(d.validatorSigned)
  {
    if |authorities| > MAX_AUTHORITY_SET_SIZE {
      return None;
    }
    var validatorSigned: seq<bool> := [];
    var signatures: seq<Signature> := [];
    var pubkeys: seq<Bytes32> := [];
    var votingWeight := 0;
    for k := 0 to |authorities|
      invariant |validatorSigned| == |signatures| == |pubkeys| == k
      invariant pubkeys == authorities[..k]
      invariant forall i :: 0 <= i < k ==> (validatorSigned[i] <==> authorities[i] in signatureOf)
      invariant forall i :: 0 <= i < k && authorities[i] in signatureOf ==> signatures[i] == signatureOf[authorities[i]]
      invariant votingWeight == CountSigned(validatorSigned)
    {
      ghost var before := validatorSigned;
      if authorities[k] in signatureOf {
        validatorSigned := validatorSigned + [true];
        signatures := signatures + [signatureOf[authorities[k]]];
        votingWeight := votingWeight + 1;
      } else {
        validatorSigned := validatorSigned + [false];
        signatures := signatures + [dummySignature];
      }
      pubkeys := pubkeys + [authorities[k]];
      assert validatorSigned[..k] == before;
    }
    r := Some(SimpleJustificationData(pubkeys, signatures, validatorSigned, message, votingWeight, |authorities|));
  }

  /** Lists that go together. */
  predicate Consistent(d: SimpleJustificationData) {
    && |d.pubkeys| == |d.signatures| == |d.validatorSigned| == d.numAuthorities <= MAX_AUTHORITY_SET_SIZE
    && d.votingWeight == CountSigned(d.validatorSigned)
    && |d.signedMessage| == ENCODED_PRECOMMIT_LENGTH
  }

  function Fill<T>(s: seq<T>, x: T, n: nat): (r: seq<T>)
    requires |s| <= n
    ensures |r| == n
  {
    s + seq(n - |s|, _ => x)
  }

  /** The circuit's input for host data: every list filled up to the maximal set size. */
  function PaddedJustification(d: SimpleJustificationData, dummyKey: Bytes32, dummySignature: Signature): HintedJustification
    requires Consistent(d)
  {
    JustificationData(d.signedMessage, Fill(d.validatorSigned, false, MAX_AUTHORITY_SET_SIZE),
                      Fill(d.signatures, dummySignature, MAX_AUTHORITY_SET_SIZE),
                      Fill(d.pubkeys, dummyKey, MAX_AUTHORITY_SET_SIZE), d.numAuthorities)
  }

  /** The host checks that two thirds have signed, then pads. None is its panic on a failing check. */
  method GetJustificationFromBlock(d: SimpleJustificationData, dummyKey: Bytes32, dummySignature: Signature)
      returns (r: Option<HintedJustification>)
    requires Consistent(d)
    ensures r == if 3 * d.votingWeight >= 2 * d.numAuthorities
                 then Some(PaddedJustification(d, dummyKey, dummySignature)) else None
  {
    if d.votingWeight * 3 < d.numAuthorities * 2 {
      return None;
    }
    var pubkeys: seq<Bytes32> := [];
    var signatures: seq<Signature> := [];
    var signed: seq<bool> := [];
    for i := 0 to d.numAuthorities
      invariant pubkeys == d.pubkeys[..i] && signatures == d.signatures[..i] && signed == d.validatorSigned[..i]
    {
      pubkeys := pubkeys + [d.pubkeys[i]];
      signatures := signatures + [d.signatures[i]];
      signed := signed + [d.validatorSigned[i]];
    }
    for i := d.numAuthorities to MAX_AUTHORITY_SET_SIZE
      invariant signed == Fill(d.validatorSigned, false, i)
      invariant pubkeys == Fill(d.pubkeys, dummyKey, i)
      invariant signatures == Fill(d.signatures, dummySignature, i)
    {
      signed := signed + [false];
      pubkeys := pubkeys + [dummyKey];
      signatures := signatures + [dummySignature];
    }
    r := Some(JustificationData(d.signedMessage, signed, signatures, pubkeys, d.numAuthorities));
  }

  lemma {:induction false} FillKeepsCount(signed: seq<bool>, n: nat)
    requires |signed| <= n
    ensures CountSigned(Fill(signed, false, n)) == CountSigned(signed)
  {
    if |signed| == n {
      assert Fill(signed, false, n) == signed;
    } else {
      FillKeepsCount(signed, n - 1);
      assert Fill(signed, false, n)[..n - 1] == Fill(signed, false, n - 1);
    }
  }

  /** Padding conserves the votes: the circuit counts over all slots what the host counted over the set,
      and honest data is accepted exactly when strictly more than two thirds have signed. So the circuit
      accepts only what the host's check lets through, and differs from it exactly at two thirds. */
  lemma HonestJustification(c: Crypto, d: SimpleJustificationData, p: Precommit, dummyKey: Bytes32, dummySignature: Signature)
    requires Consistent(d) && d.numAuthorities > 0 && d.signedMessage == EncodePrecommit(p)
    requires forall i :: 0 <= i < d.numAuthorities && d.validatorSigned[i] ==>
               c.verify(d.pubkeys[i], d.signedMessage, d.signatures[i])
    ensures var j := PaddedJustification(d, dummyKey, dummySignature);
            && WellShaped(j) && Authorities(j) == d.pubkeys && CountSigned(j.signed) == d.votingWeight
            && (Justifies(c, p.blockNumber, p.blockHash, p.setId, ChainHash(c.sha256, d.pubkeys), j)
                <==> 3 * d.votingWeight > 2 * d.numAuthorities)
  {
    hide DecodePrecommit, ChainHash, EncodePrecommit;
    var j := PaddedJustification(d, dummyKey, dummySignature);
    FillKeepsCount(d.validatorSigned, MAX_AUTHORITY_SET_SIZE);
    ThresholdIsTwoThirds(j);
    PrecommitIff(j.precommit, p);
    assert Authorities(j) == d.pubkeys;
    forall i | 0 <= i < MAX_AUTHORITY_SET_SIZE && j.signed[i]
      ensures c.verify(j.pubkeys[i], j.precommit, j.signatures[i])
    {
      assert i < d.numAuthorities;
    }
  }
}
