/** The host side of a rotation: find the scheduled change in an epoch end header, check it, and
    compute the positions and the padded keys that the circuit is given. */
module HeaderRotate {
  import opened Bytes
  import opened Scale
  import opened Headers
  import opened Justification
  import opened Rotate

  datatype HeaderRotateData = HeaderRotateData(
    header: EncodedHeader, numAuthorities: nat, startPosition: nat, endPosition: nat,
    newAuthoritySetHash: seq<Byte>, paddedPubkeys: seq<Bytes32>)

  predicate IsFrnk(log: DigestLog) {
    log.Consensus? && log.engine == FRNK
  }

  /** The index of the first GRANDPA log, or the number of logs. */
  function FirstFrnk(logs: seq<DigestLog>): (k: nat)
    ensures k <= |logs|
    ensures k < |logs| ==> IsFrnk(logs[k])
    ensures forall i :: 0 <= i < k ==> !IsFrnk(logs[i])
  {
    if logs == [] || IsFrnk(logs[0]) then 0 else 1 + FirstFrnk(logs[1..])
  }

  /** The position the host reports for log `k`. */
  function LogPosition(h: Header, k: nat): nat
    requires k <= |h.logs|
  {
    HASH_SIZE + |EncodeCompact(h.number)| + HASH_SIZE + HASH_SIZE + |EncodeLogs(h.logs[..k])|
  }

  /** What the host demands of the log's value: the flag, the expected authorities with weight 1 as far as
      whole entries reach, then a zero delay. It steps over the number of authorities unseen. */
  predicate HostAccepts(value: seq<Byte>, authorities: seq<Bytes32>)
    requires |authorities| < TWO_32
  {
    var skip := 1 + |EncodeCompact(|authorities|)|;
    && skip <= |value| && value[0] == SCHEDULED_CHANGE_FLAG
    && |value[skip..]| / VALIDATOR_LENGTH <= |authorities|
    && EntriesAt(value[skip..], 0, authorities[..|value[skip..]| / VALIDATOR_LENGTH])
    && NoDelayAt(value[skip..], VALIDATOR_LENGTH * (|value[skip..]| / VALIDATOR_LENGTH))
  }

  method CheckScheduledChange(value: seq<Byte>, authorities: seq<Bytes32>) returns (ok: bool)
    requires |authorities| < TWO_32
    ensures ok <==> HostAccepts(value, authorities)
  {
    var cursor := 1 + |EncodeCompact(|authorities|)|;
    if value == [] || value[0] != SCHEDULED_CHANGE_FLAG || cursor > |value| {
      return false;
    }
    var authoritiesBytes := value[cursor..];
    var chunks := |authoritiesBytes| / VALIDATOR_LENGTH;
    for i := 0 to chunks
      invariant i <= |authorities| && cursor == 1 + |EncodeCompact(|authorities|)| + VALIDATOR_LENGTH * i
      invariant EntriesAt(authoritiesBytes, 0, authorities[..i])
    {
      var at := VALIDATOR_LENGTH * i;
      if i >= |authorities|
         || authoritiesBytes[at..at + PUBKEY_LENGTH] != authorities[i]
         || authoritiesBytes[at + PUBKEY_LENGTH..at + VALIDATOR_LENGTH] != WEIGHT_ONE
      {
        EntryOf(authoritiesBytes, authorities, i, chunks);
        return false;
      }
      EntriesSnoc(authoritiesBytes, authorities, i);
      cursor := cursor + VALIDATOR_LENGTH;
    }
    var delay := value[cursor..];
    assert delay == authoritiesBytes[VALIDATOR_LENGTH * chunks..];
    if |delay| < DELAY_LENGTH {
      return false;
    }
    assert authoritiesBytes[VALIDATOR_LENGTH * chunks..VALIDATOR_LENGTH * chunks + DELAY_LENGTH] == delay[..DELAY_LENGTH];
    for i := 0 to DELAY_LENGTH
      invariant forall k :: 0 <= k < i ==> delay[k] == 0
    {
      if delay[i] != 0 {
        assert delay[..DELAY_LENGTH][i] != NO_DELAY[i];
        return false;
      }
    }
    assert delay[..DELAY_LENGTH] == NO_DELAY;
    return true;
  }

  lemma EntryOf(bytes: seq<Byte>, authorities: seq<Bytes32>, i: nat, chunks: nat)
    requires i < chunks
    ensures chunks <= |authorities| && EntriesAt(bytes, 0, authorities[..chunks])
            ==> EntryAt(bytes, VALIDATOR_LENGTH * i, authorities[i])
  {
    if chunks <= |authorities| && EntriesAt(bytes, 0, authorities[..chunks]) {
      assert EntryAt(bytes, 0 + VALIDATOR_LENGTH * i, authorities[..chunks][i]);
    }
  }

  /** A value that the host accepts: the flag, a number that is stepped over, some of the expected authorities in
      order, a zero delay, and a rest that is shorter than one more entry. */
  predicate AcceptedValue(value: seq<Byte>, authorities: seq<Bytes32>, number: seq<Byte>, count: nat, tail: seq<Byte>) {
    var n := |authorities|;
    && |number| == (if n < 0x40 then 1 else if n < 0x4000 then 2 else if n < 0x4000_0000 then 4 else 5)
    && count <= n && |tail| < 36
    && value == [1] + number + Entries(authorities[..count]) + [0, 0, 0, 0] + tail
  }

  /** Those are exactly the values that the host accepts. */
  lemma HostAcceptsIff(value: seq<Byte>, authorities: seq<Bytes32>)
    requires |authorities| < TWO_32
    ensures HostAccepts(value, authorities) <==>
            exists number: seq<Byte>, count: nat, tail: seq<Byte> :: AcceptedValue(value, authorities, number, count, tail)
  {
    hide HostAccepts, AcceptedValue;
    if HostAccepts(value, authorities) {
      var number, count, tail := PartsOfAccepted(value, authorities);
    }
    if number: seq<Byte>, count: nat, tail: seq<Byte> :| AcceptedValue(value, authorities, number, count, tail) {
      PartsAreAccepted(value, authorities, number, count, tail);
    }
  }

  lemma PartsOfAccepted(value: seq<Byte>, authorities: seq<Bytes32>) returns (number: seq<Byte>, count: nat, tail: seq<Byte>)
    requires |authorities| < TWO_32 && HostAccepts(value, authorities)
    ensures AcceptedValue(value, authorities, number, count, tail)
  {
    hide EntriesAt, NoDelayAt, Entries, EncodeMode;
    var skip := 1 + |EncodeCompact(|authorities|)|;
    var rest := value[skip..];
    number, count := value[1..skip], |rest| / VALIDATOR_LENGTH;
    var mid := VALIDATOR_LENGTH * count;
    EntriesIff(rest, 0, authorities[..count]);
    DelaySlice(rest, mid);
    tail := rest[mid + DELAY_LENGTH..];
    assert value == [value[0]] + number + rest;
    SliceSplit(rest, 0, mid, mid + DELAY_LENGTH);
    SliceSplit(rest, 0, mid + DELAY_LENGTH, |rest|);
    assert rest == Entries(authorities[..count]) + [0, 0, 0, 0] + tail;
  }

  lemma PartsAreAccepted(value: seq<Byte>, authorities: seq<Bytes32>, number: seq<Byte>, count: nat, tail: seq<Byte>)
    requires |authorities| < TWO_32 && AcceptedValue(value, authorities, number, count, tail)
    ensures HostAccepts(value, authorities)
  {
    hide EntriesAt, NoDelayAt, Entries, EncodeMode;
    var entries := Entries(authorities[..count]);
    var rest := entries + [0, 0, 0, 0] + tail;
    var mid := VALIDATOR_LENGTH * count;
    assert value == ([1] + number) + rest;
    assert value[1 + |number|..] == rest;
    assert |rest| / VALIDATOR_LENGTH == count;
    assert rest[0..mid] == entries;
    EntriesIff(rest, 0, authorities[..count]);
    assert rest[mid..mid + 4] == [0, 0, 0, 0];
    DelaySlice(rest, mid);
  }

  lemma DelaySlice(bytes: seq<Byte>, at: nat)
    ensures NoDelayAt(bytes, at) <==> at + 4 <= |bytes| && bytes[at..at + 4] == [0, 0, 0, 0]
  {
  }

  /** The data returned for a header whose first GRANDPA log is log `k`. */
  ghost predicate IsRotateData(sha256: Hasher, h: Header, k: nat, authorities: seq<Bytes32>, d: HeaderRotateData)
    requires k <= |h.logs| && |authorities| < TWO_32
  {
    var messageLength := 1 + |EncodeCompact(|authorities|)| + VALIDATOR_LENGTH * |authorities| + DELAY_LENGTH;
    var prefixLength := CONSENSUS_ENGINE_ID_PREFIX_LENGTH + |EncodeCompact(messageLength % TWO_32)| + 1
                        + |EncodeCompact(|authorities|)|;
    && PadHeader(Encode(h)) == Some(d.header)
    && d.numAuthorities == |authorities|
    && d.startPosition == LogPosition(h, k)
    && d.endPosition == LogPosition(h, k) + prefixLength + VALIDATOR_LENGTH * |authorities| + DELAY_LENGTH
    && d.newAuthoritySetHash == (if authorities == [] then [] else ChainHash(sha256, authorities))
    && |d.paddedPubkeys| == (if |authorities| <= MAX_AUTHORITY_SET_SIZE then MAX_AUTHORITY_SET_SIZE else |authorities|)
    && authorities <= d.paddedPubkeys
  }

  /** The host's search and checks. None stands for the source's panics. */
  method GetHeaderRotate(sha256: Hasher, h: Header, setId: U64, prevSetId: U64, authorities: seq<Bytes32>, dummyKey: Bytes32)
      returns (r: Option<HeaderRotateData>)
    requires |authorities| < TWO_32
    ensures var k := FirstFrnk(h.logs);
            && (r.Some? <==> setId == prevSetId + 1 && |Encode(h)| <= MAX_HEADER_SIZE && k < |h.logs|
                             && HostAccepts(h.logs[k].value, authorities))
            && (r.Some? ==> IsRotateData(sha256, h, k, authorities, r.value))
            && (r.Some? ==> forall i :: |authorities| <= i < |r.value.paddedPubkeys| ==> r.value.paddedPubkeys[i] == dummyKey)
  {
    hide HostAccepts, Encode, EncodeMode, PadHeader, ChainHash, EncodeLog;
    if setId != prevSetId + 1 {
      return None;
    }
    var header := PadHeader(Encode(h));
    PadFails(h);
    if header.None? {
      return None;
    }
    var numAuthoritiesLength := |EncodeCompact(|authorities|)|;
    var messageLength := 1 + numAuthoritiesLength + VALIDATOR_LENGTH * |authorities| + DELAY_LENGTH;
    var messageLengthSize := |EncodeCompact(messageLength % TWO_32)|;
    var position := HASH_SIZE + |EncodeCompact(h.number)| + HASH_SIZE + HASH_SIZE;

    var foundCorrectLog := false;
    var i := 0;
    while i < |h.logs| && !foundCorrectLog
      invariant i <= |h.logs|
      invariant !foundCorrectLog ==> i <= FirstFrnk(h.logs) && position == LogPosition(h, i)
      invariant foundCorrectLog ==> FirstFrnk(h.logs) < |h.logs| && position == LogPosition(h, FirstFrnk(h.logs))
                                    && HostAccepts(h.logs[FirstFrnk(h.logs)].value, authorities)
      decreases |h.logs| - i, !foundCorrectLog
    {
      var log := h.logs[i];
      if log.Consensus? && log.engine == FRNK {
        var ok := CheckScheduledChange(log.value, authorities);
        if !ok {
          return None;
        }
        foundCorrectLog := true;
      } else {
        position := position + |EncodeLog(log)|;
        LogsSnoc(h.logs, i);
        i := i + 1;
      }
    }
    if !foundCorrectLog {
      return None;
    }

    var hash := ComputeAuthoritySetHash(sha256, authorities);
    var padded: seq<Bytes32> := [];
    for k := 0 to |authorities|
      invariant padded == authorities[..k]
    {
      padded := padded + [authorities[k]];
    }
    for k := |authorities| to (if |authorities| <= MAX_AUTHORITY_SET_SIZE then MAX_AUTHORITY_SET_SIZE else |authorities|)
      invariant |padded| == k && authorities <= padded
      invariant forall i :: |authorities| <= i < k ==> padded[i] == dummyKey
    {
      padded := padded + [dummyKey];
    }
    var prefixLength := CONSENSUS_ENGINE_ID_PREFIX_LENGTH + messageLengthSize + 1 + numAuthoritiesLength;
    var endPosition := position + prefixLength + VALIDATOR_LENGTH * |authorities| + DELAY_LENGTH;
    r := Some(HeaderRotateData(header.value, |authorities|, position, endPosition, hash, padded));
  }

  lemma PadFails(h: Header)
    ensures PadHeader(Encode(h)).None? <==> |Encode(h)| > MAX_HEADER_SIZE
  {
  }

  lemma {:induction false} EncodeLogsConcat(a: seq<DigestLog>, b: seq<DigestLog>)
    ensures EncodeLogs(a + b) == EncodeLogs(a) + EncodeLogs(b)
  {
    hide EncodeLog;
    if a == [] {
      assert a + b == b;
    } else {
      EncodeLogsConcat(a[1..], b);
      assert (a + b)[1..] == a[1..] + b && (a + b)[0] == a[0];
      Associative(EncodeLog(a[0]), EncodeLogs(a[1..]), EncodeLogs(b));
    }
  }

  lemma Associative(a: seq<Byte>, b: seq<Byte>, c: seq<Byte>)
    ensures a + (b + c) == a + b + c
  {
  }

  lemma LogsSnoc(logs: seq<DigestLog>, i: nat)
    requires i < |logs|
    ensures EncodeLogs(logs[..i + 1]) == EncodeLogs(logs[..i]) + EncodeLog(logs[i])
  {
    hide EncodeLog;
    EncodeLogsConcat(logs[..i], [logs[i]]);
    assert logs[..i + 1] == logs[..i] + [logs[i]];
    assert [logs[i]][1..] == [];
    assert EncodeLogs([logs[i]]) == EncodeLog(logs[i]) + EncodeLogs([logs[i]][1..]);
  }

  // ----- round trip -----

  /** The host's checks pass on a printed scheduled change. */
  lemma PrintedIsAccepted(authorities: seq<Bytes32>)
    requires |authorities| < TWO_32
    ensures HostAccepts(ScheduledChange(CanonicalMode(|authorities|), authorities), authorities)
  {
    hide EncodeMode, EntryAt;
    var n := |authorities|;
    var value := ScheduledChange(CanonicalMode(n), authorities);
    var skip := 1 + |EncodeCompact(n)|;
    var rest := value[skip..];
    assert rest == Entries(authorities) + NO_DELAY;
    assert |rest| / VALIDATOR_LENGTH == n;
    assert rest[0..VALIDATOR_LENGTH * n] == Entries(authorities);
    EntriesIff(rest, 0, authorities);
    assert authorities[..n] == authorities;
  }

  lemma LogsAround(logs: seq<DigestLog>, k: nat)
    requires k < |logs|
    ensures EncodeLogs(logs) == EncodeLogs(logs[..k]) + EncodeLog(logs[k]) + EncodeLogs(logs[k + 1..])
  {
    hide EncodeLog, EncodeLogs;
    LogsSnoc(logs, k);
    EncodeLogsConcat(logs[..k + 1], logs[k + 1..]);
    assert logs == logs[..k + 1] + logs[k + 1..];
  }

  /** Where log `k` really stands: after the fixed fields, the number of logs, and the logs before it. */
  lemma LogStandsAt(h: Header, k: nat)
    requires k < |h.logs|
    ensures At(Encode(h), LogPosition(h, k) + |EncodeCompact(|h.logs|)|, EncodeLog(h.logs[k]))
  {
    hide EncodeMode, EncodeLog, EncodeLogs, At;
    var before := EncodeFixedFields(h) + EncodeCompact(|h.logs|);
    var after := h.extension + h.dataRoot;
    LogsAround(h.logs, k);
    var a := EncodeLogs(h.logs[..k]);
    var b := EncodeLog(h.logs[k]);
    var c := EncodeLogs(h.logs[k + 1..]);
    assert Encode(h) == before + (a + b + c) + after;
    assert before + (a + b + c) + after == (before + a) + (b + (c + after));
    Standing(before + a, b, c + after);
  }

  lemma Standing(before: seq<Byte>, part: seq<Byte>, after: seq<Byte>)
    ensures At(before + (part + after), |before|, part)
  {
  }

  lemma AtPadded(bs: seq<Byte>, at: nat, part: seq<Byte>)
    requires At(bs, at, part) && |bs| <= MAX_HEADER_SIZE
    ensures At(PadHeader(bs).value.bytes, at, part)
  {
  }

  lemma AtInside(bs: seq<Byte>, at: nat, part: seq<Byte>)
    requires At(bs, at, part)
    ensures at + |part| <= |bs|
  {
  }

  lemma HashedIsPadded(bs: seq<Byte>)
    requires |bs| <= MAX_HEADER_SIZE
    ensures Hashed(PadHeader(bs).value) == bs
  {
  }

  /** The log the chain prints for a scheduled change to these authorities. */
  function ChangeLog(authorities: seq<Bytes32>): DigestLog
    requires |authorities| <= MAX_AUTHORITY_SET_SIZE
  {
    Consensus(FRNK, ScheduledChange(CanonicalMode(|authorities|), authorities))
  }

  lemma ChangeLogIsPrinted(authorities: seq<Bytes32>)
    requires |authorities| <= MAX_AUTHORITY_SET_SIZE
    ensures var length := |ChangeLog(authorities).value|;
            EncodeLog(ChangeLog(authorities))
            == ScheduledChangeLog(Compact(length, CanonicalMode(length)), CanonicalMode(|authorities|), authorities)
  {
  }

  /** The first GRANDPA log of the header is the scheduled change to these authorities, and `d` is what the
      host returns for it. */
  ghost predicate IsEpochEnd(sha256: Hasher, h: Header, authorities: seq<Bytes32>, d: HeaderRotateData) {
    && 1 <= |authorities| <= MAX_AUTHORITY_SET_SIZE
    && FirstFrnk(h.logs) < |h.logs| && h.logs[FirstFrnk(h.logs)] == ChangeLog(authorities)
    && IsRotateData(sha256, h, FirstFrnk(h.logs), authorities, d)
  }

  /** The log lies inside the hashed bytes. The reported positions are the byte before the log and the log's end
      exactly when the number of logs takes one byte, that is for fewer than 64 logs. */
  lemma RotatePositions(sha256: Hasher, h: Header, authorities: seq<Bytes32>, d: HeaderRotateData)
    requires |Encode(h)| <= MAX_HEADER_SIZE && IsEpochEnd(sha256, h, authorities, d)
    ensures d.endPosition == d.startPosition + 1 + |EncodeLog(ChangeLog(authorities))|
    ensures d.startPosition == LogPosition(h, FirstFrnk(h.logs)) && Hashed(d.header) == Encode(h)
    ensures var at := d.startPosition + |EncodeCompact(|h.logs|)|;
            At(d.header.bytes, at, EncodeLog(ChangeLog(authorities)))
            && at + |EncodeLog(ChangeLog(authorities))| <= |Hashed(d.header)|
            && (|h.logs| < 64 <==> d.startPosition + 1 == at)
  {
    hide Encode, EncodeMode, PadHeader, ChainHash, EncodeLog, ScheduledChangeLog, At;
    var n := |authorities|;
    var length := |ChangeLog(authorities).value|;
    LogStandsAt(h, FirstFrnk(h.logs));
    ChangeLogIsPrinted(authorities);
    assert length == 1 + |EncodeCompact(n)| + VALIDATOR_LENGTH * n + DELAY_LENGTH;
    LogLength(Compact(length, CanonicalMode(length)), CanonicalMode(n), authorities);
    var at := d.startPosition + |EncodeCompact(|h.logs|)|;
    AtPadded(Encode(h), at, EncodeLog(ChangeLog(authorities)));
    AtInside(Encode(h), at, EncodeLog(ChangeLog(authorities)));
    HashedIsPadded(Encode(h));
  }

  /** For 64 logs or more, the log's first byte stands where the circuit looks for a byte of "FRNK". */
  lemma LaterLogRejected(header: EncodedHeader, numLogs: U32, start: nat, log: seq<Byte>, n: nat, newPubkeys: seq<Bytes32>)
    requires numLogs >= 64 && log != [] && log[0] == CONSENSUS_FLAG
    requires At(header.bytes, start + |EncodeCompact(numLogs)|, log) && |newPubkeys| == MAX_AUTHORITY_SET_SIZE
    ensures !EpochEndOk(header, n, start, newPubkeys)
  {
    hide EncodeMode, AuthoritiesOk, VerifyScheduledChangeMessageLengthAndFlag, VerifyEncodedNumAuthorities;
    var l := |EncodeCompact(numLogs)|;
    assert l == 2 || l == 4 || l == 5;
    assert header.bytes[start + l] == header.bytes[start + l..start + l + |log|][0];
    if start + MAX_PREFIX_LENGTH <= MAX_HEADER_SIZE {
      var prefix := header.bytes[start..start + MAX_PREFIX_LENGTH];
      assert prefix[2..6][l - 2] == header.bytes[start + l] != FRNK[l - 2];
    }
  }

  /** The circuit accepts what the host returns exactly for fewer than 64 logs and when the circuit's largest
      subarray fits behind the log's prefix. */
  lemma RotateRoundTrip(sha256: Hasher, h: Header, authorities: seq<Bytes32>, d: HeaderRotateData)
    requires |Encode(h)| <= MAX_HEADER_SIZE && IsEpochEnd(sha256, h, authorities, d)
    ensures |d.paddedPubkeys| == MAX_AUTHORITY_SET_SIZE
    ensures EpochEndOk(d.header, d.numAuthorities, d.startPosition, d.paddedPubkeys)
            <==> |h.logs| < 64 && d.endPosition + (MAX_AUTHORITY_SET_SIZE - |authorities|) * VALIDATOR_LENGTH <= MAX_HEADER_SIZE
  {
    hide Encode, EncodeMode, PadHeader, ChainHash, EncodeLog, EpochEndOk, ScheduledChangeLog, At, DecodeCompactInt;
    var n := |authorities|;
    var length := |ChangeLog(authorities).value|;
    RotatePositions(sha256, h, authorities, d);
    ChangeLogIsPrinted(authorities);
    LogLength(Compact(length, CanonicalMode(length)), CanonicalMode(n), authorities);
    if |h.logs| < 64 {
      RotateAccepted(d, authorities, length);
    } else {
      ChangeLogStartsWithFlag(authorities);
      LaterLogRejected(d.header, |h.logs|, d.startPosition, EncodeLog(ChangeLog(authorities)), d.numAuthorities, d.paddedPubkeys);
    }
  }

  lemma ChangeLogStartsWithFlag(authorities: seq<Bytes32>)
    requires |authorities| <= MAX_AUTHORITY_SET_SIZE
    ensures EncodeLog(ChangeLog(authorities)) != [] && EncodeLog(ChangeLog(authorities))[0] == CONSENSUS_FLAG
  {
    hide EncodeMode, ScheduledChange;
  }

  /** When it accepts, the log it has checked ends where the host says, within the hashed bytes. */
  lemma HostLogHashed(sha256: Hasher, h: Header, authorities: seq<Bytes32>, d: HeaderRotateData)
    requires |Encode(h)| <= MAX_HEADER_SIZE && IsEpochEnd(sha256, h, authorities, d)
    requires |d.paddedPubkeys| == MAX_AUTHORITY_SET_SIZE
    requires EpochEndOk(d.header, d.numAuthorities, d.startPosition, d.paddedPubkeys)
    ensures LogEnd(d.header, d.numAuthorities, d.startPosition) == d.endPosition <= |Hashed(d.header)|
  {
    hide Encode, EncodeMode, PadHeader, ChainHash, EncodeLog, EpochEndOk, ScheduledChangeLog, At, LogEnd, Hashed;
    var length := |ChangeLog(authorities).value|;
    RotateRoundTrip(sha256, h, authorities, d);
    RotatePositions(sha256, h, authorities, d);
    ChangeLogIsPrinted(authorities);
    ListedKeysOnly(d.header, d.startPosition, Compact(length, CanonicalMode(length)), CanonicalMode(|authorities|),
                   authorities, d.numAuthorities, d.paddedPubkeys);
  }

  lemma LogLength(length: Compact, mode: nat, keys: seq<Bytes32>)
    requires Fits(length.mode, length.value) && |keys| < TWO_32 && Fits(mode, |keys|)
    ensures |ScheduledChangeLog(length, mode, keys)|
            == 10 + CompactIntByteLength(length.mode) + CompactIntByteLength(mode) + VALIDATOR_LENGTH * |keys|
  {
    hide EncodeMode, Entries;
  }

  lemma RotateAccepted(d: HeaderRotateData, authorities: seq<Bytes32>, length: U32)
    requires 1 <= |authorities| <= MAX_AUTHORITY_SET_SIZE == |d.paddedPubkeys| && authorities <= d.paddedPubkeys
    requires d.numAuthorities == |authorities|
    requires At(d.header.bytes, d.startPosition + 1,
                ScheduledChangeLog(Compact(length, CanonicalMode(length)), CanonicalMode(|authorities|), authorities))
    ensures EpochEndOk(d.header, d.numAuthorities, d.startPosition, d.paddedPubkeys)
            <==> d.startPosition + 7 + |EncodeCompact(length)| + |EncodeCompact(|authorities|)| + MAX_SUBARRAY_SIZE
                 <= MAX_HEADER_SIZE
  {
    hide EncodeMode, ScheduledChangeLog, At, DecodeCompactInt;
    var n := |authorities|;
    var c, m := Compact(length, CanonicalMode(length)), CanonicalMode(n);
    assert d.paddedPubkeys[..n] == authorities;
    if EpochEndOk(d.header, n, d.startPosition, d.paddedPubkeys) {
      LogParts(d.header.bytes, d.startPosition + 1, c, m, authorities);
      PrefixIff(d.header.bytes, d.startPosition, n, c, m);
    }
    if d.startPosition + 7 + |EncodeCompact(length)| + |EncodeCompact(n)| + MAX_SUBARRAY_SIZE <= MAX_HEADER_SIZE {
      EpochEndAccepts(d.header, n, d.startPosition, d.paddedPubkeys, c, m);
    }
  }

  // ----- the rotate circuit -----

  /** What the prover supplies. */
  datatype RotateWitness = RotateWitness(
    epochEndBlock: U32, header: EncodedHeader, numAuthorities: nat, startPosition: nat,
    newPubkeys: seq<Bytes32>, justification: HintedJustification)

  type HintedRotate = w: RotateWitness | |w.newPubkeys| == MAX_AUTHORITY_SET_SIZE
    witness RotateWitness(0, EMPTY_HEADER, 0, 0, seq(300, _ => ZERO32),
              JustificationData(Zeros(53), seq(300, _ => false), seq(300, _ => Zeros(64)), seq(300, _ => ZERO32), 0))

  /** The commitment to the new authority set, or None when some assertion fails. */
  function RotateOf(c: Crypto, setId: U64, setHash: Bytes32, w: HintedRotate): Option<Bytes32> {
    if Justifies(c, w.epochEndBlock, HashEncodedHeader(c.blake2b, w.header), setId, setHash, w.justification)
       && EpochEndOk(w.header, w.numAuthorities, w.startPosition, w.newPubkeys)
    then Commitment(c.sha256, w.numAuthorities, w.newPubkeys)
    else None
  }

  method RunRotate(c: Crypto, setId: U64, setHash: Bytes32, w: HintedRotate) returns (r: Option<Bytes32>)
    ensures r == RotateOf(c, setId, setHash, w)
  {
    var targetHeaderHash := HashEncodedHeader(c.blake2b, w.header);
    var justified := VerifySimpleJustification(c, w.epochEndBlock, targetHeaderHash, setId, setHash, w.justification);
    if !justified {
      return None;
    }
    var ok := VerifyEpochEndHeader(w.header, w.numAuthorities, w.startPosition, w.newPubkeys);
    if !ok {
      return None;
    }
    r := ComputeAuthoritySetCommitment(c.sha256, w.numAuthorities, w.newPubkeys);
  }

  /** The keys that the result commits to. */
  function NewKeys(w: HintedRotate): seq<Bytes32> {
    w.newPubkeys[..Min(w.numAuthorities, MAX_AUTHORITY_SET_SIZE)]
  }

  /** A scheduled change to these keys stands at the position in the padded header. For more authorities than
      slots, it is the entries of the slots that stand there. */
  ghost predicate ListsKeys(w: HintedRotate) {
    if w.numAuthorities <= MAX_AUTHORITY_SET_SIZE then
      exists length, mode :: HoldsLog(w.header, w.startPosition, length, mode, NewKeys(w))
    else
      exists length, mode :: HoldsLongLog(w.header, w.startPosition, length, mode, w.numAuthorities, w.newPubkeys)
  }

  predicate LogAccepted(w: HintedRotate) {
    EpochEndOk(w.header, w.numAuthorities, w.startPosition, w.newPubkeys)
  }

  /** The last key that is read ends within the bytes of the header that are hashed. */
  predicate KeysHashed(w: HintedRotate) {
    KeysEnd(w.header, w.numAuthorities, w.startPosition) <= |Hashed(w.header)|
  }

  /** Every header with the same hashed bytes that is accepted at the position lists the same keys. */
  ghost predicate KeysBound(w: HintedRotate) {
    KeysBoundAt(w.header, w.numAuthorities, w.startPosition, w.newPubkeys)
  }

  /** An accepted rotation commits to exactly the keys that stand at its position in the padded header: the
      result is their host hash, whatever the padding keys are. The current set has justified the hashed
      bytes of that header, and these bind the keys if and only if the last key ends within them. */
  lemma RotationIsListed(c: Crypto, setId: U64, setHash: Bytes32, w: HintedRotate)
    requires RotateOf(c, setId, setHash, w).Some?
    ensures w.numAuthorities > 0 && RotateOf(c, setId, setHash, w).value == ChainHash(c.sha256, NewKeys(w))
    ensures ListsKeys(w)
    ensures Justifies(c, w.epochEndBlock, HashEncodedHeader(c.blake2b, w.header), setId, setHash, w.justification)
    ensures LogAccepted(w) && (KeysHashed(w) <==> KeysBound(w))
  {
    hide Justifies, HoldsLog, HoldsLongLog, Hashed, EpochEndOk, KeysEnd, KeysBoundAt;
    LogIsListed(w);
    KeysBoundIff(w.header, w.numAuthorities, w.startPosition, w.newPubkeys);
  }

  lemma LogIsListed(w: HintedRotate)
    requires LogAccepted(w)
    ensures w.numAuthorities > 0 && ListsKeys(w)
  {
    hide HoldsLog, HoldsLongLog, PrefixLength, AuthoritiesOk;
    if w.numAuthorities <= MAX_AUTHORITY_SET_SIZE {
      var length, mode := EpochEndSound(w.header, w.numAuthorities, w.startPosition, w.newPubkeys);
      assert HoldsLog(w.header, w.startPosition, length, mode, NewKeys(w));
    } else {
      var length, mode := LongEpochEndSound(w.header, w.numAuthorities, w.startPosition, w.newPubkeys);
    }
  }

  /** Why the condition on the hashed bytes is needed: with a justification of a header that leaves room behind
      its hashed bytes, a log for any keys can stand there, and the circuit outputs their hash. */
  lemma UnhashedLogIsUnbound(c: Crypto, setId: U64, setHash: Bytes32, blockNumber: U32, e: EncodedHeader,
      j: HintedJustification, start: nat, keys: seq<Bytes32>) returns (w: HintedRotate)
    requires Justifies(c, blockNumber, HashEncodedHeader(c.blake2b, e), setId, setHash, j)
    requires |Hashed(e)| <= start + 1 && start + 10 + MAX_SUBARRAY_SIZE <= MAX_HEADER_SIZE
    requires 1 <= |keys| <= MAX_AUTHORITY_SET_SIZE
    ensures w.epochEndBlock == blockNumber && Hashed(w.header) == Hashed(e) && w.justification == j
    ensures LogAccepted(w) && !KeysHashed(w) && RotateOf(c, setId, setHash, w) == Some(ChainHash(c.sha256, keys))
  {
    hide Justifies, HoldsLog, Hashed, EpochEndOk, KeysEnd, ChainHash;
    var n := |keys|;
    var b := UnhashedLogIsFree(e, start, keys);
    var padded := Fill(keys, ZERO32, MAX_AUTHORITY_SET_SIZE);
    assert padded[..n] == keys;
    EpochEndExact(b, n, start, padded);
    PerturbedKeyAccepted(b, n, start, padded);
    w := RotateWitness(blockNumber, b, n, start, padded, j);
  }

  /** Two accepted rotations at one position of headers with one hash, of which one has its keys hashed, are to
      the same set, or yield a collision. */
  lemma RotationBinding(c: Crypto, setId1: U64, setHash1: Bytes32, w1: HintedRotate,
      setId2: U64, setHash2: Bytes32, w2: HintedRotate) returns (u: seq<Byte>, v: seq<Byte>)
    requires RotateOf(c, setId1, setHash1, w1).Some? && RotateOf(c, setId2, setHash2, w2).Some? && KeysHashed(w1)
    requires w1.startPosition == w2.startPosition
    requires HashEncodedHeader(c.blake2b, w1.header) == HashEncodedHeader(c.blake2b, w2.header)
    ensures Collision(c.blake2b, u, v)
            || (w1.numAuthorities == w2.numAuthorities && NewKeys(w1) == NewKeys(w2)
                && RotateOf(c, setId1, setHash1, w1) == RotateOf(c, setId2, setHash2, w2))
  {
    hide Justifies, Hashed, EpochEndOk, KeysEnd, ChainHash;
    u, v := Hashed(w1.header), Hashed(w2.header);
    if u == v {
      KeysBoundIff(w1.header, w1.numAuthorities, w1.startPosition, w1.newPubkeys);
    }
  }

  /** A rotation with the hash of an honest epoch end header, at the host's position, outputs the hash of the
      chain's new set whatever else is hinted, or yields a collision. For 64 logs or more there is none. */
  lemma RotationFollowsHeader(c: Crypto, setId: U64, setHash: Bytes32, h: Header, authorities: seq<Bytes32>,
      d: HeaderRotateData, w: HintedRotate) returns (u: seq<Byte>, v: seq<Byte>)
    requires |Encode(h)| <= MAX_HEADER_SIZE && IsEpochEnd(c.sha256, h, authorities, d)
    requires RotateOf(c, setId, setHash, w).Some? && w.startPosition == d.startPosition
    requires HashEncodedHeader(c.blake2b, w.header) == c.blake2b(Encode(h))
    ensures Collision(c.blake2b, u, v)
            || (|h.logs| < 64 && RotateOf(c, setId, setHash, w) == Some(d.newAuthoritySetHash))
  {
    hide Justifies, Encode, EncodeMode, Hashed, EpochEndOk, LogEnd, ChainHash, PadHeader, EncodeLog, ScheduledChangeLog;
    u, v := Hashed(w.header), Encode(h);
    if u == v {
      var length := |ChangeLog(authorities).value|;
      var log := EncodeLog(ChangeLog(authorities));
      var at := d.startPosition + |EncodeCompact(|h.logs|)|;
      RotatePositions(c.sha256, h, authorities, d);
      SliceOfHashed(d.header, w.header, at, at + |log|);
      ChangeLogIsPrinted(authorities);
      if |h.logs| >= 64 {
        ChangeLogStartsWithFlag(authorities);
        LaterLogRejected(w.header, |h.logs|, d.startPosition, log, w.numAuthorities, w.newPubkeys);
      } else {
        ListedKeysOnly(w.header, w.startPosition, Compact(length, CanonicalMode(length)), CanonicalMode(|authorities|),
                       authorities, w.numAuthorities, w.newPubkeys);
      }
    }
  }

  /** The honest rotation: with a justification of the epoch end header, the host's data makes the circuit
      output the hash of the chain's new authority set, exactly for fewer than 64 logs and when the largest
      subarray fits. */
  lemma RotationComplete(c: Crypto, setId: U64, setHash: Bytes32, h: Header, authorities: seq<Bytes32>,
      d: HeaderRotateData, j: HintedJustification)
    requires |Encode(h)| <= MAX_HEADER_SIZE && IsEpochEnd(c.sha256, h, authorities, d)
    requires Justifies(c, h.number, c.blake2b(Encode(h)), setId, setHash, j)
    ensures |d.paddedPubkeys| == MAX_AUTHORITY_SET_SIZE
    ensures RotateOf(c, setId, setHash, RotateWitness(h.number, d.header, d.numAuthorities, d.startPosition, d.paddedPubkeys, j))
            == if |h.logs| < 64 && d.endPosition + (MAX_AUTHORITY_SET_SIZE - |authorities|) * VALIDATOR_LENGTH <= MAX_HEADER_SIZE
               then Some(d.newAuthoritySetHash) else None
  {
    hide Justifies, Encode, EncodeMode, EpochEndOk, ChainHash;
    RotateRoundTrip(c.sha256, h, authorities, d);
    HashOfPadded(c.blake2b, h);
    assert d.paddedPubkeys[..|authorities|] == authorities;
  }

  /** The circuit does not look for the first scheduled change: every one that the justified header lists is accepted
      at its own position, if there is room for the largest subarray. */
  lemma AnyListedChange(c: Crypto, setId: U64, setHash: Bytes32, h: Header, k: nat, authorities: seq<Bytes32>,
      j: HintedJustification) returns (w: HintedRotate)
    requires |Encode(h)| <= MAX_HEADER_SIZE && k < |h.logs|
    requires 1 <= |authorities| <= MAX_AUTHORITY_SET_SIZE && h.logs[k] == ChangeLog(authorities)
    requires LogPosition(h, k) + |EncodeCompact(|h.logs|)| + MAX_PREFIX_LENGTH + MAX_SUBARRAY_SIZE <= MAX_HEADER_SIZE
    requires Justifies(c, h.number, c.blake2b(Encode(h)), setId, setHash, j)
    ensures w.epochEndBlock == h.number && w.header == PadHeader(Encode(h)).value && w.justification == j
    ensures w.startPosition + 1 == LogPosition(h, k) + |EncodeCompact(|h.logs|)|
    ensures RotateOf(c, setId, setHash, w) == Some(ChainHash(c.sha256, authorities)) && KeysHashed(w)
  {
    hide Justifies, Encode, EncodeMode, EncodeLog, PadHeader, At, ScheduledChangeLog, EpochEndOk, ChainHash, Hashed, LogEnd, KeysEnd;
    var n := |authorities|;
    var length := |ChangeLog(authorities).value|;
    var log := EncodeLog(ChangeLog(authorities));
    var at := LogPosition(h, k) + |EncodeCompact(|h.logs|)|;
    var padded := Fill(authorities, ZERO32, MAX_AUTHORITY_SET_SIZE);
    assert padded[..n] == authorities;
    PadFails(h);
    w := RotateWitness(h.number, PadHeader(Encode(h)).value, n, at - 1, padded, j);
    LogStandsAt(h, k);
    AtPadded(Encode(h), at, log);
    AtInside(Encode(h), at, log);
    HashedIsPadded(Encode(h));
    ChangeLogIsPrinted(authorities);
    EpochEndAccepts(w.header, n, at - 1, padded, Compact(length, CanonicalMode(length)), CanonicalMode(n));
    ListedKeysOnly(w.header, at - 1, Compact(length, CanonicalMode(length)), CanonicalMode(n), authorities, n, padded);
    KeysBeforeLogEnd(w.header, n, at - 1);
  }

  lemma KeysBeforeLogEnd(header: EncodedHeader, n: nat, start: nat)
    ensures KeysEnd(header, n, start) < LogEnd(header, n, start)
  {
  }

  /** So a header that lists two scheduled changes allows a rotation to either set. */
  lemma TwoListedChanges(c: Crypto, setId: U64, setHash: Bytes32, h: Header, first: seq<Bytes32>, second: seq<Bytes32>,
      j: HintedJustification) returns (w1: HintedRotate, w2: HintedRotate)
    requires 1 <= |first| <= MAX_AUTHORITY_SET_SIZE && 1 <= |second| <= MAX_AUTHORITY_SET_SIZE
    requires |Encode(h)| <= MAX_HEADER_SIZE && h.logs == [ChangeLog(first), ChangeLog(second)]
    requires Justifies(c, h.number, c.blake2b(Encode(h)), setId, setHash, j)
    ensures w1.header == w2.header && w1.epochEndBlock == w2.epochEndBlock && w1.justification == w2.justification
    ensures w1.startPosition != w2.startPosition && KeysHashed(w1) && KeysHashed(w2)
    ensures RotateOf(c, setId, setHash, w1) == Some(ChainHash(c.sha256, first))
    ensures RotateOf(c, setId, setHash, w2) == Some(ChainHash(c.sha256, second))
  {
    hide Justifies, Encode, EncodeMode, EncodeLog, PadHeader, RotateOf, KeysHashed, ChainHash;
    TwoLogPositions(h, first);
    w1 := AnyListedChange(c, setId, setHash, h, 0, first, j);
    w2 := AnyListedChange(c, setId, setHash, h, 1, second, j);
  }

  lemma TwoLogPositions(h: Header, first: seq<Bytes32>)
    requires 1 <= |first| <= MAX_AUTHORITY_SET_SIZE && |h.logs| == 2 && h.logs[0] == ChangeLog(first)
    ensures LogPosition(h, 0) < LogPosition(h, 1) <= 101 + 20 + MAX_SUBARRAY_SIZE
  {
    hide EncodeMode, ScheduledChangeLog, EncodeLog;
    var length := |ChangeLog(first).value|;
    ChangeLogIsPrinted(first);
    LogLength(Compact(length, CanonicalMode(length)), CanonicalMode(|first|), first);
    LogsSnoc(h.logs, 0);
    assert h.logs[..0] == [];
  }

  lemma HashOfPadded(blake2b: Hasher, h: Header)
    requires |Encode(h)| <= MAX_HEADER_SIZE
    ensures HashEncodedHeader(blake2b, PadHeader(Encode(h)).value) == blake2b(Encode(h))
  {
    hide Encode;
    assert Hashed(PadHeader(Encode(h)).value) == Encode(h);
  }
}
