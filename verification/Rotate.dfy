/** Authority rotation: the circuit's parser of the scheduled change in an epoch end header, run at a
    position the prover chooses, and the host that prints that position. */
module Rotate {
  import opened Bytes
  import opened Scale
  import opened Headers
  import opened Justification

  const CONSENSUS_ENGINE_ID_PREFIX_LENGTH := 6
  const MAX_PREFIX_LENGTH := 17
  const PUBKEY_LENGTH := 32
  const WEIGHT_LENGTH := 8
  const VALIDATOR_LENGTH := 40
  const DELAY_LENGTH := 4
  const MAX_SUBARRAY_SIZE := MAX_AUTHORITY_SET_SIZE * VALIDATOR_LENGTH + DELAY_LENGTH

  /** "FRNK", the engine id of GRANDPA. */
  const FRNK: EngineId := [70, 82, 78, 75]
  const SCHEDULED_CHANGE_FLAG: Byte := 1
  const WEIGHT_ONE: seq<Byte> := [1, 0, 0, 0, 0, 0, 0, 0]
  const NO_DELAY: seq<Byte> := [0, 0, 0, 0]

  // ----- the printed form -----

  /** Each authority with voting weight 1. */
  function Entries(keys: seq<Bytes32>): (bs: seq<Byte>)
    ensures |bs| == VALIDATOR_LENGTH * |keys|
  {
    if keys == [] then [] else keys[0] + WEIGHT_ONE + Entries(keys[1..])
  }

  /** A scheduled change, with the compact number of authorities written in a given mode. */
  function ScheduledChange(mode: nat, keys: seq<Bytes32>): seq<Byte>
    requires |keys| < TWO_32 && Fits(mode, |keys|)
  {
    [SCHEDULED_CHANGE_FLAG] + EncodeMode(mode, |keys|) + Entries(keys) + NO_DELAY
  }

  /** A consensus log with a scheduled change, whose length field claims `length`. */
  function ScheduledChangeLog(length: Compact, mode: nat, keys: seq<Bytes32>): seq<Byte>
    requires Fits(length.mode, length.value) && |keys| < TWO_32 && Fits(mode, |keys|)
  {
    [CONSENSUS_FLAG] + FRNK + EncodeMode(length.mode, length.value) + ScheduledChange(mode, keys)
  }

  // ----- the circuit's parser -----

  predicate VerifyConsensusLog(prefix: seq<Byte>)
    requires |prefix| == MAX_PREFIX_LENGTH
  {
    prefix[1] == CONSENSUS_FLAG && prefix[2..6] == FRNK
  }

  /** The index after the scheduled change flag. The claimed message length is skipped, not checked. */
  function VerifyScheduledChangeMessageLengthAndFlag(prefix: seq<Byte>): (r: Option<nat>)
    requires |prefix| == MAX_PREFIX_LENGTH
    ensures r.Some? ==> 8 <= r.value <= 12
  {
    var length := DecodeCompactInt(prefix[CONSENSUS_ENGINE_ID_PREFIX_LENGTH..CONSENSUS_ENGINE_ID_PREFIX_LENGTH + MAX_COMPACT_UINT_BYTES]);
    DecodedMode(prefix[6..11]);
    if length.None? then None
    else
      var cursor := CONSENSUS_ENGINE_ID_PREFIX_LENGTH + CompactIntByteLength(length.value.mode);
      if prefix[cursor] == SCHEDULED_CHANGE_FLAG then Some(cursor + 1) else None
  }

  /** The index after the number of authorities, which must be the supplied one. */
  function VerifyEncodedNumAuthorities(prefix: seq<Byte>, cursor: nat, untrustedSize: nat): (r: Option<nat>)
    requires |prefix| == MAX_PREFIX_LENGTH && cursor <= 12
    ensures r.Some? ==> cursor < r.value <= MAX_PREFIX_LENGTH
  {
    var size := DecodeCompactInt(prefix[cursor..cursor + MAX_COMPACT_UINT_BYTES]);
    DecodedMode(prefix[cursor..cursor + MAX_COMPACT_UINT_BYTES]);
    if size.Some? && size.value.value == untrustedSize then Some(cursor + CompactIntByteLength(size.value.mode)) else None
  }

  /** The length of the part before the authorities; None when a check on it fails. */
  function PrefixLength(prefix: seq<Byte>, n: nat): (r: Option<nat>)
    requires |prefix| == MAX_PREFIX_LENGTH
    ensures r.Some? ==> r.value <= MAX_PREFIX_LENGTH
  {
    var afterFlag := VerifyScheduledChangeMessageLengthAndFlag(prefix);
    if !VerifyConsensusLog(prefix) || afterFlag.None? then None
    else VerifyEncodedNumAuthorities(prefix, afterFlag.value, n)
  }

  /** At `at` stands an authority entry with this key. */
  predicate EntryAt(bytes: seq<Byte>, at: nat, key: Bytes32) {
    at + VALIDATOR_LENGTH <= |bytes|
    && bytes[at..at + PUBKEY_LENGTH] == key
    && bytes[at + PUBKEY_LENGTH..at + VALIDATOR_LENGTH] == WEIGHT_ONE
  }

  predicate EntriesAt(bytes: seq<Byte>, at: nat, keys: seq<Bytes32>) {
    forall i :: 0 <= i < |keys| ==> EntryAt(bytes, at + VALIDATOR_LENGTH * i, keys[i])
  }

  predicate NoDelayAt(bytes: seq<Byte>, at: nat) {
    at + DELAY_LENGTH <= |bytes| && bytes[at..at + DELAY_LENGTH] == NO_DELAY
  }

  /** What the masked loop checks: the first `n` entries and, after the last one, the delay. */
  predicate AuthoritiesOk(bytes: seq<Byte>, n: nat, keys: seq<Bytes32>) {
    EntriesAt(bytes, 0, keys[..Min(n, |keys|)])
    && (1 <= n <= |keys| ==> NoDelayAt(bytes, VALIDATOR_LENGTH * n))
  }

  /** Acceptance of an epoch end header. Both subarrays must lie inside the padded header. */
  predicate EpochEndOk(header: EncodedHeader, n: nat, start: nat, newPubkeys: seq<Bytes32>)
    requires |newPubkeys| == MAX_AUTHORITY_SET_SIZE
  {
    && n != 0
    && start + MAX_PREFIX_LENGTH <= MAX_HEADER_SIZE
    && var length := PrefixLength(header.bytes[start..start + MAX_PREFIX_LENGTH], n);
       (length.Some? && start + length.value + MAX_SUBARRAY_SIZE <= MAX_HEADER_SIZE
        && AuthoritiesOk(header.bytes[start + length.value..start + length.value + MAX_SUBARRAY_SIZE], n, newPubkeys))
  }

  /** The circuit's loop runs over all slots and is switched off after entry `n`. */
  method VerifyAuthorities(subarray: seq<Byte>, n: nat, newPubkeys: seq<Bytes32>) returns (ok: bool)
    requires |newPubkeys| == MAX_AUTHORITY_SET_SIZE && |subarray| == MAX_SUBARRAY_SIZE && n != 0
    ensures ok <==> AuthoritiesOk(subarray, n, newPubkeys)
  {
    ok := true;
    var validatorDisabled := false;
    for i := 0 to MAX_AUTHORITY_SET_SIZE
      invariant validatorDisabled <==> n <= i
      invariant ok <==> EntriesAt(subarray, 0, newPubkeys[..Min(n, i)]) && (n <= i ==> NoDelayAt(subarray, VALIDATOR_LENGTH * n))
    {
      var idx := i * VALIDATOR_LENGTH;
      EntriesSnoc(subarray, newPubkeys, i);
      var pubkeyMatch := subarray[idx..idx + PUBKEY_LENGTH] == newPubkeys[i];
      ok := ok && (pubkeyMatch || validatorDisabled);
      var weightMatch := subarray[idx + PUBKEY_LENGTH..idx + VALIDATOR_LENGTH] == WEIGHT_ONE;
      ok := ok && (weightMatch || validatorDisabled);
      var atEnd := i + 1 == n;
      validatorDisabled := if atEnd then true else validatorDisabled;
      var delayMatch := subarray[idx + VALIDATOR_LENGTH..idx + VALIDATOR_LENGTH + DELAY_LENGTH] == NO_DELAY;
      ok := ok && (delayMatch || !atEnd);
    }
  }

  lemma EntriesSnoc(bytes: seq<Byte>, keys: seq<Bytes32>, i: nat)
    requires i < |keys|
    ensures EntriesAt(bytes, 0, keys[..i + 1]) <==> EntriesAt(bytes, 0, keys[..i]) && EntryAt(bytes, VALIDATOR_LENGTH * i, keys[i])
  {
    if EntriesAt(bytes, 0, keys[..i + 1]) {
      forall k | 0 <= k < i ensures EntryAt(bytes, 0 + VALIDATOR_LENGTH * k, keys[..i][k]) {
        assert EntryAt(bytes, 0 + VALIDATOR_LENGTH * k, keys[..i + 1][k]);
      }
      assert EntryAt(bytes, 0 + VALIDATOR_LENGTH * i, keys[..i + 1][i]);
    }
    if EntriesAt(bytes, 0, keys[..i]) && EntryAt(bytes, VALIDATOR_LENGTH * i, keys[i]) {
      forall k | 0 <= k < i + 1 ensures EntryAt(bytes, 0 + VALIDATOR_LENGTH * k, keys[..i + 1][k]) {
        if k < i { assert EntryAt(bytes, 0 + VALIDATOR_LENGTH * k, keys[..i][k]); }
      }
    }
  }

  method VerifyEpochEndHeader(header: EncodedHeader, n: nat, start: nat, newPubkeys: seq<Bytes32>) returns (ok: bool)
    requires |newPubkeys| == MAX_AUTHORITY_SET_SIZE
    ensures ok <==> EpochEndOk(header, n, start, newPubkeys)
  {
    if n == 0 || start + MAX_PREFIX_LENGTH > MAX_HEADER_SIZE {
      return false;
    }
    var cursor := start;
    var prefix := header.bytes[cursor..cursor + MAX_PREFIX_LENGTH];
    if !VerifyConsensusLog(prefix) {
      return false;
    }
    var afterFlag := VerifyScheduledChangeMessageLengthAndFlag(prefix);
    if afterFlag.None? {
      return false;
    }
    var totalPrefixLength := VerifyEncodedNumAuthorities(prefix, afterFlag.value, n);
    if totalPrefixLength.None? {
      return false;
    }
    cursor := cursor + totalPrefixLength.value;
    if cursor + MAX_SUBARRAY_SIZE > MAX_HEADER_SIZE {
      return false;
    }
    ok := VerifyAuthorities(header.bytes[cursor..cursor + MAX_SUBARRAY_SIZE], n, newPubkeys);
  }

  // ----- the parser accepts exactly what is printed -----

  lemma {:induction false} EntriesIff(bytes: seq<Byte>, at: nat, keys: seq<Bytes32>)
    requires at + VALIDATOR_LENGTH * |keys| <= |bytes|
    ensures bytes[at..at + VALIDATOR_LENGTH * |keys|] == Entries(keys) <==> EntriesAt(bytes, at, keys)
    decreases |keys|
  {
    if keys != [] {
      var rest := keys[1..];
      var next := at + VALIDATOR_LENGTH;
      var end := at + VALIDATOR_LENGTH * |keys|;
      EntriesIff(bytes, next, rest);
      var head: seq<Byte> := keys[0] + WEIGHT_ONE;
      assert Entries(keys) == head + Entries(rest);
      SliceSplit(bytes, at, next, end);
      SliceSplit(bytes, at, at + 32, next);
      assert bytes[at..end] == Entries(keys) <==> bytes[at..next] == head && bytes[next..end] == Entries(rest) by {
        assert Entries(keys)[..40] == head && Entries(keys)[40..] == Entries(rest);
      }
      assert bytes[at..next] == head <==> EntryAt(bytes, at, keys[0]) by {
        assert head[..32] == keys[0] && head[32..] == WEIGHT_ONE;
      }
      EntriesCons(bytes, at, keys);
    }
  }

  lemma SliceSplit(bytes: seq<Byte>, a: nat, b: nat, c: nat)
    requires a <= b <= c <= |bytes|
    ensures bytes[a..c] == bytes[a..b] + bytes[b..c]
    ensures bytes[a..c][..b - a] == bytes[a..b] && bytes[a..c][b - a..] == bytes[b..c]
  {
  }

  lemma EntriesCons(bytes: seq<Byte>, at: nat, keys: seq<Bytes32>)
    requires keys != []
    ensures EntriesAt(bytes, at, keys) <==> EntryAt(bytes, at, keys[0]) && EntriesAt(bytes, at + VALIDATOR_LENGTH, keys[1..])
  {
    if EntriesAt(bytes, at, keys) {
      assert EntryAt(bytes, at + VALIDATOR_LENGTH * 0, keys[0]);
      forall i | 0 <= i < |keys| - 1 ensures EntryAt(bytes, at + VALIDATOR_LENGTH + VALIDATOR_LENGTH * i, keys[1..][i]) {
        assert EntryAt(bytes, at + VALIDATOR_LENGTH * (i + 1), keys[i + 1]);
      }
    }
    if EntryAt(bytes, at, keys[0]) && EntriesAt(bytes, at + VALIDATOR_LENGTH, keys[1..]) {
      forall i | 0 <= i < |keys| ensures EntryAt(bytes, at + VALIDATOR_LENGTH * i, keys[i]) {
        if i > 0 { assert EntryAt(bytes, at + VALIDATOR_LENGTH + VALIDATOR_LENGTH * (i - 1), keys[1..][i - 1]); }
      }
    }
  }

  /** Whether `part` stands in `bytes` at `at`. */
  predicate At(bytes: seq<Byte>, at: nat, part: seq<Byte>) {
    at + |part| <= |bytes| && bytes[at..at + |part|] == part
  }

  lemma AtByte(bytes: seq<Byte>, at: nat, b: Byte)
    ensures At(bytes, at, [b]) <==> at < |bytes| && bytes[at] == b
  {
    if at < |bytes| {
      assert bytes[at..at + 1] == [bytes[at]];
    }
  }

  lemma AtConcat(bytes: seq<Byte>, at: nat, a: seq<Byte>, b: seq<Byte>)
    ensures At(bytes, at, a + b) <==> At(bytes, at, a) && At(bytes, at + |a|, b)
  {
    if at + |a| + |b| <= |bytes| {
      var s := bytes[at..at + |a + b|];
      assert s[..|a|] == bytes[at..at + |a|] && s[|a|..] == bytes[at + |a|..at + |a| + |b|];
      assert (a + b)[..|a|] == a && (a + b)[|a|..] == b;
      assert s == s[..|a|] + s[|a|..];
    }
  }

  lemma AtConcat4(bytes: seq<Byte>, at: nat, a: seq<Byte>, b: seq<Byte>, c: seq<Byte>, d: seq<Byte>)
    ensures At(bytes, at, a + b + c + d) <==>
      At(bytes, at, a) && At(bytes, at + |a|, b) && At(bytes, at + |a| + |b|, c) && At(bytes, at + |a| + |b| + |c|, d)
  {
    hide At;
    AtConcat(bytes, at, a, b);
    AtConcat(bytes, at, a + b, c);
    AtConcat(bytes, at, a + b + c, d);
  }

  lemma SliceOfSlice(bytes: seq<Byte>, a: nat, b: nat, i: nat, j: nat)
    requires a <= b <= |bytes| && i <= j <= b - a
    ensures bytes[a..b][i..j] == bytes[a + i..a + j]
  {
    assert forall k :: 0 <= k < j - i ==> bytes[a..b][i..j][k] == bytes[a + i..a + j][k];
  }

  /** The header's bytes after the first one at `start` are a scheduled change log for these keys, and
      there is room for the largest authority set. */
  ghost predicate HoldsLog(header: EncodedHeader, start: nat, length: Compact, mode: nat, keys: seq<Bytes32>) {
    && Fits(length.mode, length.value) && |keys| < TWO_32 && Fits(mode, |keys|)
    && At(header.bytes, start + 1, ScheduledChangeLog(length, mode, keys))
    && start + 7 + CompactIntByteLength(length.mode) + CompactIntByteLength(mode) + MAX_SUBARRAY_SIZE <= MAX_HEADER_SIZE
  }

  lemma ScheduledChangeParts(bytes: seq<Byte>, at: nat, mode: nat, keys: seq<Bytes32>)
    requires |keys| < TWO_32 && Fits(mode, |keys|)
    ensures var m := CompactIntByteLength(mode);
            At(bytes, at, ScheduledChange(mode, keys)) <==>
              && At(bytes, at, [SCHEDULED_CHANGE_FLAG])
              && At(bytes, at + 1, EncodeMode(mode, |keys|))
              && At(bytes, at + 1 + m, Entries(keys))
              && At(bytes, at + 1 + m + VALIDATOR_LENGTH * |keys|, NO_DELAY)
  {
    hide EncodeMode, Entries, At;
    AtConcat4(bytes, at, [SCHEDULED_CHANGE_FLAG], EncodeMode(mode, |keys|), Entries(keys), NO_DELAY);
  }

  /** The log, part by part. */
  lemma LogParts(bytes: seq<Byte>, at: nat, length: Compact, mode: nat, keys: seq<Bytes32>)
    requires Fits(length.mode, length.value) && |keys| < TWO_32 && Fits(mode, |keys|)
    ensures var l := CompactIntByteLength(length.mode);
            var m := CompactIntByteLength(mode);
            At(bytes, at, ScheduledChangeLog(length, mode, keys)) <==>
              && At(bytes, at, [CONSENSUS_FLAG]) && At(bytes, at + 1, FRNK)
              && At(bytes, at + 5, EncodeMode(length.mode, length.value))
              && At(bytes, at + 5 + l, [SCHEDULED_CHANGE_FLAG])
              && At(bytes, at + 6 + l, EncodeMode(mode, |keys|))
              && At(bytes, at + 6 + l + m, Entries(keys))
              && At(bytes, at + 6 + l + m + VALIDATOR_LENGTH * |keys|, NO_DELAY)
  {
    hide EncodeMode, ScheduledChange, At;
    var l := EncodeMode(length.mode, length.value);
    AtConcat4(bytes, at, [CONSENSUS_FLAG], FRNK, l, ScheduledChange(mode, keys));
    ScheduledChangeParts(bytes, at + 5 + |l|, mode, keys);
  }

  /** A window of a prefix decodes as a compact integer when its encoding stands there. */
  lemma WindowIff(bytes: seq<Byte>, start: nat, at: nat, c: Compact)
    requires start + MAX_PREFIX_LENGTH <= |bytes| && at <= 12
    ensures DecodeCompactInt(bytes[start..start + MAX_PREFIX_LENGTH][at..at + 5]) == Some(c)
            <==> Fits(c.mode, c.value) && At(bytes, start + at, EncodeMode(c.mode, c.value))
  {
    hide DecodeCompactInt, EncodeMode;
    var w := bytes[start..start + MAX_PREFIX_LENGTH][at..at + 5];
    SliceOfSlice(bytes, start, start + MAX_PREFIX_LENGTH, at, at + 5);
    DecodeIffPrefix(w, c);
    if Fits(c.mode, c.value) {
      var e := EncodeMode(c.mode, c.value);
      SliceOfSlice(bytes, start + at, start + at + 5, 0, |e|);
      assert w[0..|e|] == w[..|e|];
      assert e <= w <==> w[..|e|] == e;
    }
  }

  /** The prefix checks succeed exactly on a printed prefix, and the length they return is its length. */
  lemma PrefixIff(bytes: seq<Byte>, start: nat, n: U32, length: Compact, mode: nat)
    requires start + MAX_PREFIX_LENGTH <= |bytes|
    ensures var prefix := bytes[start..start + MAX_PREFIX_LENGTH];
            (Fits(length.mode, length.value) && Fits(mode, n)
             && At(bytes, start + 1, [CONSENSUS_FLAG]) && At(bytes, start + 2, FRNK)
             && At(bytes, start + 6, EncodeMode(length.mode, length.value))
             && At(bytes, start + 6 + CompactIntByteLength(length.mode), [SCHEDULED_CHANGE_FLAG])
             && At(bytes, start + 7 + CompactIntByteLength(length.mode), EncodeMode(mode, n)))
            <==>
            (length.mode < 4 && mode < 4
             && DecodeCompactInt(prefix[6..11]) == Some(length)
             && DecodeCompactInt(prefix[7 + CompactIntByteLength(length.mode)..][..5]) == Some(Compact(n, mode))
             && PrefixLength(prefix, n) == Some(7 + CompactIntByteLength(length.mode) + CompactIntByteLength(mode)))
  {
    hide DecodeCompactInt, EncodeMode;
    var prefix := bytes[start..start + MAX_PREFIX_LENGTH];
    WindowIff(bytes, start, 6, length);
    if length.mode < 4 {
      var l := CompactIntByteLength(length.mode);
      WindowIff(bytes, start, 7 + l, Compact(n, mode));
      assert prefix[7 + l..][..5] == prefix[7 + l..7 + l + 5];
      assert prefix[6 + l] == bytes[start + 6 + l];
      AtByte(bytes, start + 6 + l, SCHEDULED_CHANGE_FLAG);
      SliceOfSlice(bytes, start, start + MAX_PREFIX_LENGTH, 2, 6);
      AtByte(bytes, start + 1, CONSENSUS_FLAG);
      assert prefix[1] == bytes[start + 1];
      assert At(bytes, start + 2, FRNK) <==> prefix[2..6] == FRNK;
      assert prefix[7 + l..7 + l + 5] == prefix[6 + l + 1..6 + l + 1 + 5];
    }
  }

  /** For a set that fits, acceptance at `start` means exactly that the header holds, one byte later, a
      consensus log with a scheduled change to these keys with weight 1 and no delay - for some claimed
      length and some mode of the number of authorities. */
  lemma EpochEndExact(header: EncodedHeader, n: nat, start: nat, newPubkeys: seq<Bytes32>)
    requires |newPubkeys| == MAX_AUTHORITY_SET_SIZE && 1 <= n <= MAX_AUTHORITY_SET_SIZE
    ensures EpochEndOk(header, n, start, newPubkeys)
            <==> exists length, mode :: HoldsLog(header, start, length, mode, newPubkeys[..n])
  {
    hide DecodeCompactInt, EncodeMode;
    if EpochEndOk(header, n, start, newPubkeys) {
      var length, mode := EpochEndSound(header, n, start, newPubkeys);
    }
    if length, mode :| HoldsLog(header, start, length, mode, newPubkeys[..n]) {
      EpochEndAccepts(header, n, start, newPubkeys, length, mode);
    }
  }

  lemma SubarrayIff(bytes: seq<Byte>, at: nat, n: nat, keys: seq<Bytes32>)
    requires at + MAX_SUBARRAY_SIZE <= |bytes| && |keys| == MAX_AUTHORITY_SET_SIZE && 1 <= n
    ensures var m := Min(n, MAX_AUTHORITY_SET_SIZE);
            AuthoritiesOk(bytes[at..at + MAX_SUBARRAY_SIZE], n, keys)
            <==> At(bytes, at, Entries(keys[..m]))
                 && (n <= MAX_AUTHORITY_SET_SIZE ==> At(bytes, at + VALIDATOR_LENGTH * n, NO_DELAY))
  {
    var m := Min(n, MAX_AUTHORITY_SET_SIZE);
    var sub := bytes[at..at + MAX_SUBARRAY_SIZE];
    EntriesIff(sub, 0, keys[..m]);
    SliceOfSlice(bytes, at, at + MAX_SUBARRAY_SIZE, 0, VALIDATOR_LENGTH * m);
    SliceOfSlice(bytes, at, at + MAX_SUBARRAY_SIZE, VALIDATOR_LENGTH * m, VALIDATOR_LENGTH * m + DELAY_LENGTH);
  }

  lemma EpochEndSound(header: EncodedHeader, n: nat, start: nat, newPubkeys: seq<Bytes32>)
      returns (length: Compact, mode: nat)
    requires |newPubkeys| == MAX_AUTHORITY_SET_SIZE && 1 <= n <= MAX_AUTHORITY_SET_SIZE
    requires EpochEndOk(header, n, start, newPubkeys)
    ensures HoldsLog(header, start, length, mode, newPubkeys[..n])
  {
    hide DecodeCompactInt, EncodeMode, Entries, ScheduledChangeLog;
    var prefix := header.bytes[start..start + MAX_PREFIX_LENGTH];
    length := DecodeCompactInt(prefix[6..11]).value;
    DecodedMode(prefix[6..11]);
    var l := CompactIntByteLength(length.mode);
    var window := prefix[7 + l..7 + l + 5];
    assert prefix[7 + l..][..5] == window;
    DecodedMode(window);
    mode := DecodeCompactInt(window).value.mode;
    PrefixIff(header.bytes, start, n, length, mode);
    SubarrayIff(header.bytes, start + PrefixLength(prefix, n).value, n, newPubkeys);
    LogParts(header.bytes, start + 1, length, mode, newPubkeys[..n]);
  }

  lemma EpochEndAccepts(header: EncodedHeader, n: nat, start: nat, newPubkeys: seq<Bytes32>, length: Compact, mode: nat)
    requires |newPubkeys| == MAX_AUTHORITY_SET_SIZE && 1 <= n <= MAX_AUTHORITY_SET_SIZE
    requires HoldsLog(header, start, length, mode, newPubkeys[..n])
    ensures EpochEndOk(header, n, start, newPubkeys)
  {
    hide DecodeCompactInt, EncodeMode, Entries, ScheduledChangeLog;
    LogParts(header.bytes, start + 1, length, mode, newPubkeys[..n]);
    PrefixIff(header.bytes, start, n, length, mode);
    var prefix := header.bytes[start..start + MAX_PREFIX_LENGTH];
    SubarrayIff(header.bytes, start + 7 + CompactIntByteLength(length.mode) + CompactIntByteLength(mode), n, newPubkeys);
  }

  // ----- what the hash of the header binds -----

  /** The length of the accepted prefix at a position. */
  function PrefixAt(header: EncodedHeader, n: nat, start: nat): (r: Option<nat>)
    ensures r.Some? ==> start + MAX_PREFIX_LENGTH <= MAX_HEADER_SIZE && r.value <= MAX_PREFIX_LENGTH
  {
    if start + MAX_PREFIX_LENGTH > MAX_HEADER_SIZE then None
    else PrefixLength(header.bytes[start..start + MAX_PREFIX_LENGTH], n)
  }

  /** Where the entries start behind the prefix. */
  function EntriesStart(header: EncodedHeader, n: nat, start: nat): nat {
    var prefix := PrefixAt(header, n, start);
    start + if prefix.Some? then prefix.value else 0
  }

  /** Where the entries end; more authorities than slots are not looked at. */
  function EntriesEnd(header: EncodedHeader, n: nat, start: nat): nat {
    EntriesStart(header, n, start) + VALIDATOR_LENGTH * Min(n, MAX_AUTHORITY_SET_SIZE)
  }

  /** Where the last checked key ends: its weight follows. */
  function KeysEnd(header: EncodedHeader, n: nat, start: nat): int {
    EntriesEnd(header, n, start) - WEIGHT_LENGTH
  }

  /** Where the checked log ends. For more authorities than slots no delay is checked. */
  function LogEnd(header: EncodedHeader, n: nat, start: nat): nat {
    EntriesEnd(header, n, start) + if n <= MAX_AUTHORITY_SET_SIZE then DELAY_LENGTH else 0
  }

  /** The two headers have the same bytes from `from` up to `to`. */
  predicate SameBytes(a: EncodedHeader, b: EncodedHeader, from: nat, to: nat) {
    from <= to <= MAX_HEADER_SIZE && a.bytes[from..to] == b.bytes[from..to]
  }

  lemma SameWithin(a: EncodedHeader, b: EncodedHeader, from: nat, to: nat, i: nat, j: nat)
    requires SameBytes(a, b, from, to) && from <= i <= j <= to
    ensures SameBytes(a, b, i, j)
  {
    SliceOfSlice(a.bytes, from, to, i - from, j - from);
    SliceOfSlice(b.bytes, from, to, i - from, j - from);
  }

  /** The prefix without its first byte determines the outcome of the prefix checks and the only number
      of authorities with which they can succeed. */
  lemma SamePrefix(a: EncodedHeader, b: EncodedHeader, start: nat, n: nat, m: nat)
    requires start + MAX_PREFIX_LENGTH <= MAX_HEADER_SIZE && SameBytes(a, b, start + 1, start + MAX_PREFIX_LENGTH)
    ensures var p, q := a.bytes[start..start + MAX_PREFIX_LENGTH], b.bytes[start..start + MAX_PREFIX_LENGTH];
            && PrefixLength(p, n) == PrefixLength(q, n)
            && (PrefixLength(p, n).Some? && PrefixLength(q, m).Some? ==> n == m)
  {
    hide DecodeCompactInt;
    var p, q := a.bytes[start..start + MAX_PREFIX_LENGTH], b.bytes[start..start + MAX_PREFIX_LENGTH];
    TailSlice(a, b, start, 1, 2);
    TailSlice(a, b, start, 2, 6);
    TailSlice(a, b, start, 6, 11);
    assert p[1] == p[1..2][0] && q[1] == q[1..2][0];
    DecodedMode(p[6..11]);
    var length := DecodeCompactInt(p[6..11]);
    if length.Some? {
      var cursor := 6 + CompactIntByteLength(length.value.mode);
      TailSlice(a, b, start, cursor, cursor + 1);
      TailSlice(a, b, start, cursor + 1, cursor + 6);
      assert p[cursor] == p[cursor..cursor + 1][0] && q[cursor] == q[cursor..cursor + 1][0];
    }
  }

  lemma TailSlice(a: EncodedHeader, b: EncodedHeader, start: nat, i: nat, j: nat)
    requires start + MAX_PREFIX_LENGTH <= MAX_HEADER_SIZE && SameBytes(a, b, start + 1, start + MAX_PREFIX_LENGTH)
    requires 1 <= i <= j <= MAX_PREFIX_LENGTH
    ensures a.bytes[start..start + MAX_PREFIX_LENGTH][i..j] == b.bytes[start..start + MAX_PREFIX_LENGTH][i..j]
  {
    SameWithin(a, b, start + 1, start + MAX_PREFIX_LENGTH, start + i, start + j);
    SliceOfSlice(a.bytes, start, start + MAX_PREFIX_LENGTH, i, j);
    SliceOfSlice(b.bytes, start, start + MAX_PREFIX_LENGTH, i, j);
  }

  /** Keys are determined by the entries printed for them. */
  lemma EntriesInjective(a: seq<Bytes32>, b: seq<Bytes32>)
    requires |a| == |b| && Entries(a) == Entries(b)
    ensures a == b
  {
    hide Entries, EntryAt;
    forall i | 0 <= i < |a| ensures a[i] == b[i] {
      KeyInEntries(Entries(a), 0, a, i);
      KeyInEntries(Entries(a), 0, b, i);
      SameEntry(Entries(a), VALIDATOR_LENGTH * i, a[i], b[i]);
    }
  }

  lemma SameEntry(bytes: seq<Byte>, at: nat, a: Bytes32, b: Bytes32)
    requires EntryAt(bytes, at, a) && EntryAt(bytes, at, b)
    ensures a == b
  {
  }

  /** What acceptance says about the parts of the log. */
  lemma AcceptedParts(header: EncodedHeader, n: nat, start: nat, keys: seq<Bytes32>)
    requires |keys| == MAX_AUTHORITY_SET_SIZE && EpochEndOk(header, n, start, keys)
    ensures n > 0 && PrefixAt(header, n, start).Some? && start + 9 <= EntriesStart(header, n, start)
    ensures EntriesStart(header, n, start) + MAX_SUBARRAY_SIZE <= MAX_HEADER_SIZE
    ensures At(header.bytes, EntriesStart(header, n, start), Entries(keys[..Min(n, MAX_AUTHORITY_SET_SIZE)]))
    ensures n <= MAX_AUTHORITY_SET_SIZE ==> At(header.bytes, EntriesEnd(header, n, start), NO_DELAY)
  {
    hide PrefixLength, AuthoritiesOk, Entries;
    PrefixAtLeast(header.bytes[start..start + MAX_PREFIX_LENGTH], n);
    SubarrayIff(header.bytes, EntriesStart(header, n, start), n, keys);
  }

  /** And the other way around. */
  lemma PartsAccepted(header: EncodedHeader, n: nat, start: nat, keys: seq<Bytes32>)
    requires |keys| == MAX_AUTHORITY_SET_SIZE && n > 0 && PrefixAt(header, n, start).Some?
    requires EntriesStart(header, n, start) + MAX_SUBARRAY_SIZE <= MAX_HEADER_SIZE
    requires At(header.bytes, EntriesStart(header, n, start), Entries(keys[..Min(n, MAX_AUTHORITY_SET_SIZE)]))
    requires n <= MAX_AUTHORITY_SET_SIZE ==> At(header.bytes, EntriesEnd(header, n, start), NO_DELAY)
    ensures EpochEndOk(header, n, start, keys)
  {
    hide PrefixLength, AuthoritiesOk, Entries;
    SubarrayIff(header.bytes, EntriesStart(header, n, start), n, keys);
  }

  lemma PrefixAtLeast(prefix: seq<Byte>, n: nat)
    requires |prefix| == MAX_PREFIX_LENGTH && PrefixLength(prefix, n).Some?
    ensures 9 <= PrefixLength(prefix, n).value
  {
  }

  /** Key `i` of printed entries stands `i` entries in. */
  lemma KeyInEntries(bytes: seq<Byte>, at: nat, keys: seq<Bytes32>, i: nat)
    requires At(bytes, at, Entries(keys)) && i < |keys|
    ensures EntryAt(bytes, at + VALIDATOR_LENGTH * i, keys[i])
  {
    hide Entries, EntryAt;
    EntriesIff(bytes, at, keys);
    assert EntriesAt(bytes, at, keys);
  }

  /** A header with the same bytes where the log stands is accepted with the same keys. */
  lemma SameLogAccepted(a: EncodedHeader, b: EncodedHeader, n: nat, start: nat, keys: seq<Bytes32>)
    requires |keys| == MAX_AUTHORITY_SET_SIZE && EpochEndOk(a, n, start, keys)
    requires SameBytes(a, b, start + 1, LogEnd(a, n, start))
    ensures EpochEndOk(b, n, start, keys) && LogEnd(b, n, start) == LogEnd(a, n, start)
  {
    hide PrefixLength, EpochEndOk, Entries;
    AcceptedParts(a, n, start, keys);
    var at, mid, end := EntriesStart(a, n, start), EntriesEnd(a, n, start), LogEnd(a, n, start);
    SameWithin(a, b, start + 1, end, start + 1, start + MAX_PREFIX_LENGTH);
    SamePrefix(a, b, start, n, n);
    SameWithin(a, b, start + 1, end, at, mid);
    SameWithin(a, b, start + 1, end, mid, end);
    PartsAccepted(b, n, start, keys);
  }

  /** At one position, headers with the same bytes up to the last key are accepted with the same authorities
      only. */
  lemma SameKeysOnly(a: EncodedHeader, b: EncodedHeader, n: nat, m: nat, start: nat, ks: seq<Bytes32>, ls: seq<Bytes32>)
    requires |ks| == |ls| == MAX_AUTHORITY_SET_SIZE && EpochEndOk(a, n, start, ks) && EpochEndOk(b, m, start, ls)
    requires start + 1 <= KeysEnd(a, n, start) && SameBytes(a, b, start + 1, KeysEnd(a, n, start))
    ensures n == m && ks[..Min(n, MAX_AUTHORITY_SET_SIZE)] == ls[..Min(n, MAX_AUTHORITY_SET_SIZE)]
  {
    hide PrefixLength, EpochEndOk, Entries;
    AcceptedParts(a, n, start, ks);
    AcceptedParts(b, m, start, ls);
    var at, end := EntriesStart(a, n, start), KeysEnd(a, n, start);
    SameWithin(a, b, start + 1, end, start + 1, start + MAX_PREFIX_LENGTH);
    SamePrefix(a, b, start, n, m);
    var k := Min(n, MAX_AUTHORITY_SET_SIZE);
    forall i | 0 <= i < k ensures ks[..k][i] == ls[..k][i] {
      KeyInEntries(a.bytes, at, ks[..k], i);
      KeyInEntries(b.bytes, at, ls[..k], i);
      var from := at + VALIDATOR_LENGTH * i;
      SameWithin(a, b, start + 1, end, from, from + PUBKEY_LENGTH);
    }
  }

  /** Changing the log's last byte makes the circuit reject. */
  lemma PerturbedLog(header: EncodedHeader, n: nat, start: nat, keys: seq<Bytes32>)
    requires |keys| == MAX_AUTHORITY_SET_SIZE && EpochEndOk(header, n, start, keys)
    ensures 0 < LogEnd(header, n, start) <= MAX_HEADER_SIZE
    ensures !EpochEndOk(Perturbed(header, LogEnd(header, n, start) - 1), n, start, keys)
  {
    hide PrefixLength, EpochEndOk, Entries;
    AcceptedParts(header, n, start, keys);
    var at, end := EntriesStart(header, n, start), LogEnd(header, n, start);
    var b := Perturbed(header, end - 1);
    assert SameBytes(header, b, start + 1, start + MAX_PREFIX_LENGTH);
    SamePrefix(header, b, start, n, n);
    var last := if n <= MAX_AUTHORITY_SET_SIZE then end - DELAY_LENGTH else at;
    assert header.bytes[last..end][end - 1 - last] != b.bytes[last..end][end - 1 - last];
    if EpochEndOk(b, n, start, keys) {
      AcceptedParts(b, n, start, keys);
    }
  }

  /** A header's hashed bytes bind an accepted log exactly when the log ends within them: then, and only then,
      is every header with these hashed bytes accepted with the same keys. */
  lemma LogBoundIff(header: EncodedHeader, n: nat, start: nat, keys: seq<Bytes32>)
    requires |keys| == MAX_AUTHORITY_SET_SIZE && EpochEndOk(header, n, start, keys)
    ensures LogEnd(header, n, start) <= |Hashed(header)| <==>
            forall b: EncodedHeader :: Hashed(b) == Hashed(header) ==> EpochEndOk(b, n, start, keys)
  {
    hide EpochEndOk, PrefixLength, Hashed, Entries;
    AcceptedParts(header, n, start, keys);
    var end := LogEnd(header, n, start);
    if end <= |Hashed(header)| {
      forall b: EncodedHeader | Hashed(b) == Hashed(header) ensures EpochEndOk(b, n, start, keys) {
        SliceOfHashed(header, b, start + 1, end);
        SameLogAccepted(header, b, n, start, keys);
      }
    } else {
      PerturbedLog(header, n, start, keys);
      PerturbedHash(header, end - 1);
    }
  }

  /** The hashed bytes of the header leave no choice of the number of authorities and of the keys: every header
      with these hashed bytes that is accepted at this position is accepted with the same ones. */
  ghost predicate KeysBoundAt(header: EncodedHeader, n: nat, start: nat, keys: seq<Bytes32>)
    requires |keys| == MAX_AUTHORITY_SET_SIZE
  {
    forall b: EncodedHeader, m: nat, ls: seq<Bytes32> ::
      (|ls| == MAX_AUTHORITY_SET_SIZE && Hashed(b) == Hashed(header) && EpochEndOk(b, m, start, ls)) ==>
        m == n && ls[..Min(n, MAX_AUTHORITY_SET_SIZE)] == keys[..Min(n, MAX_AUTHORITY_SET_SIZE)]
  }

  /** The same key with its last byte changed, as `Perturbed` does. */
  function PerturbedKey(key: Bytes32): Bytes32 {
    key[PUBKEY_LENGTH - 1 := if key[PUBKEY_LENGTH - 1] == 0 then 1 else 0]
  }

  /** Changing the last byte of the last key makes the circuit accept that other key. */
  lemma PerturbedKeyAccepted(header: EncodedHeader, n: nat, start: nat, keys: seq<Bytes32>)
    requires |keys| == MAX_AUTHORITY_SET_SIZE && EpochEndOk(header, n, start, keys)
    ensures n > 0 && start + PUBKEY_LENGTH < KeysEnd(header, n, start) <= MAX_HEADER_SIZE
    ensures var last := Min(n, MAX_AUTHORITY_SET_SIZE) - 1;
            EpochEndOk(Perturbed(header, KeysEnd(header, n, start) - 1), n, start, keys[last := PerturbedKey(keys[last])])
  {
    hide PrefixLength, EpochEndOk, Entries;
    AcceptedParts(header, n, start, keys);
    var at, end := EntriesStart(header, n, start), KeysEnd(header, n, start);
    var b := Perturbed(header, end - 1);
    assert SameBytes(header, b, start + 1, start + MAX_PREFIX_LENGTH);
    SamePrefix(header, b, start, n, n);
    var k := Min(n, MAX_AUTHORITY_SET_SIZE);
    var ls := keys[k - 1 := PerturbedKey(keys[k - 1])];
    PerturbedEntries(header, at, keys[..k]);
    assert ls[..k] == keys[..k][k - 1 := PerturbedKey(keys[k - 1])];
    assert n <= MAX_AUTHORITY_SET_SIZE ==> At(b.bytes, EntriesEnd(header, n, start), NO_DELAY);
    PartsAccepted(b, n, start, ls);
  }

  lemma PerturbedEntries(header: EncodedHeader, at: nat, keys: seq<Bytes32>)
    requires keys != [] && At(header.bytes, at, Entries(keys))
    ensures var last := |keys| - 1;
            At(Perturbed(header, at + VALIDATOR_LENGTH * |keys| - WEIGHT_LENGTH - 1).bytes, at,
               Entries(keys[last := PerturbedKey(keys[last])]))
  {
    hide Entries, EntryAt, PerturbedKey, Perturbed;
    var p := at + VALIDATOR_LENGTH * |keys| - WEIGHT_LENGTH - 1;
    var b := Perturbed(header, p);
    var ls := keys[|keys| - 1 := PerturbedKey(keys[|keys| - 1])];
    forall i | 0 <= i < |ls| ensures EntryAt(b.bytes, at + VALIDATOR_LENGTH * i, ls[i]) {
      KeyInEntries(header.bytes, at, keys, i);
      PerturbedEntry(header, p, at + VALIDATOR_LENGTH * i, keys[i]);
    }
    EntriesIff(b.bytes, at, ls);
  }

  lemma PerturbedEntry(header: EncodedHeader, p: nat, at: nat, key: Bytes32)
    requires EntryAt(header.bytes, at, key) && p < MAX_HEADER_SIZE
    requires p == at + PUBKEY_LENGTH - 1 || at + VALIDATOR_LENGTH <= p
    ensures EntryAt(Perturbed(header, p).bytes, at, if at + VALIDATOR_LENGTH <= p then key else PerturbedKey(key))
  {
    var b := Perturbed(header, p);
    assert b.bytes[at + PUBKEY_LENGTH..at + VALIDATOR_LENGTH] == header.bytes[at + PUBKEY_LENGTH..at + VALIDATOR_LENGTH];
    if p == at + PUBKEY_LENGTH - 1 {
      assert header.bytes[p] == header.bytes[at..at + PUBKEY_LENGTH][PUBKEY_LENGTH - 1];
      assert b.bytes[at..at + PUBKEY_LENGTH] == PerturbedKey(key);
    } else {
      assert b.bytes[at..at + PUBKEY_LENGTH] == header.bytes[at..at + PUBKEY_LENGTH];
    }
  }

  /** The hashed bytes bind the accepted keys exactly when the last key ends within them. */
  lemma KeysBoundIff(header: EncodedHeader, n: nat, start: nat, keys: seq<Bytes32>)
    requires |keys| == MAX_AUTHORITY_SET_SIZE && EpochEndOk(header, n, start, keys)
    ensures KeysEnd(header, n, start) <= |Hashed(header)| <==> KeysBoundAt(header, n, start, keys)
  {
    hide EpochEndOk, PrefixLength, Hashed, KeysEnd;
    PerturbedKeyAccepted(header, n, start, keys);
    var end := KeysEnd(header, n, start);
    if end <= |Hashed(header)| {
      forall b: EncodedHeader, m: nat, ls: seq<Bytes32> |
        |ls| == MAX_AUTHORITY_SET_SIZE && Hashed(b) == Hashed(header) && EpochEndOk(b, m, start, ls)
        ensures m == n && ls[..Min(n, MAX_AUTHORITY_SET_SIZE)] == keys[..Min(n, MAX_AUTHORITY_SET_SIZE)]
      {
        SliceOfHashed(header, b, start + 1, end);
        SameKeysOnly(header, b, n, m, start, keys, ls);
      }
    } else {
      PerturbedHash(header, end - 1);
      var last := Min(n, MAX_AUTHORITY_SET_SIZE) - 1;
      var ls := keys[last := PerturbedKey(keys[last])];
      assert ls[..last + 1][last] != keys[..last + 1][last] by {
        assert PerturbedKey(keys[last])[PUBKEY_LENGTH - 1] != keys[last][PUBKEY_LENGTH - 1];
      }
    }
  }

  lemma PerturbedHash(e: EncodedHeader, at: nat)
    requires |Hashed(e)| <= at < MAX_HEADER_SIZE
    ensures Hashed(Perturbed(e, at)) == Hashed(e)
  {
  }

  /** Behind the hashed bytes nothing is bound: if there is room, every list of keys that fits is accepted at
      such a position in some header with the same hashed bytes. */
  lemma UnhashedLogIsFree(e: EncodedHeader, start: nat, keys: seq<Bytes32>) returns (b: EncodedHeader)
    requires |Hashed(e)| <= start + 1 && start + 10 + MAX_SUBARRAY_SIZE <= MAX_HEADER_SIZE
    requires 1 <= |keys| <= MAX_AUTHORITY_SET_SIZE
    ensures Hashed(b) == Hashed(e) && HoldsLog(b, start, Compact(0, 0), CanonicalMode(|keys|), keys)
  {
    hide EncodeMode, Entries;
    var part := ScheduledChangeLog(Compact(0, 0), CanonicalMode(|keys|), keys);
    var before, after := e.bytes[..start + 1], e.bytes[start + 1 + |part|..];
    b := PaddedBytes(before + part + after, e.size);
    assert b.bytes[start + 1..start + 1 + |part|] == part;
  }

  /** One position in one header lists one set: if a printed log stands there, no other keys are accepted. */
  lemma ListedKeysOnly(header: EncodedHeader, start: nat, length: Compact, mode: nat, keys: seq<Bytes32>,
      n: nat, newPubkeys: seq<Bytes32>)
    requires Fits(length.mode, length.value) && 1 <= |keys| <= MAX_AUTHORITY_SET_SIZE && Fits(mode, |keys|)
    requires At(header.bytes, start + 1, ScheduledChangeLog(length, mode, keys))
    requires |newPubkeys| == MAX_AUTHORITY_SET_SIZE && EpochEndOk(header, n, start, newPubkeys)
    ensures n == |keys| && newPubkeys[..n] == keys
    ensures LogEnd(header, n, start) == start + 1 + |ScheduledChangeLog(length, mode, keys)|
  {
    hide DecodeCompactInt, EncodeMode, Entries, EpochEndOk, PrefixLength;
    AcceptedParts(header, n, start, newPubkeys);
    LogParts(header.bytes, start + 1, length, mode, keys);
    PrefixIff(header.bytes, start, |keys|, length, mode);
    SamePrefix(header, header, start, |keys|, n);
    EntriesInjective(newPubkeys[..n], keys);
  }

  // ----- acceptance byte by byte -----

  /** What is read at a position, byte by byte: after one byte, the consensus flag and "FRNK", a compact integer,
      the scheduled change flag, `n` as a compact integer, the keys with weight 1, and a zero delay; there is room
      for 300 entries. */
  ghost predicate LogBytes(bs: seq<Byte>, start: nat, n: nat, keys: seq<Bytes32>, length: Compact, mode: nat)
    requires |bs| == MAX_HEADER_SIZE && |keys| == MAX_AUTHORITY_SET_SIZE
  {
    && length.mode < 4 && mode < 4
    && var l, m := [1, 2, 4, 5][length.mode], [1, 2, 4, 5][mode];
       var at := start + 7 + l + m;
       && start + 17 <= MAX_HEADER_SIZE && at + 12004 <= MAX_HEADER_SIZE
       && bs[start + 1] == 4 && bs[start + 2] == 70 && bs[start + 3] == 82 && bs[start + 4] == 78 && bs[start + 5] == 75
       && DecodeCompactInt(bs[start + 6..start + 11]) == Some(length)
       && bs[start + 6 + l] == 1
       && n < TWO_32 && DecodeCompactInt(bs[start + 7 + l..start + 12 + l]) == Some(Compact(n, mode))
       && (forall i :: 0 <= i < n && i < 300 ==> KeyWithWeightOne(bs[at + 40 * i..at + 40 * i + 40], keys[i]))
       && (n <= 300 ==> bs[at + 40 * n] == bs[at + 40 * n + 1] == bs[at + 40 * n + 2] == bs[at + 40 * n + 3] == 0)
  }

  predicate KeyWithWeightOne(entry: seq<Byte>, key: Bytes32) {
    |entry| == 40 && entry[..32] == key && entry[32] == 1 && forall i :: 33 <= i < 40 ==> entry[i] == 0
  }

  lemma EntryBytes(bs: seq<Byte>, at: nat, key: Bytes32)
    requires at + VALIDATOR_LENGTH <= |bs|
    ensures EntryAt(bs, at, key) <==> KeyWithWeightOne(bs[at..at + 40], key)
  {
    SliceOfSlice(bs, at, at + 40, 0, 32);
    SliceOfSlice(bs, at, at + 40, 32, 40);
    var weight := bs[at..at + 40][32..40];
    assert weight == WEIGHT_ONE <==> weight[0] == 1 && forall i :: 1 <= i < 8 ==> weight[i] == 0;
    assert forall i :: 0 <= i < 8 ==> weight[i] == bs[at..at + 40][32 + i];
    assert forall i {:trigger bs[at..at + 40][i]} :: 33 <= i < 40 ==> bs[at..at + 40][i] == weight[i - 32];
  }

  lemma DelayBytes(bs: seq<Byte>, at: nat)
    requires at + DELAY_LENGTH <= |bs|
    ensures At(bs, at, NO_DELAY) <==> bs[at] == bs[at + 1] == bs[at + 2] == bs[at + 3] == 0
  {
    assert bs[at..at + 4] == [bs[at], bs[at + 1], bs[at + 2], bs[at + 3]];
  }

  lemma EngineBytes(bs: seq<Byte>, at: nat)
    requires at + 4 <= |bs|
    ensures bs[at..at + 4] == FRNK <==> bs[at] == 70 && bs[at + 1] == 82 && bs[at + 2] == 78 && bs[at + 3] == 75
  {
    assert bs[at..at + 4] == [bs[at], bs[at + 1], bs[at + 2], bs[at + 3]];
  }

  /** The prefix checks, byte by byte. */
  lemma PrefixBytes(header: EncodedHeader, n: nat, start: nat, length: Compact, mode: nat)
    requires start + MAX_PREFIX_LENGTH <= MAX_HEADER_SIZE && length.mode < 4 && mode < 4
    requires DecodeCompactInt(header.bytes[start + 6..start + 11]) == Some(length)
    ensures var bs := header.bytes;
            var l, m := [1, 2, 4, 5][length.mode], [1, 2, 4, 5][mode];
            PrefixAt(header, n, start) == Some(7 + l + m)
            && n < TWO_32 && DecodeCompactInt(bs[start + 7 + l..start + 12 + l]) == Some(Compact(n, mode))
            <==>
            && bs[start + 1] == 4 && bs[start + 2] == 70 && bs[start + 3] == 82 && bs[start + 4] == 78 && bs[start + 5] == 75
            && bs[start + 6 + l] == 1
            && n < TWO_32 && DecodeCompactInt(bs[start + 7 + l..start + 12 + l]) == Some(Compact(n, mode))
  {
    hide DecodeCompactInt;
    var bs := header.bytes;
    var l := [1, 2, 4, 5][length.mode];
    EngineBytes(bs, start + 2);
    SliceOfSlice(bs, start, start + MAX_PREFIX_LENGTH, 2, 6);
    SliceOfSlice(bs, start, start + MAX_PREFIX_LENGTH, 6, 11);
    SliceOfSlice(bs, start, start + MAX_PREFIX_LENGTH, 7 + l, 12 + l);
  }

  /** Acceptance is exactly this, for any number of authorities. */
  lemma EpochEndBytes(header: EncodedHeader, n: nat, start: nat, newPubkeys: seq<Bytes32>)
    requires |newPubkeys| == MAX_AUTHORITY_SET_SIZE && n > 0
    ensures EpochEndOk(header, n, start, newPubkeys) <==> exists length, mode :: LogBytes(header.bytes, start, n, newPubkeys, length, mode)
  {
    hide DecodeCompactInt, EpochEndOk, PrefixAt, LogBytes, Entries;
    if EpochEndOk(header, n, start, newPubkeys) {
      var length, mode := AcceptedBytes(header, n, start, newPubkeys);
    }
    if length, mode :| LogBytes(header.bytes, start, n, newPubkeys, length, mode) {
      BytesAccepted(header, n, start, newPubkeys, length, mode);
    }
  }

  /** Entry by entry. */
  lemma EntriesBytes(bs: seq<Byte>, at: nat, keys: seq<Bytes32>)
    requires at + VALIDATOR_LENGTH * |keys| <= |bs|
    ensures At(bs, at, Entries(keys)) <==>
            forall i :: 0 <= i < |keys| ==> KeyWithWeightOne(bs[at + 40 * i..at + 40 * i + 40], keys[i])
  {
    hide Entries, EntryAt, KeyWithWeightOne;
    EntriesIff(bs, at, keys);
    forall i | 0 <= i < |keys|
      ensures EntryAt(bs, at + VALIDATOR_LENGTH * i, keys[i]) <==> KeyWithWeightOne(bs[at + 40 * i..at + 40 * i + 40], keys[i])
    {
      EntryBytes(bs, at + VALIDATOR_LENGTH * i, keys[i]);
    }
  }

  lemma AcceptedBytes(header: EncodedHeader, n: nat, start: nat, newPubkeys: seq<Bytes32>)
      returns (length: Compact, mode: nat)
    requires |newPubkeys| == MAX_AUTHORITY_SET_SIZE
    requires EpochEndOk(header, n, start, newPubkeys)
    ensures LogBytes(header.bytes, start, n, newPubkeys, length, mode)
  {
    hide DecodeCompactInt, EpochEndOk, Entries, KeyWithWeightOne, At;
    AcceptedParts(header, n, start, newPubkeys);
    length, mode := PrefixModes(header, n, start);
    PrefixBytes(header, n, start, length, mode);
    var at, m := EntriesStart(header, n, start), Min(n, MAX_AUTHORITY_SET_SIZE);
    EntriesBytes(header.bytes, at, newPubkeys[..m]);
    assert forall i :: 0 <= i < m ==> newPubkeys[..m][i] == newPubkeys[i];
    if n <= MAX_AUTHORITY_SET_SIZE {
      DelayBytes(header.bytes, at + VALIDATOR_LENGTH * n);
    }
  }

  /** The two compact integers of an accepted prefix. */
  lemma PrefixModes(header: EncodedHeader, n: nat, start: nat) returns (length: Compact, mode: nat)
    requires PrefixAt(header, n, start).Some?
    ensures length.mode < 4 && mode < 4 && DecodeCompactInt(header.bytes[start + 6..start + 11]) == Some(length)
    ensures var l, m := [1, 2, 4, 5][length.mode], [1, 2, 4, 5][mode];
            PrefixAt(header, n, start) == Some(7 + l + m)
            && n < TWO_32 && DecodeCompactInt(header.bytes[start + 7 + l..start + 12 + l]) == Some(Compact(n, mode))
  {
    hide DecodeCompactInt;
    var bs := header.bytes;
    SliceOfSlice(bs, start, start + MAX_PREFIX_LENGTH, 6, 11);
    length := DecodeCompactInt(bs[start + 6..start + 11]).value;
    DecodedMode(bs[start + 6..start + 11]);
    var l := [1, 2, 4, 5][length.mode];
    SliceOfSlice(bs, start, start + MAX_PREFIX_LENGTH, 7 + l, 12 + l);
    var number := DecodeCompactInt(bs[start + 7 + l..start + 12 + l]).value;
    DecodedMode(bs[start + 7 + l..start + 12 + l]);
    mode := number.mode;
  }

  lemma BytesAccepted(header: EncodedHeader, n: nat, start: nat, newPubkeys: seq<Bytes32>,
      length: Compact, mode: nat)
    requires |newPubkeys| == MAX_AUTHORITY_SET_SIZE && n > 0
    requires LogBytes(header.bytes, start, n, newPubkeys, length, mode)
    ensures EpochEndOk(header, n, start, newPubkeys)
  {
    hide DecodeCompactInt, EpochEndOk, Entries, KeyWithWeightOne, At, PrefixLength;
    PrefixBytes(header, n, start, length, mode);
    var at, m := EntriesStart(header, n, start), Min(n, MAX_AUTHORITY_SET_SIZE);
    EntriesBytes(header.bytes, at, newPubkeys[..m]);
    if n <= MAX_AUTHORITY_SET_SIZE {
      DelayBytes(header.bytes, at + VALIDATOR_LENGTH * n);
    }
    PartsAccepted(header, n, start, newPubkeys);
  }

  // ----- more authorities than slots -----

  /** What the circuit looks for when the number of authorities exceeds the slots: the prefix with the number,
      then as many entries as there are slots. */
  function LongLog(length: Compact, mode: nat, n: U32, keys: seq<Bytes32>): seq<Byte>
    requires Fits(length.mode, length.value) && Fits(mode, n)
  {
    [CONSENSUS_FLAG] + FRNK + EncodeMode(length.mode, length.value) + ([SCHEDULED_CHANGE_FLAG] + EncodeMode(mode, n) + Entries(keys))
  }

  ghost predicate HoldsLongLog(header: EncodedHeader, start: nat, length: Compact, mode: nat, n: nat, keys: seq<Bytes32>) {
    && Fits(length.mode, length.value) && |keys| == MAX_AUTHORITY_SET_SIZE < n < TWO_32 && Fits(mode, n)
    && At(header.bytes, start + 1, LongLog(length, mode, n, keys))
    && start + 7 + CompactIntByteLength(length.mode) + CompactIntByteLength(mode) + MAX_SUBARRAY_SIZE <= MAX_HEADER_SIZE
  }

  lemma LongLogParts(bytes: seq<Byte>, at: nat, length: Compact, mode: nat, n: U32, keys: seq<Bytes32>)
    requires Fits(length.mode, length.value) && Fits(mode, n)
    ensures var l := CompactIntByteLength(length.mode);
            var m := CompactIntByteLength(mode);
            At(bytes, at, LongLog(length, mode, n, keys)) <==>
              && At(bytes, at, [CONSENSUS_FLAG]) && At(bytes, at + 1, FRNK)
              && At(bytes, at + 5, EncodeMode(length.mode, length.value))
              && At(bytes, at + 5 + l, [SCHEDULED_CHANGE_FLAG])
              && At(bytes, at + 6 + l, EncodeMode(mode, n))
              && At(bytes, at + 6 + l + m, Entries(keys))
  {
    hide EncodeMode, Entries, At;
    var l, number := EncodeMode(length.mode, length.value), EncodeMode(mode, n);
    AtConcat4(bytes, at, [CONSENSUS_FLAG], FRNK, l, [SCHEDULED_CHANGE_FLAG] + number + Entries(keys));
    AtConcat(bytes, at + 5 + |l|, [SCHEDULED_CHANGE_FLAG], number);
    AtConcat(bytes, at + 5 + |l|, [SCHEDULED_CHANGE_FLAG] + number, Entries(keys));
  }

  /** Acceptance for more authorities than slots. */
  lemma LongEpochEndExact(header: EncodedHeader, n: nat, start: nat, newPubkeys: seq<Bytes32>)
    requires |newPubkeys| == MAX_AUTHORITY_SET_SIZE < n
    ensures EpochEndOk(header, n, start, newPubkeys)
            <==> exists length, mode :: HoldsLongLog(header, start, length, mode, n, newPubkeys)
  {
    hide EpochEndOk, HoldsLongLog;
    if EpochEndOk(header, n, start, newPubkeys) {
      var length, mode := LongEpochEndSound(header, n, start, newPubkeys);
    }
    if length, mode :| HoldsLongLog(header, start, length, mode, n, newPubkeys) {
      LongEpochEndAccepts(header, n, start, newPubkeys, length, mode);
    }
  }

  lemma LongEpochEndAccepts(header: EncodedHeader, n: nat, start: nat, newPubkeys: seq<Bytes32>, length: Compact, mode: nat)
    requires |newPubkeys| == MAX_AUTHORITY_SET_SIZE < n && HoldsLongLog(header, start, length, mode, n, newPubkeys)
    ensures EpochEndOk(header, n, start, newPubkeys)
  {
    hide DecodeCompactInt, EncodeMode, Entries, EpochEndOk, LongLog, At, PrefixLength;
    LongLogParts(header.bytes, start + 1, length, mode, n, newPubkeys);
    PrefixIff(header.bytes, start, n, length, mode);
    assert newPubkeys[..MAX_AUTHORITY_SET_SIZE] == newPubkeys;
    PartsAccepted(header, n, start, newPubkeys);
  }

  lemma LongEpochEndSound(header: EncodedHeader, n: nat, start: nat, newPubkeys: seq<Bytes32>)
      returns (length: Compact, mode: nat)
    requires |newPubkeys| == MAX_AUTHORITY_SET_SIZE < n && EpochEndOk(header, n, start, newPubkeys)
    ensures HoldsLongLog(header, start, length, mode, n, newPubkeys)
  {
    hide DecodeCompactInt, EncodeMode, Entries;
    var prefix := header.bytes[start..start + MAX_PREFIX_LENGTH];
    length := DecodeCompactInt(prefix[6..11]).value;
    DecodedMode(prefix[6..11]);
    var l := CompactIntByteLength(length.mode);
    var window := prefix[7 + l..7 + l + 5];
    assert prefix[7 + l..][..5] == window;
    DecodedMode(window);
    mode := DecodeCompactInt(window).value.mode;
    PrefixIff(header.bytes, start, n, length, mode);
    SubarrayIff(header.bytes, start + PrefixLength(prefix, n).value, n, newPubkeys);
    assert newPubkeys[..MAX_AUTHORITY_SET_SIZE] == newPubkeys;
    LongLogParts(header.bytes, start + 1, length, mode, n, newPubkeys);
  }
}
