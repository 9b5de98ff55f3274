/** SCALE compact integers: the circuit's bit-sum decoder against the codec's four-mode encoding. */
module Scale {
  import opened Bytes

  const MAX_COMPACT_UINT_BYTES := 5

  /** A decoded compact integer with the mode it was written in. */
  datatype Compact = Compact(value: U32, mode: nat)

  /** The `k` low-order bits of `v`, least significant first. */
  function LowBits(v: nat, k: nat): (bits: seq<bool>)
    ensures |bits| == k
  {
    if k == 0 then [] else [v % 2 == 1] + LowBits(v / 2, k - 1)
  }

  /** The bits of a byte, least significant first. */
  function ByteBits(b: Byte): (bits: seq<bool>)
    ensures |bits| == 8
  {
    LowBits(b, 8)
  }

  function Bits(bs: seq<Byte>): (bits: seq<bool>)
    ensures |bits| == 8 * |bs|
  {
    if bs == [] then [] else ByteBits(bs[0]) + Bits(bs[1..])
  }

  /** The number a list of bits stands for, least significant first. */
  function LeSum(bits: seq<bool>): nat {
    if bits == [] then 0 else (if bits[0] then 1 else 0) + 2 * LeSum(bits[1..])
  }

  /** The decoder reads a fixed window of five bytes as bits, sums the slice that each mode would use,
      selects by the two lowest bits, and in mode 3 demands that the upper six bits of the first byte are 0. */
  function DecodeCompactInt(window: seq<Byte>): (r: Option<Compact>)
    requires |window| == MAX_COMPACT_UINT_BYTES
  {
    var bits := Bits(window);
    var mode := LeSum(bits[0..2]);
    var value :=
      if mode == 0 then LeSum(bits[2..8])
      else if mode == 1 then LeSum(bits[2..16])
      else if mode == 2 then LeSum(bits[2..32])
      else LeSum(bits[8..40]);
    BitSums(window);
    if mode == 3 && LeSum(bits[2..8]) != 0 then None else Some(Compact(value, mode))
  }

  function CompactIntByteLength(mode: nat): (length: nat)
    requires mode < 4
    ensures 1 <= length <= MAX_COMPACT_UINT_BYTES
  {
    [1, 2, 4, 5][mode]
  }

  /** Whether `n` can be written in `mode`. */
  predicate Fits(mode: nat, n: U32) {
    match mode
    case 0 => n < 0x40
    case 1 => n < 0x4000
    case 2 => n < 0x4000_0000
    case 3 => true
    case _ => false
  }

  /** The codec's layout of `n` in a given mode. */
  function EncodeMode(mode: nat, n: U32): (bs: seq<Byte>)
    requires Fits(mode, n)
    ensures |bs| == CompactIntByteLength(mode)
  {
    match mode
    case 0 => LeBytes(4 * n, 1)
    case 1 => LeBytes(4 * n + 1, 2)
    case 2 => LeBytes(4 * n + 2, 4)
    case _ => [3] + LeBytes(n, 4)
  }

  /** The codec always picks the shortest mode. */
  function CanonicalMode(n: U32): (mode: nat)
    ensures mode < 4 && Fits(mode, n)
    ensures forall m :: 0 <= m < mode ==> !Fits(m, n)
  {
    if n < 0x40 then 0 else if n < 0x4000 then 1 else if n < 0x4000_0000 then 2 else 3
  }

  function EncodeCompact(n: U32): (bs: seq<Byte>)
    ensures 1 <= |bs| <= MAX_COMPACT_UINT_BYTES
    ensures n < 64 <==> |bs| == 1
  {
    EncodeMode(CanonicalMode(n), n)
  }

  // ----- bit sums -----

  lemma {:induction false} LeSumConcat(a: seq<bool>, b: seq<bool>)
    ensures LeSum(a + b) == LeSum(a) + Pow2(|a|) * LeSum(b)
  {
    if a == [] {
      assert a + b == b;
    } else {
      LeSumConcat(a[1..], b);
      assert (a + b)[1..] == a[1..] + b;
      assert Pow2(|a|) * LeSum(b) == 2 * (Pow2(|a| - 1) * LeSum(b));
    }
  }

  lemma {:induction false} LowBitsSum(v: nat, k: nat)
    requires v < Pow2(k)
    ensures LeSum(LowBits(v, k)) == v
  {
    if k != 0 {
      LowBitsSum(v / 2, k - 1);
      assert LowBits(v, k)[1..] == LowBits(v / 2, k - 1);
    }
  }

  lemma PowTwos()
    ensures Pow2(2) == 4 && Pow2(6) == 64 && Pow2(8) == 256
  {
    assert Pow2(2) == 2 * (2 * Pow2(0));
    assert Pow2(4) == 2 * (2 * Pow2(2));
    assert Pow2(6) == 2 * (2 * Pow2(4));
    assert Pow2(8) == 2 * (2 * Pow2(6));
  }

  lemma ByteBitSums(b: Byte)
    ensures LeSum(ByteBits(b)[..2]) == b % 4
    ensures LeSum(ByteBits(b)[2..]) == b / 4
    ensures LeSum(ByteBits(b)) == b
  {
    var s := ByteBits(b);
    PowTwos();
    LowBitsSum(b, 8);
    LowBitsSum(b / 2 / 2, 6);
    assert s == [b % 2 == 1] + LowBits(b / 2, 7);
    assert LowBits(b / 2, 7) == [b / 2 % 2 == 1] + LowBits(b / 2 / 2, 6);
    assert s[2..] == LowBits(b / 2 / 2, 6);
    LeSumConcat(s[..2], s[2..]);
    assert s == s[..2] + s[2..];
  }

  lemma {:induction false} BitsValue(bs: seq<Byte>)
    ensures LeSum(Bits(bs)) == LeValue(bs)
  {
    if bs != [] {
      BitsValue(bs[1..]);
      ByteBitSums(bs[0]);
      LeSumConcat(ByteBits(bs[0]), Bits(bs[1..]));
      PowTwos();
    }
  }

  lemma {:induction false} BitsPrefix(bs: seq<Byte>, k: nat)
    requires k <= |bs|
    ensures Bits(bs)[..8 * k] == Bits(bs[..k])
  {
    if k != 0 {
      BitsPrefix(bs[1..], k - 1);
      assert bs[..k][1..] == bs[1..][..k - 1];
      assert Bits(bs)[..8 * k] == ByteBits(bs[0]) + Bits(bs[1..])[..8 * (k - 1)];
    }
  }

  /** Dropping the two mode bits divides the little-endian value by four. */
  lemma PrefixSum(w: seq<Byte>)
    requires w != []
    ensures LeSum(Bits(w)[2..]) == LeValue(w) / 4
    ensures LeSum(Bits(w)[..2]) == w[0] % 4
  {
    hide LowBits, LeSum;
    var s, t := ByteBits(w[0]), Bits(w[1..]);
    assert Bits(w)[2..] == s[2..] + t;
    assert Bits(w)[..2] == s[..2];
    ByteBitSums(w[0]);
    LeSumConcat(s[2..], t);
    BitsValue(w[1..]);
    PowTwos();
  }

  lemma ModeSum(w: seq<Byte>, k: nat)
    requires 0 < k <= |w|
    ensures LeSum(Bits(w)[2..8 * k]) == LeValue(w[..k]) / 4
  {
    BitsPrefix(w, k);
    PrefixSum(w[..k]);
    assert Bits(w)[2..8 * k] == Bits(w)[..8 * k][2..];
  }

  /** What each of the decoder's sums is, in terms of bytes. */
  lemma BitSums(w: seq<Byte>)
    requires |w| == 5
    ensures LeSum(Bits(w)[0..2]) == w[0] % 4
    ensures LeSum(Bits(w)[2..8]) == LeValue(w[..1]) / 4 == w[0] / 4 < 0x40
    ensures LeSum(Bits(w)[2..16]) == LeValue(w[..2]) / 4 < 0x4000
    ensures LeSum(Bits(w)[2..32]) == LeValue(w[..4]) / 4 < 0x4000_0000
    ensures LeSum(Bits(w)[8..40]) == LeValue(w[1..]) < TWO_32
  {
    PrefixSum(w);
    assert Bits(w)[0..2] == Bits(w)[..2];
    ModeSum(w, 1);
    ModeSum(w, 2);
    ModeSum(w, 4);
    BitsValue(w[1..]);
    assert Bits(w)[8..40] == Bits(w[1..]);
    PowValues();
    LeValueBound(w[..2]);
    LeValueBound(w[..4]);
    LeValueBound(w[1..]);
    assert w[..1] == [w[0]];
  }

  // ----- the decoder inverts the codec -----

  /** The value of the low-order byte decides the residue modulo 4. */
  lemma LowResidue(bs: seq<Byte>)
    requires bs != []
    ensures LeValue(bs) % 4 == bs[0] % 4
  {
  }

  /** In modes 0 to 2 the first `k` bytes hold 4n + mode. */
  lemma ShortMode(w: seq<Byte>, k: nat, mode: nat, n: U32)
    requires 0 < k <= |w| && mode < 3 && 4 * n + mode < Pow256(k)
    ensures LeBytes(4 * n + mode, k) <= w <==> w[0] % 4 == mode && LeValue(w[..k]) / 4 == n
  {
    hide LeValue, LeBytes;
    LowResidue(w[..k]);
    LeBytesIff(w[..k], 4 * n + mode);
    assert LeBytes(4 * n + mode, k) <= w <==> LeBytes(4 * n + mode, k) == w[..k];
  }

  lemma LongMode(w: seq<Byte>, n: U32)
    requires |w| == 5
    ensures [3] + LeBytes(n, 4) <= w <==> w[0] == 3 && LeValue(w[1..]) == n
  {
    PowValues();
    LeBytesIff(w[1..], n);
    assert w == [w[0]] + w[1..];
    assert ([3] + LeBytes(n, 4))[1..] == LeBytes(n, 4);
    assert [3] + LeBytes(n, 4) <= w <==> [3] + LeBytes(n, 4) == w;
  }

  /** The decoder accepts a window as (n, mode) exactly when the window starts with n written in that mode. */
  lemma DecodeIffPrefix(w: seq<Byte>, c: Compact)
    requires |w| == MAX_COMPACT_UINT_BYTES
    ensures DecodeCompactInt(w) == Some(c) <==> Fits(c.mode, c.value) && EncodeMode(c.mode, c.value) <= w
  {
    hide Bits, LeSum, LeValue, LeBytes;
    BitSums(w);
    PowValues();
    if Fits(c.mode, c.value) {
      match c.mode
      case 0 => ShortMode(w, 1, 0, c.value);
      case 1 => ShortMode(w, 2, 1, c.value);
      case 2 => ShortMode(w, 4, 2, c.value);
      case _ => LongMode(w, c.value);
    }
  }

  /** Reading a canonical encoding followed by any bytes gives the value back, and skipping
      `CompactIntByteLength(mode)` bytes skips exactly the encoding. */
  lemma CompactRoundTrip(n: U32, rest: seq<Byte>)
    requires |EncodeCompact(n) + rest| >= MAX_COMPACT_UINT_BYTES
    ensures var r := DecodeCompactInt((EncodeCompact(n) + rest)[..MAX_COMPACT_UINT_BYTES]);
            r.Some? && r.value.value == n && r.value.mode < 4
            && CompactIntByteLength(r.value.mode) == |EncodeCompact(n)|
  {
    DecodeIffPrefix((EncodeCompact(n) + rest)[..MAX_COMPACT_UINT_BYTES], Compact(n, CanonicalMode(n)));
  }

  /** What the decoder makes of the bytes, in numbers. */
  lemma DecodeBytes(w: seq<Byte>)
    requires |w| == MAX_COMPACT_UINT_BYTES
    ensures var b0: int, b1: int := w[0], w[1];
            && (b0 % 4 == 0 ==> DecodeCompactInt(w) == Some(Compact(b0 / 4, 0)))
            && (b0 % 4 == 1 ==> DecodeCompactInt(w) == Some(Compact((b0 + 0x100 * b1) / 4, 1)))
            && (b0 % 4 == 2 ==> DecodeCompactInt(w) == Some(Compact(Word(w, 0) / 4, 2)))
            && (b0 % 4 == 3 ==> DecodeCompactInt(w) == if b0 == 3 then Some(Compact(Word(w, 1), 3)) else None)
  {
    hide LeSum, Bits, LeValue;
    BitSums(w);
    LeValueOfWord(w[..4]);
    LeValueOfWord(w[1..]);
    TwoBytes(w[..2]);
  }

  lemma TwoBytes(w: seq<Byte>)
    requires |w| == 2
    ensures var b0: int, b1: int := w[0], w[1]; LeValue(w) == b0 + 0x100 * b1
  {
    assert w[1..] == [w[1]] && w[1..][1..] == [];
    assert LeValue(w[1..]) == w[1] + 0x100 * LeValue([]);
  }

  /** The mode of an accepted window is one of the four. */
  lemma DecodedMode(w: seq<Byte>)
    requires |w| == MAX_COMPACT_UINT_BYTES
    ensures DecodeCompactInt(w).Some? ==> DecodeCompactInt(w).value.mode < 4
  {
    BitSums(w);
  }
}
