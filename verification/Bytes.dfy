/** Bytes, machine integers and the cryptographic primitives that every component shares. */
module Bytes {

  datatype Option<+T> = None | Some(value: T)

  const TWO_32 := 0x1_0000_0000
  const TWO_64 := 0x1_0000_0000_0000_0000

  type Byte = x: int | 0 <= x < 256
  type U32 = x: int | 0 <= x < TWO_32
  type U64 = x: int | 0 <= x < TWO_64

  /** A hash, a public key or a Merkle node. */
  type Bytes32 = b: seq<Byte> | |b| == 32 witness Zeros(32)

  function Zeros(n: nat): (z: seq<Byte>)
    ensures |z| == n
    ensures forall i :: 0 <= i < n ==> z[i] == 0
  {
    seq(n, _ => 0)
  }

  const ZERO32: Bytes32 := Zeros(32)

  /** Addition of circuit `U32Variable`s: it wraps. */
  function Add32(a: U32, b: U32): U32 {
    if a + b < TWO_32 then a + b else a + b - TWO_32
  }

  /** Subtraction of circuit `U32Variable`s: it wraps. */
  function Sub32(a: U32, b: U32): U32 {
    if b <= a then a - b else a - b + TWO_32
  }

  function Mul32(a: U32, b: U32): U32 {
    (a * b) % TWO_32
  }

  function Min(a: int, b: int): int {
    if a <= b then a else b
  }

  /** A hash function to 32 bytes. Nothing is known about it: every theorem holds for all of them. */
  type Hasher = seq<Byte> -> Bytes32

  /** SHA-256, BLAKE2b-256 and Ed25519 verification of (public key, message, signature). */
  datatype Crypto = Crypto(sha256: Hasher, blake2b: Hasher, verify: (Bytes32, seq<Byte>, seq<Byte>) -> bool)

  /** Two 32-byte strings side by side. */
  function Join(left: Bytes32, right: Bytes32): (bytes: seq<Byte>)
    ensures |bytes| == 64 && bytes[..32] == left && bytes[32..] == right
  {
    var l: seq<Byte> := left;
    l + right
  }

  function HashPair(h: Hasher, left: Bytes32, right: Bytes32): Bytes32 {
    h(Join(left, right))
  }

  ghost predicate Collision(h: Hasher, x: seq<Byte>, y: seq<Byte>) {
    x != y && h(x) == h(y)
  }

  /** The value of little-endian bytes. */
  function LeValue(bs: seq<Byte>): (v: nat) {
    if bs == [] then 0 else bs[0] + 256 * LeValue(bs[1..])
  }

  /** The `k` low-order bytes of `v`, little-endian. */
  function LeBytes(v: nat, k: nat): (bs: seq<Byte>)
    ensures |bs| == k
  {
    if k == 0 then [] else [v % 256] + LeBytes(v / 256, k - 1)
  }

  /** Four bytes as a number, the low-order byte first. */
  function Word(bs: seq<Byte>, at: nat): (w: nat)
    requires at + 4 <= |bs|
  {
    var b0: int, b1: int, b2: int, b3: int := bs[at], bs[at + 1], bs[at + 2], bs[at + 3];
    b0 + 0x100 * b1 + 0x1_0000 * b2 + 0x100_0000 * b3
  }

  lemma LeValueOfWord(bs: seq<Byte>)
    ensures |bs| == 4 ==> LeValue(bs) == Word(bs, 0)
    ensures |bs| == 8 ==> LeValue(bs) == Word(bs, 0) + TWO_32 * Word(bs, 4)
  {
    if |bs| == 4 || |bs| == 8 {
      assert bs[1..][1..] == bs[2..] && bs[2..][1..] == bs[3..] && bs[3..][1..] == bs[4..];
      assert LeValue(bs[3..]) == bs[3] + 0x100 * LeValue(bs[4..]);
      assert LeValue(bs[2..]) == bs[2] + 0x100 * LeValue(bs[3..]);
      assert LeValue(bs[1..]) == bs[1] + 0x100 * LeValue(bs[2..]);
      if |bs| == 8 {
        LeValueOfWord(bs[4..]);
      }
    }
  }

  function Pow2(k: nat): (p: nat)
    ensures p > 0
  {
    if k == 0 then 1 else 2 * Pow2(k - 1)
  }

  function Pow256(k: nat): (p: nat)
    ensures p > 0
  {
    if k == 0 then 1 else 256 * Pow256(k - 1)
  }

  lemma {:induction false} LeValueBound(bs: seq<Byte>)
    ensures LeValue(bs) < Pow256(|bs|)
  {
    if bs != [] {
      LeValueBound(bs[1..]);
    }
  }

  /** Reading back what was written, for values that fit. */
  lemma {:induction false} LeRoundTrip(v: nat, k: nat)
    requires v < Pow256(k)
    ensures LeValue(LeBytes(v, k)) == v
  {
    if k != 0 {
      assert v / 256 < Pow256(k - 1);
      LeRoundTrip(v / 256, k - 1);
      assert LeBytes(v, k)[1..] == LeBytes(v / 256, k - 1);
    }
  }

  lemma LowByte(b: Byte, v: nat)
    ensures (b + 256 * v) % 256 == b && (b + 256 * v) / 256 == v
  {
  }

  /** Writing back what was read. */
  lemma {:induction false} LeBytesOfValue(bs: seq<Byte>)
    ensures LeBytes(LeValue(bs), |bs|) == bs
  {
    if bs != [] {
      LeBytesOfValue(bs[1..]);
      LowByte(bs[0], LeValue(bs[1..]));
      assert bs == [bs[0]] + bs[1..];
    }
  }

  /** Equal bytes and equal values are the same thing at a fixed width. */
  lemma LeBytesIff(bs: seq<Byte>, v: nat)
    requires v < Pow256(|bs|)
    ensures LeBytes(v, |bs|) == bs <==> LeValue(bs) == v
  {
    LeBytesOfValue(bs);
    LeRoundTrip(v, |bs|);
  }

  lemma PowValues()
    ensures Pow256(1) == 256 && Pow256(2) == 0x1_0000 && Pow256(4) == TWO_32 && Pow256(8) == TWO_64
  {
    assert Pow256(4) == 256 * (256 * (256 * (256 * Pow256(0))));
    assert Pow256(8) == 256 * (256 * (256 * (256 * Pow256(4))));
  }

  // ----- division -----

  lemma DivMod(x: nat, t: nat)
    requires t > 0
    ensures x / t >= 0 && x == x / t * t + x % t && 0 <= x % t < t
    ensures x < t ==> x / t == 0
  {
  }

  lemma TimesGrows(t: nat, a: nat, b: nat)
    ensures a < b ==> a * t + t <= b * t
  {
    if a < b {
      assert b * t == (a + 1) * t + (b - a - 1) * t;
    }
  }
}
