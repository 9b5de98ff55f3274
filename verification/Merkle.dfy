/** Merkle roots over unhashed 32-byte leaves: the recursive definition, the host's two loops, and
    the circuit's root over an array of which only a prefix is enabled. */
module Merkle {
  import opened Bytes

  function CountOnes(n: nat): nat {
    if n == 0 then 0 else n % 2 + CountOnes(n / 2)
  }

  /** The depth of the smallest complete tree with at least `n` leaves. */
  function Depth(n: nat): (d: nat)
    ensures n <= Pow2(d)
  {
    if n <= 1 then 0 else 1 + Depth((n + 1) / 2)
  }

  /** Rust's `next_power_of_two`. */
  function NextPow2(n: nat): nat {
    Pow2(Depth(n))
  }

  predicate IsPow2(n: nat) {
    n == NextPow2(n)
  }

  /** One bit set means a power of two. */
  lemma {:induction false} OneBitIffPow2(n: nat)
    ensures CountOnes(n) == 1 <==> IsPow2(n)
    ensures CountOnes(n) == 0 <==> n == 0
  {
    if n > 1 {
      var m := n / 2;
      OneBitIffPow2(m);
      if n == 2 * m {
        assert (n + 1) / 2 == m && Depth(n) == 1 + Depth(m) && CountOnes(n) == CountOnes(m);
      } else {
        assert n == 2 * m + 1 && CountOnes(n) == 1 + CountOnes(m);
        assert NextPow2(n) == 2 * Pow2(Depth((n + 1) / 2));
      }
    }
  }

  /** Until a power of two is reached, adding one does not change which is the next one. */
  lemma {:induction false} DepthStep(n: nat)
    requires n > 0 && !IsPow2(n)
    ensures Depth(n + 1) == Depth(n)
  {
    if n > 1 {
      if n % 2 == 0 {
        DepthStep(n / 2);
        assert (n + 1) / 2 == n / 2 && (n + 2) / 2 == n / 2 + 1;
      } else {
        assert (n + 2) / 2 == (n + 1) / 2;
      }
    }
  }

  /** The depth is the least one that fits, and a power of two is its own next one. */
  lemma {:induction false} DepthLeast(n: nat, d: nat)
    ensures n <= Pow2(d) ==> Depth(n) <= d
    ensures n == Pow2(d) ==> Depth(n) == d
  {
    if n > 1 && d > 0 {
      DepthLeast((n + 1) / 2, d - 1);
    }
  }

  /** The root as a tree: split the leaves in the middle, hash the two roots. */
  function Root(h: Hasher, depth: nat, leaves: seq<Bytes32>): Bytes32
    requires |leaves| == Pow2(depth)
  {
    if depth == 0 then leaves[0]
    else
      var half := Pow2(depth - 1);
      HashPair(h, Root(h, depth - 1, leaves[..half]), Root(h, depth - 1, leaves[half..]))
  }

  function ZeroLeaves(n: nat): (z: seq<Bytes32>)
    ensures |z| == n
  {
    seq(n, _ => ZERO32)
  }

  /** Leaves zero-extended to a given width. */
  function Padded(leaves: seq<Bytes32>, width: nat): (p: seq<Bytes32>)
    requires |leaves| <= width
    ensures |p| == width
  {
    leaves + ZeroLeaves(width - |leaves|)
  }

  /** The root of the leaves zero-extended to a complete tree of a given depth. */
  function PaddedRoot(h: Hasher, depth: nat, leaves: seq<Bytes32>): Bytes32
    requires |leaves| <= Pow2(depth)
  {
    Root(h, depth, Padded(leaves, Pow2(depth)))
  }

  /** One level up: hash neighbours in pairs. */
  function LevelUp(h: Hasher, nodes: seq<Bytes32>): (up: seq<Bytes32>)
    ensures |up| == |nodes| / 2
  {
    seq(|nodes| / 2, i requires 0 <= i < |nodes| / 2 => HashPair(h, nodes[2 * i], nodes[2 * i + 1]))
  }

  /** Going up one level keeps the root of the recursive definition. */
  lemma {:induction false} LevelUpKeepsRoot(h: Hasher, depth: nat, nodes: seq<Bytes32>)
    requires depth > 0 && |nodes| == Pow2(depth)
    ensures |LevelUp(h, nodes)| == Pow2(depth - 1)
    ensures Root(h, depth - 1, LevelUp(h, nodes)) == Root(h, depth, nodes)
  {
    var m := Pow2(depth - 1);
    if depth > 1 {
      LevelUpKeepsRoot(h, depth - 1, nodes[..m]);
      LevelUpKeepsRoot(h, depth - 1, nodes[m..]);
      LevelUpSplits(h, nodes, Pow2(depth - 2));
    } else {
      assert Pow2(0) == 1;
      assert nodes[..1] == [nodes[0]] && nodes[1..] == [nodes[1]];
    }
  }

  lemma LevelUpSplits(h: Hasher, nodes: seq<Bytes32>, quarter: nat)
    requires |nodes| == 4 * quarter
    ensures LevelUp(h, nodes)[..quarter] == LevelUp(h, nodes[..2 * quarter])
    ensures LevelUp(h, nodes)[quarter..] == LevelUp(h, nodes[2 * quarter..])
  {
    assert forall i :: 0 <= i < quarter ==>
      LevelUp(h, nodes)[quarter + i] == HashPair(h, nodes[2 * quarter + 2 * i], nodes[2 * quarter + 2 * i + 1]);
  }

  lemma SingleNode(h: Hasher, depth: nat, nodes: seq<Bytes32>)
    requires |nodes| == Pow2(depth) <= 1
    ensures nodes[0] == Root(h, depth, nodes)
  {
  }

  lemma PaddedSnoc(leaves: seq<Bytes32>, width: nat)
    requires |leaves| < width
    ensures Padded(leaves + [ZERO32], width) == Padded(leaves, width)
  {
  }

  /** The host's `get_merkle_root`: extend to a power of two, then halve level by level. */
  method GetMerkleRoot(h: Hasher, input: seq<Bytes32>) returns (root: seq<Byte>)
    ensures input == [] ==> root == []
    ensures input != [] ==> root == PaddedRoot(h, Depth(|input|), input)
    ensures input != [] ==> forall i :: 0 <= i < Pow2(Depth(|input|)) ==>
      Climbs(h, Depth(|input|), i, LeafOrZero(input, i), root)
  {
    hide CountOnes, Depth, Root, Climbs;
    if input == [] {
      return [];
    }
    ghost var width := NextPow2(|input|);
    var leaves := input;
    while CountOnes(|leaves|) != 1
      invariant 0 < |leaves| && |leaves| <= width
      invariant Depth(|leaves|) == Depth(|input|)
      invariant Padded(leaves, width) == Padded(input, width)
      decreases width - |leaves|
    {
      OneBitIffPow2(|leaves|);
      DepthStep(|leaves|);
      PaddedSnoc(leaves, width);
      leaves := leaves + [ZERO32];
    }
    OneBitIffPow2(|leaves|);
    assert leaves == Padded(leaves, width);
    var nodes := leaves;
    ghost var depth := Depth(|input|);
    while |nodes| > 1
      invariant |nodes| == Pow2(depth) && Root(h, depth, nodes) == PaddedRoot(h, Depth(|input|), input)
      decreases depth
    {
      assert Pow2(0) == 1;
      LevelUpKeepsRoot(h, depth, nodes);
      nodes := LevelUp(h, nodes);
      depth := depth - 1;
    }
    SingleNode(h, depth, nodes);
    PaddedRootClimbs(h, Depth(|input|), input);
    return nodes[0];
  }

  /** The host's commitment over one range: leaves zero-padded to the tree size. None stands for the
      source's two panics: a tree size that is no power of two, and a range larger than the tree. */
  method GetMerkleRootCommitment(h: Hasher, treeSize: U32, roots: seq<Bytes32>)
      returns (r: Option<Bytes32>)
    ensures IsPow2(treeSize) && |roots| <= treeSize ==> r == Some(PaddedRoot(h, Depth(treeSize), roots))
    ensures !(IsPow2(treeSize) && |roots| <= treeSize) ==> r == None
  {
    hide Climbs;
    OneBitIffPow2(treeSize);
    if CountOnes(treeSize) != 1 || |roots| > treeSize {
      return None;
    }
    var leaves := roots;
    for k := |roots| to treeSize
      invariant |leaves| == k && Padded(leaves, treeSize) == Padded(roots, treeSize)
    {
      PaddedSnoc(leaves, treeSize);
      leaves := leaves + [ZERO32];
    }
    assert leaves == Padded(leaves, treeSize);
    var root := GetMerkleRoot(h, leaves);
    r := Some(root);
  }

  /** The circuit gadget over a full array: leaves from `enabled` on count as zero. */
  function RootFromHashedLeaves(h: Hasher, depth: nat, leaves: seq<Bytes32>, enabled: nat): Bytes32
    requires enabled <= |leaves| == Pow2(depth)
  {
    PaddedRoot(h, depth, leaves[..enabled])
  }

  /** A padded root is the hash of the padded roots of its two halves, whether the leaves end in the
      left half or in the right one. */
  lemma PaddedRootSplits(h: Hasher, depth: nat, leaves: seq<Bytes32>)
    requires depth > 0 && |leaves| <= Pow2(depth)
    ensures var half := Pow2(depth - 1);
            var l := leaves[..Min(|leaves|, half)];
            var r := leaves[|l|..];
            |l| <= half && |r| <= half
            && PaddedRoot(h, depth, leaves) == HashPair(h, PaddedRoot(h, depth - 1, l), PaddedRoot(h, depth - 1, r))
  {
    var half := Pow2(depth - 1);
    var l := leaves[..Min(|leaves|, half)];
    var r := leaves[|l|..];
    var p := Padded(leaves, 2 * half);
    assert p[..half] == Padded(l, half);
    assert p[half..] == Padded(r, half);
  }

  // ----- what a root says about its leaves -----

  /** From a node up along its siblings, the nearest first: the bits of the index say on which side they are. */
  function Climb(h: Hasher, node: Bytes32, i: nat, path: seq<Bytes32>): Bytes32
    decreases |path|
  {
    if path == [] then node
    else
      var here, sibling: seq<Byte> := node, path[0];
      Climb(h, if i % 2 == 0 then h(here + sibling) else h(sibling + here), i / 2, path[1..])
  }

  /** Leaf `i` of zero-extended leaves. */
  function LeafOrZero(leaves: seq<Bytes32>, i: nat): (leaf: Bytes32)
    ensures i < |leaves| ==> leaf == leaves[i]
    ensures i >= |leaves| ==> leaf == ZERO32
  {
    if i < |leaves| then leaves[i] else ZERO32
  }

  /** There is a path of siblings from leaf `i` up to the root. */
  ghost predicate Climbs(h: Hasher, depth: nat, i: nat, leaf: Bytes32, root: seq<Byte>) {
    exists path: seq<Bytes32> :: |path| == depth && Climb(h, leaf, i, path) == root
  }

  /** Bit `k` of `i`. */
  predicate Bit(i: nat, k: nat) {
    if k == 0 then i % 2 == 1 else Bit(i / 2, k - 1)
  }

  lemma {:induction false} TopBit(i: nat, k: nat)
    requires i < 2 * Pow2(k)
    ensures Bit(i, k) <==> i >= Pow2(k)
  {
    if k > 0 {
      TopBit(i / 2, k - 1);
    }
  }

  lemma {:induction false} ClimbSnoc(h: Hasher, node: Bytes32, i: nat, path: seq<Bytes32>, last: Bytes32)
    ensures var below: seq<Byte>, sibling: seq<Byte> := Climb(h, node, i, path), last;
            Climb(h, node, i, path + [last]) == if Bit(i, |path|) then h(sibling + below) else h(below + sibling)
    decreases |path|
  {
    if path == [] {
      assert [last][1..] == [];
    } else {
      var here, sibling: seq<Byte> := node, path[0];
      ClimbSnoc(h, if i % 2 == 0 then h(here + sibling) else h(sibling + here), i / 2, path[1..], last);
      assert (path + [last])[1..] == path[1..] + [last];
    }
  }

  /** Only as many bits of the index count as there are siblings. */
  lemma {:induction false} ClimbLowBits(h: Hasher, node: Bytes32, i: nat, path: seq<Bytes32>)
    ensures Climb(h, node, i + Pow2(|path|), path) == Climb(h, node, i, path)
    decreases |path|
  {
    if path != [] {
      var here, sibling: seq<Byte> := node, path[0];
      ClimbLowBits(h, if i % 2 == 0 then h(here + sibling) else h(sibling + here), i / 2, path[1..]);
      assert (i + 2 * Pow2(|path| - 1)) / 2 == i / 2 + Pow2(|path| - 1);
    }
  }

  /** Every leaf of a tree climbs to its root. */
  lemma {:induction false} RootClimbs(h: Hasher, depth: nat, leaves: seq<Bytes32>, i: nat) returns (path: seq<Bytes32>)
    requires i < |leaves| == Pow2(depth)
    ensures |path| == depth && Climb(h, leaves[i], i, path) == Root(h, depth, leaves)
  {
    path := [];
    if depth > 0 {
      var half := Pow2(depth - 1);
      TopBit(i, depth - 1);
      if i < half {
        path := RootClimbs(h, depth - 1, leaves[..half], i);
        ClimbSnoc(h, leaves[i], i, path, Root(h, depth - 1, leaves[half..]));
        path := path + [Root(h, depth - 1, leaves[half..])];
      } else {
        path := RootClimbs(h, depth - 1, leaves[half..], i - half);
        ClimbLowBits(h, leaves[i], i - half, path);
        ClimbSnoc(h, leaves[i], i, path, Root(h, depth - 1, leaves[..half]));
        path := path + [Root(h, depth - 1, leaves[..half])];
      }
    }
  }

  /** A padded root is a root over exactly these leaves, in this order, and zeros behind them. */
  lemma PaddedRootClimbs(h: Hasher, depth: nat, leaves: seq<Bytes32>)
    requires |leaves| <= Pow2(depth)
    ensures forall i :: 0 <= i < Pow2(depth) ==>
      Climbs(h, depth, i, LeafOrZero(leaves, i), PaddedRoot(h, depth, leaves))
  {
    hide Climb, Root;
    forall i | 0 <= i < Pow2(depth)
      ensures Climbs(h, depth, i, LeafOrZero(leaves, i), PaddedRoot(h, depth, leaves))
    {
      var padded := Padded(leaves, Pow2(depth));
      var path := RootClimbs(h, depth, padded, i);
      assert padded[i] == LeafOrZero(leaves, i);
      assert Climb(h, padded[i], i, path) == PaddedRoot(h, depth, leaves);
    }
  }
}
