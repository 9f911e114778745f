/**
 * The note commitment tree, as sections 3.8 and 4.9 of the Zcash Protocol Specification describe it:
 * a dense binary tree whose missing leaves hold the empty leaf. Every fast form in the other tree
 * modules is proved against `Hasher.Node`.
 */
module MerkleTree {
  import opened Wrappers

  /** A Pallas base-field element; only its equality matters here. */
  type Hash(==, !new)

  function Pow2(k: nat): (p: nat)
    ensures p > 0
  {
    if k == 0 then 1 else 2 * Pow2(k - 1)
  }

  /** `index << level`: position of the leftmost leaf under node `index` of `level`. */
  function First(level: nat, index: nat): nat {
    if level == 0 then index else First(level - 1, 2 * index)
  }

  lemma {:induction false} FirstIsProduct(level: nat, index: nat)
    ensures First(level, index) == index * Pow2(level)
  {
    if level > 0 {
      FirstIsProduct(level - 1, 2 * index);
      assert (2 * index) * Pow2(level - 1) == index * (2 * Pow2(level - 1));
    }
  }

  /** A node of `level` covers `2^level` leaves. */
  lemma {:induction false} NodeWidth(level: nat, index: nat)
    ensures First(level, index + 1) == First(level, index) + Pow2(level)
    decreases level
  {
    if level > 0 {
      NodeWidth(level - 1, 2 * index);
      NodeWidth(level - 1, 2 * index + 1);
    }
  }

  /** The leftmost node of a level starts at leaf 0. */
  lemma {:induction false} FirstOfZero(level: nat)
    ensures First(level, 0) == 0 && First(level, 1) == Pow2(level)
  {
    if level > 0 {
      FirstOfZero(level - 1);
    }
    NodeWidth(level, 0);
  }

  lemma ChildRanges(level: nat, index: nat)
    requires level > 0
    ensures First(level - 1, 2 * index) == First(level, index)
    ensures First(level - 1, 2 * index + 1) == First(level, index) + Pow2(level - 1)
    ensures First(level - 1, 2 * index + 2) == First(level, index + 1)
    ensures First(level, index) < First(level - 1, 2 * index + 1) < First(level, index + 1)
  {
    NodeWidth(level - 1, 2 * index);
    NodeWidth(level - 1, 2 * index + 1);
  }

  /** Ranges of one level follow each other in index order. */
  lemma {:induction false} FirstMonotone(level: nat, i: nat, j: nat)
    requires i <= j
    ensures First(level, i) <= First(level, j)
    ensures i < j ==> First(level, i + 1) <= First(level, j) && First(level, i) < First(level, j)
    decreases j - i
  {
    if i < j {
      NodeWidth(level, i);
      FirstMonotone(level, i + 1, j);
    }
  }

  function Sibling(index: nat): nat {
    if index % 2 == 0 then index + 1 else index - 1
  }

  /** `index >> k`: the ancestor of a node, `k` levels up. */
  function Shr(index: nat, k: nat): nat {
    if k == 0 then index else Shr(index / 2, k - 1)
  }

  /** The ancestor of a node is the one node of that level whose range contains it. */
  lemma {:induction false} ShrIsContainingNode(level: nat, index: nat, k: nat)
    ensures First(level + k, Shr(index, k)) <= First(level, index)
    ensures First(level, index + 1) <= First(level + k, Shr(index, k) + 1)
    decreases k
  {
    if k > 0 {
      ShrIsContainingNode(level + 1, index / 2, k - 1);
      ChildRanges(level + 1, index / 2);
    }
  }

  lemma ContainingNodeIsUnique(level: nat, i: nat, j: nat, p: nat)
    requires First(level, i) <= p < First(level, i + 1)
    requires First(level, j) <= p < First(level, j + 1)
    ensures i == j
  {
    if i < j {
      FirstMonotone(level, i, j);
    } else if j < i {
      FirstMonotone(level, j, i);
    }
  }

  /** The hash function of a tree: `combine(l, x, y)` joins two level-`l` nodes into a level-`l + 1` node. */
  datatype Hasher = Hasher(emptyLeaf: Hash, combine: (nat, Hash, Hash) -> Hash) {

    function EmptyRoot(level: nat): Hash {
      if level == 0 then emptyLeaf
      else combine(level - 1, EmptyRoot(level - 1), EmptyRoot(level - 1))
    }

    function LeafAt(leaves: seq<Hash>, position: nat): Hash {
      if position < |leaves| then leaves[position] else emptyLeaf
    }

    /** Node `index` of `level` in the dense tree over `leaves`, padded with empty leaves. */
    function Node(leaves: seq<Hash>, level: nat, index: nat): Hash {
      if level == 0 then LeafAt(leaves, index)
      else combine(level - 1, Node(leaves, level - 1, 2 * index), Node(leaves, level - 1, 2 * index + 1))
    }

    /** The Merkle root of exactly `2^level` leaves, by halves. */
    function RootByHalves(level: nat, leaves: seq<Hash>): Hash
      requires |leaves| == Pow2(level)
    {
      if level == 0 then leaves[0]
      else
        var half := Pow2(level - 1);
        combine(level - 1, RootByHalves(level - 1, leaves[..half]), RootByHalves(level - 1, leaves[half..]))
    }

    /** Recomputes a root from a node and the siblings on its way up (section 4.9). */
    function PathRoot(digest: Hash, level: nat, index: nat, path: seq<Hash>): Hash
      decreases |path|
    {
      if path == [] then digest
      else
        var parent := if index % 2 == 0 then combine(level, digest, path[0]) else combine(level, path[0], digest);
        PathRoot(parent, level + 1, index / 2, path[1..])
    }

    /** The true siblings from `level` up to `depth`. */
    function PathOf(leaves: seq<Hash>, level: nat, index: nat, depth: nat): (path: seq<Hash>)
      requires level <= depth
      ensures |path| == depth - level
      decreases depth - level
    {
      if level == depth then []
      else [Node(leaves, level, Sibling(index))] + PathOf(leaves, level + 1, index / 2, depth)
    }

    /** A path may be cut at any level. */
    lemma {:induction false} PathSplits(leaves: seq<Hash>, level: nat, index: nat, middle: nat, depth: nat)
      requires level <= middle <= depth
      ensures PathOf(leaves, level, index, depth)
           == PathOf(leaves, level, index, middle) + PathOf(leaves, middle, Shr(index, middle - level), depth)
      decreases middle - level
    {
      if level < middle {
        PathSplits(leaves, level + 1, index / 2, middle, depth);
      }
    }

    ghost predicate CollisionFree() {
      forall l: nat, a, b, c, d :: combine(l, a, b) == combine(l, c, d) ==> a == c && b == d
    }

    lemma {:induction false} NodeBeyondIsEmpty(leaves: seq<Hash>, level: nat, index: nat)
      requires |leaves| <= First(level, index)
      ensures Node(leaves, level, index) == EmptyRoot(level)
    {
      if level > 0 {
        ChildRanges(level, index);
        NodeBeyondIsEmpty(leaves, level - 1, 2 * index);
        NodeBeyondIsEmpty(leaves, level - 1, 2 * index + 1);
      }
    }

    predicate SameLeaf(a: seq<Hash>, x: nat, b: seq<Hash>, y: nat, k: nat) {
      LeafAt(a, x + k) == LeafAt(b, y + k)
    }

    /** A node depends only on the leaves of its own range, not on where the range lies. */
    lemma {:induction false} NodeIsLocal(a: seq<Hash>, i: nat, b: seq<Hash>, j: nat, level: nat)
      requires forall k: nat :: k < Pow2(level) ==> SameLeaf(a, First(level, i), b, First(level, j), k)
      ensures Node(a, level, i) == Node(b, level, j)
      decreases level
    {
      if level == 0 {
        assert SameLeaf(a, First(0, i), b, First(0, j), 0);
      } else {
        ChildRanges(level, i);
        ChildRanges(level, j);
        var half := Pow2(level - 1);
        var x, y := First(level - 1, 2 * i), First(level - 1, 2 * j);
        forall k: nat | k < half
          ensures SameLeaf(a, x, b, y, k)
        {
          assert SameLeaf(a, First(level, i), b, First(level, j), k);
        }
        NodeIsLocal(a, 2 * i, b, 2 * j, level - 1);
        var x', y' := First(level - 1, 2 * i + 1), First(level - 1, 2 * j + 1);
        forall k: nat | k < half
          ensures SameLeaf(a, x', b, y', k)
        {
          assert SameLeaf(a, First(level, i), b, First(level, j), half + k);
        }
        NodeIsLocal(a, 2 * i + 1, b, 2 * j + 1, level - 1);
      }
    }

    /** `Node` and the recursive Merkle root of a full tree agree. */
    lemma {:induction false} NodeIsRootByHalves(level: nat, leaves: seq<Hash>)
      requires |leaves| == Pow2(level)
      ensures Node(leaves, level, 0) == RootByHalves(level, leaves)
    {
      if level > 0 {
        var half := Pow2(level - 1);
        NodeIsRootByHalves(level - 1, leaves[..half]);
        NodeIsRootByHalves(level - 1, leaves[half..]);
        FirstOfZero(level - 1);
        NodeIsLocal(leaves, 0, leaves[..half], 0, level - 1);
        NodeIsLocal(leaves, 1, leaves[half..], 0, level - 1);
      }
    }

    /** The true siblings lead from any node to the root above it. */
    lemma {:induction false} TruePathReachesRoot(leaves: seq<Hash>, level: nat, index: nat, depth: nat)
      requires level <= depth
      requires index < Pow2(depth - level)
      ensures PathRoot(Node(leaves, level, index), level, index, PathOf(leaves, level, index, depth))
           == Node(leaves, depth, 0)
      decreases depth - level
    {
      if level < depth {
        TruePathReachesRoot(leaves, level + 1, index / 2, depth);
        assert PathOf(leaves, level, index, depth)[1..] == PathOf(leaves, level + 1, index / 2, depth);
      }
    }

    /** Under collision-free hashing a path of fixed length binds both the leaf and the siblings. */
    lemma {:induction false} PathRootIsBinding(a: Hash, b: Hash, level: nat, index: nat, p: seq<Hash>, q: seq<Hash>)
      requires CollisionFree() && |p| == |q|
      requires PathRoot(a, level, index, p) == PathRoot(b, level, index, q)
      ensures a == b && p == q
      decreases |p|
    {
      if p != [] {
        var pa := if index % 2 == 0 then combine(level, a, p[0]) else combine(level, p[0], a);
        var pb := if index % 2 == 0 then combine(level, b, q[0]) else combine(level, q[0], b);
        PathRootIsBinding(pa, pb, level + 1, index / 2, p[1..], q[1..]);
        assert p == [p[0]] + p[1..] && q == [q[0]] + q[1..];
      }
    }
  }

  /** The 32-byte form of a hash, as it arrives from the network. */
  type Bytes(==, !new)

  /** `fromBytes` rejects byte strings that are not field elements. */
  datatype Encoding = Encoding(fromBytes: Bytes -> Option<Hash>, toBytes: Hash -> Bytes) {

    ghost predicate Canonical() {
      forall h :: fromBytes(toBytes(h)) == Some(h)
    }

    /** Decodes commitments in order; a failure is the position of the first one that is not a field element. */
    function ParseLeaves(cmxs: seq<Bytes>, base: nat): (r: Result<seq<Hash>, nat>)
      ensures r.Success? ==>
                |r.value| == |cmxs| && forall i :: 0 <= i < |cmxs| ==> fromBytes(cmxs[i]) == Some(r.value[i])
      ensures r.Failure? ==>
                && base <= r.error < base + |cmxs|
                && fromBytes(cmxs[r.error - base]) == None
                && forall i :: 0 <= i < r.error - base ==> fromBytes(cmxs[i]).Some?
    {
      if cmxs == [] then Success([])
      else
        match fromBytes(cmxs[0])
        case None => Failure(base)
        case Some(leaf) =>
          match ParseLeaves(cmxs[1..], base + 1)
          case Failure(position) => Failure(position)
          case Success(rest) => Success([leaf] + rest)
    }
  }
}
