/**
 * The right edge of the commitment tree: `frontier_anchor` and `frontier_leaf_count` read a root and a
 * size from it without any other leaf. The edge arrives as a legacy zcashd `CommitmentTree`, which a node
 * grows one leaf at a time.
 */
module Frontier {
  import opened Wrappers
  import opened MerkleTree

  /** `parents[i]`, when set, is the root of a full subtree of height `i + 1` left of the last pair. */
  datatype CommitmentTree = CommitmentTree(left: Option<Hash>, right: Option<Hash>, parents: seq<Option<Hash>>)

  /** The last leaf, its position, and the full left siblings on its way up, lowest first. */
  datatype NonEmptyFrontier = NonEmptyFrontier(position: nat, leaf: Hash, ommers: seq<Hash>)

  /** `LeftLeafMissing` is the case the library declares unreachable: leaves without a left leaf. */
  datatype FrontierError = FrontierDecode | LeftLeafMissing

  const EMPTY_TREE := CommitmentTree(None, None, [])

  // ----- growing a commitment tree -----

  /** Stores a new full subtree of height `level`, merging it with every full neighbour it meets. */
  function Carry(h: Hasher, parents: seq<Option<Hash>>, level: nat, node: Hash): seq<Option<Hash>> {
    if parents == [] then [Some(node)]
    else
      match parents[0]
      case None => [Some(node)] + parents[1..]
      case Some(parent) => [None] + Carry(h, parents[1..], level + 1, h.combine(level, parent, node))
  }

  predicate IsComplete(t: CommitmentTree, depth: nat) {
    && t.left.Some? && t.right.Some?
    && |t.parents| + 1 == depth
    && forall i :: 0 <= i < |t.parents| ==> t.parents[i].Some?
  }

  /** None when the tree is full. */
  function Append(h: Hasher, depth: nat, t: CommitmentTree, leaf: Hash): Option<CommitmentTree> {
    if IsComplete(t, depth) then None
    else
      match (t.left, t.right)
      case (None, _) => Some(t.(left := Some(leaf)))
      case (Some(_), None) => Some(t.(right := Some(leaf)))
      case (Some(l), Some(r)) =>
        Some(CommitmentTree(Some(leaf), None, Carry(h, t.parents, 1, h.combine(0, l, r))))
  }

  function AppendAll(h: Hasher, depth: nat, leaves: seq<Hash>): Option<CommitmentTree> {
    if leaves == [] then Some(EMPTY_TREE)
    else
      match AppendAll(h, depth, leaves[..|leaves| - 1])
      case None => None
      case Some(t) => Append(h, depth, t, leaves[|leaves| - 1])
  }

  // ----- reading it back -----

  function SubtreeCount(parents: seq<Option<Hash>>): nat {
    if parents == [] then 0
    else (if parents[0].Some? then 1 else 0) + 2 * SubtreeCount(parents[1..])
  }

  function Size(t: CommitmentTree): nat {
    (if t.left.Some? then 1 else 0) + (if t.right.Some? then 1 else 0) + 2 * SubtreeCount(t.parents)
  }

  function Present(parents: seq<Option<Hash>>): seq<Hash> {
    if parents == [] then []
    else if parents[0].Some? then [parents[0].value] + Present(parents[1..])
    else Present(parents[1..])
  }

  function ToFrontier(t: CommitmentTree): Result<Option<NonEmptyFrontier>, FrontierError> {
    if Size(t) == 0 then Success(None)
    else
      match (t.left, t.right)
      case (Some(l), None) => Success(Some(NonEmptyFrontier(Size(t) - 1, l, Present(t.parents))))
      case (Some(l), Some(r)) => Success(Some(NonEmptyFrontier(Size(t) - 1, r, [l] + Present(t.parents))))
      case (None, _) => Failure(LeftLeafMissing)
  }

  /** An empty byte string is the genesis state; anything else goes through the wire-format reader `read`. */
  function DecodeFrontier(read: seq<bv8> -> Option<CommitmentTree>, bytes: seq<bv8>)
    : Result<Option<NonEmptyFrontier>, FrontierError>
  {
    if bytes == [] then Success(None)
    else
      match read(bytes)
      case None => Failure(FrontierDecode)
      case Some(t) => ToFrontier(t)
  }

  function FrontierLeafCount(read: seq<bv8> -> Option<CommitmentTree>, bytes: seq<bv8>): Result<nat, FrontierError> {
    match DecodeFrontier(read, bytes)
    case Failure(e) => Failure(e)
    case Success(None) => Success(0)
    case Success(Some(f)) => Success(f.position + 1)
  }

  /**
   * Climbs from node `index` of `level` to `depth`: an odd node has a full left sibling, the next ommer;
   * nothing lies to the right of an even one. `None` if the ommers run out.
   */
  function Climb(h: Hasher, depth: nat, digest: Hash, level: nat, index: nat, ommers: seq<Hash>): Option<Hash>
    decreases depth - level
  {
    if level >= depth then Some(digest)
    else if index % 2 == 0 then
      Climb(h, depth, h.combine(level, digest, h.EmptyRoot(level)), level + 1, index / 2, ommers)
    else if ommers == [] then None
    else Climb(h, depth, h.combine(level, ommers[0], digest), level + 1, index / 2, ommers[1..])
  }

  function FrontierRoot(h: Hasher, depth: nat, f: Option<NonEmptyFrontier>): Option<Hash> {
    match f
    case None => Some(h.EmptyRoot(depth))
    case Some(e) => Climb(h, depth, e.leaf, 0, e.position, e.ommers)
  }

  function FrontierAnchor(h: Hasher, enc: Encoding, depth: nat, read: seq<bv8> -> Option<CommitmentTree>,
                          bytes: seq<bv8>): Result<Bytes, FrontierError>
  {
    match DecodeFrontier(read, bytes)
    case Failure(e) => Failure(e)
    case Success(f) =>
      match FrontierRoot(h, depth, f)
      case None => Failure(FrontierDecode)  // never taken: DecodedFrontierHasRoot
      case Some(root) => Success(enc.toBytes(root))
  }

  /** The parent slots with the left leaf in front when it is an ommer, that is, when there is a right one. */
  function EdgeSlots(t: CommitmentTree): (slots: seq<Option<Hash>>)
    ensures slots != [] && slots[1..] == t.parents
  {
    [if t.right.Some? then t.left else None] + t.parents
  }

  /** Position and ommers of a converted tree are the number in its slots and what the slots hold. */
  lemma {:induction false} SlotsGiveFrontier(t: CommitmentTree)
    requires t.left.Some?
    ensures ToFrontier(t) == Success(Some(NonEmptyFrontier(SubtreeCount(EdgeSlots(t)),
                                                           if t.right.Some? then t.right.value else t.left.value,
                                                           Present(EdgeSlots(t)))))
  {
    assert EdgeSlots(t)[0] == if t.right.Some? then t.left else None;
  }

  /** The ommers of a converted tree are exactly the ones its position calls for, so climbing never runs out. */
  lemma {:induction false} OmmersSuffice(h: Hasher, depth: nat, digest: Hash, slots: seq<Option<Hash>>, level: nat)
    ensures Climb(h, depth, digest, level, SubtreeCount(slots), Present(slots)).Some?
    decreases depth - level
  {
    if level < depth {
      var rest := if slots == [] then [] else slots[1..];
      assert SubtreeCount(slots) / 2 == SubtreeCount(rest);
      if slots != [] && slots[0].Some? {
        assert SubtreeCount(slots) % 2 == 1 && Present(slots) == [slots[0].value] + Present(rest);
        OmmersSuffice(h, depth, h.combine(level, slots[0].value, digest), rest, level + 1);
      } else {
        assert SubtreeCount(slots) % 2 == 0 && Present(slots) == Present(rest);
        OmmersSuffice(h, depth, h.combine(level, digest, h.EmptyRoot(level)), rest, level + 1);
      }
    }
  }

  /** Every decoded frontier has a root: decoding is the only way the two readers fail. */
  lemma DecodedFrontierHasRoot(h: Hasher, depth: nat, read: seq<bv8> -> Option<CommitmentTree>, bytes: seq<bv8>)
    requires DecodeFrontier(read, bytes).Success?
    ensures FrontierRoot(h, depth, DecodeFrontier(read, bytes).value).Some?
  {
    var f := DecodeFrontier(read, bytes).value;
    if f.Some? {
      var t := read(bytes).value;
      SlotsGiveFrontier(t);
      OmmersSuffice(h, depth, f.value.leaf, EdgeSlots(t), 0);
    }
  }

  /** Both readers fail exactly when decoding does, with its error; unreadable bytes are an error, empty ones are not. */
  lemma ReadersFailIff(h: Hasher, enc: Encoding, depth: nat, read: seq<bv8> -> Option<CommitmentTree>, bytes: seq<bv8>,
                       e: FrontierError)
    ensures FrontierLeafCount(read, bytes) == Failure(e) <==> DecodeFrontier(read, bytes) == Failure(e)
    ensures FrontierAnchor(h, enc, depth, read, bytes) == Failure(e) <==> DecodeFrontier(read, bytes) == Failure(e)
    ensures DecodeFrontier(read, bytes) == Failure(FrontierDecode) <==> bytes != [] && read(bytes) == None
  {
    if DecodeFrontier(read, bytes).Success? {
      DecodedFrontierHasRoot(h, depth, read, bytes);
    }
  }

  // ----- the edge of a leaf sequence -----

  /** `slots` are the odd digits of `count` full level-`level` nodes of the tree over `all`. */
  ghost predicate HoldsEdge(h: Hasher, all: seq<Hash>, slots: seq<Option<Hash>>, level: nat, count: nat)
    decreases |slots|
  {
    if slots == [] then count == 0
    else
      && slots[0] == (if count % 2 == 1 then Some(h.Node(all, level, count - 1)) else None)
      && HoldsEdge(h, all, slots[1..], level + 1, count / 2)
  }

  /** `t` is the tree after the first `n` leaves of `all`. */
  ghost predicate Represents(h: Hasher, all: seq<Hash>, n: nat, t: CommitmentTree)
    requires n <= |all|
  {
    if n == 0 then t == EMPTY_TREE
    else
      && t.left == Some(all[if n % 2 == 0 then n - 2 else n - 1])
      && t.right == (if n % 2 == 0 then Some(all[n - 1]) else None)
      && HoldsEdge(h, all, t.parents, 1, (n - 1) / 2)
  }

  lemma {:induction false} CarryIncrements(h: Hasher, all: seq<Hash>, slots: seq<Option<Hash>>, level: nat, count: nat)
    requires HoldsEdge(h, all, slots, level, count)
    ensures HoldsEdge(h, all, Carry(h, slots, level, h.Node(all, level, count)), level, count + 1)
    decreases |slots|
  {
    var node := h.Node(all, level, count);
    if slots == [] {
      assert HoldsEdge(h, all, [Some(node)][1..], level + 1, 0);
    } else if count % 2 == 0 {
      assert ([Some(node)] + slots[1..])[1..] == slots[1..];
    } else {
      CarryIncrements(h, all, slots[1..], level + 1, count / 2);
      var rest := Carry(h, slots[1..], level + 1, h.Node(all, level + 1, count / 2));
      assert ([None] + rest)[1..] == rest;
    }
  }

  lemma {:induction false} AllSlotsSetMeansFull(h: Hasher, all: seq<Hash>, slots: seq<Option<Hash>>, level: nat, count: nat)
    requires HoldsEdge(h, all, slots, level, count)
    requires forall i :: 0 <= i < |slots| ==> slots[i].Some?
    ensures count + 1 == Pow2(|slots|)
    decreases |slots|
  {
    if slots != [] {
      assert slots[0].Some?;
      AllSlotsSetMeansFull(h, all, slots[1..], level + 1, count / 2);
    }
  }

  lemma {:induction false} AppendRepresents(h: Hasher, depth: nat, all: seq<Hash>, n: nat, t: CommitmentTree)
    requires n < |all| <= Pow2(depth) && depth > 0
    requires Represents(h, all, n, t)
    ensures Append(h, depth, t, all[n]).Some?
    ensures Represents(h, all, n + 1, Append(h, depth, t, all[n]).value)
  {
    if IsComplete(t, depth) {
      AllSlotsSetMeansFull(h, all, t.parents, 1, (n - 1) / 2);
      assert false;
    }
    if n > 0 && n % 2 == 0 {
      CarryIncrements(h, all, t.parents, 1, (n - 1) / 2);
      assert h.combine(0, all[n - 2], all[n - 1]) == h.Node(all, 1, (n - 1) / 2);
    }
  }

  lemma {:induction false} AppendAllRepresents(h: Hasher, depth: nat, all: seq<Hash>, n: nat)
    requires n <= |all| <= Pow2(depth) && depth > 0
    ensures AppendAll(h, depth, all[..n]).Some?
    ensures Represents(h, all, n, AppendAll(h, depth, all[..n]).value)
  {
    if n > 0 {
      AppendAllRepresents(h, depth, all, n - 1);
      assert all[..n][..n - 1] == all[..n - 1];
      AppendRepresents(h, depth, all, n - 1, AppendAll(h, depth, all[..n - 1]).value);
    }
  }

  lemma {:induction false} EdgeCounts(h: Hasher, all: seq<Hash>, slots: seq<Option<Hash>>, level: nat, count: nat)
    requires HoldsEdge(h, all, slots, level, count)
    ensures SubtreeCount(slots) == count
    decreases |slots|
  {
    if slots != [] {
      EdgeCounts(h, all, slots[1..], level + 1, count / 2);
    }
  }

  lemma {:induction false} EdgeGrows(h: Hasher, all: seq<Hash>, first: Option<Hash>, rest: seq<Option<Hash>>,
                                     level: nat, count: nat)
    requires first == if count % 2 == 1 then Some(h.Node(all, level, count - 1)) else None
    requires HoldsEdge(h, all, rest, level + 1, count / 2)
    ensures HoldsEdge(h, all, [first] + rest, level, count)
  {
    assert ([first] + rest)[1..] == rest;
  }

  /** The slots of a grown tree are the edge of its leaves, and its frontier is read off them. */
  lemma {:induction false} GrownFrontier(h: Hasher, all: seq<Hash>, t: CommitmentTree)
    requires all != [] && Represents(h, all, |all|, t)
    ensures HoldsEdge(h, all, EdgeSlots(t), 0, |all| - 1)
    ensures ToFrontier(t) == Success(Some(NonEmptyFrontier(|all| - 1, all[|all| - 1], Present(EdgeSlots(t)))))
  {
    EdgeGrows(h, all, if t.right.Some? then t.left else None, t.parents, 0, |all| - 1);
    EdgeCounts(h, all, EdgeSlots(t), 0, |all| - 1);
    SlotsGiveFrontier(t);
  }

  lemma {:induction false} ParentOf(h: Hasher, all: seq<Hash>, level: nat, index: nat)
    ensures h.Node(all, level + 1, index / 2)
         == if index % 2 == 0 then h.combine(level, h.Node(all, level, index), h.Node(all, level, index + 1))
            else h.combine(level, h.Node(all, level, index - 1), h.Node(all, level, index))
  {
  }

  lemma {:induction false} ClimbReachesRoot(h: Hasher, depth: nat, all: seq<Hash>, slots: seq<Option<Hash>>,
                                            level: nat, index: nat)
    requires level <= depth && index < Pow2(depth - level)
    requires First(level, index) < |all| <= First(level, index + 1)
    requires HoldsEdge(h, all, slots, level, index)
    ensures Climb(h, depth, h.Node(all, level, index), level, index, Present(slots)) == Some(h.Node(all, depth, 0))
    decreases depth - level
  {
    if level < depth {
      ChildRanges(level + 1, index / 2);
      ParentOf(h, all, level, index);
      assert Pow2(depth - level) == 2 * Pow2(depth - level - 1);
      var rest := if slots == [] then [] else slots[1..];
      if index % 2 == 0 {
        h.NodeBeyondIsEmpty(all, level, index + 1);
      } else {
        assert Present(slots)[1..] == Present(rest);
      }
      ClimbReachesRoot(h, depth, all, rest, level + 1, index / 2);
    }
  }

  /** The frontier of a leaf sequence: position, leaf and ommers all come from the true tree. */
  lemma {:induction false} FrontierOfLeaves(h: Hasher, depth: nat, leaves: seq<Hash>)
    requires |leaves| <= Pow2(depth) && depth > 0
    ensures AppendAll(h, depth, leaves).Some?
    ensures var f := ToFrontier(AppendAll(h, depth, leaves).value);
            && f.Success?
            && (leaves == [] <==> f.value == None)
            && (leaves != [] ==> f.value.value.position == |leaves| - 1)
            && FrontierRoot(h, depth, f.value) == Some(h.Node(leaves, depth, 0))
  {
    var n := |leaves|;
    assert leaves[..n] == leaves;
    AppendAllRepresents(h, depth, leaves, n);
    var t := AppendAll(h, depth, leaves).value;
    if n == 0 {
      h.NodeBeyondIsEmpty(leaves, depth, 0);
    } else {
      GrownFrontier(h, leaves, t);
      ClimbReachesRoot(h, depth, leaves, EdgeSlots(t), 0, n - 1);
    }
  }

  /**
   * What both readers promise, for every number of leaves up to capacity: from the bytes of the tree a node
   * grew leaf by leaf, the count read is the number appended and the anchor is the root of the dense tree.
   * The genesis state may also arrive as an empty byte string.
   */
  lemma FrontierReadersAgreeWithDenseTree(h: Hasher, enc: Encoding, depth: nat,
                                          read: seq<bv8> -> Option<CommitmentTree>, bytes: seq<bv8>, leaves: seq<Hash>)
    requires |leaves| <= Pow2(depth) && depth > 0
    requires if bytes == [] then leaves == [] else read(bytes) == AppendAll(h, depth, leaves)
    ensures FrontierLeafCount(read, bytes) == Success(|leaves|)
    ensures FrontierAnchor(h, enc, depth, read, bytes) == Success(enc.toBytes(h.Node(leaves, depth, 0)))
  {
    FrontierOfLeaves(h, depth, leaves);
    if bytes == [] {
      h.NodeBeyondIsEmpty(leaves, depth, 0);
    }
  }
}
