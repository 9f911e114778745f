/**
 * A tree of which only parts are known. It stands for the in-memory ShardTree that `build_witnesses`
 * fills: hashes may summarise whole subtrees, richer data may replace a summary, and leaves nobody asked
 * for are merged into their parent.
 */
module SparseTree {
  import opened Wrappers
  import opened MerkleTree

  datatype Sparse =
    | Nil                                                           // nothing known here
    | Leaf(hash: Hash, marked: bool)                                // a leaf, or the summary of a whole subtree
    | Parent(summary: Option<Hash>, left: Sparse, right: Sparse)
  {
    function Summary(): Option<Hash> {
      match this
      case Nil => None
      case Leaf(hash, _) => Some(hash)
      case Parent(summary, _, _) => summary
    }

    function Left(): Sparse {
      if Parent? then left else Nil
    }

    function Right(): Sparse {
      if Parent? then right else Nil
    }
  }

  /** Start of the right half of a node's range. */
  function Middle(level: nat, index: nat): nat
    requires level > 0
  {
    First(level - 1, 2 * index + 1)
  }

  predicate InRange(level: nat, index: nat, p: nat) {
    First(level, index) <= p < First(level, index + 1)
  }

  function Combined(h: Hasher, level: nat, left: Option<Hash>, right: Option<Hash>): Option<Hash> {
    if left.Some? && right.Some? then Some(h.combine(level, left.value, right.value)) else None
  }

  /** Root of the subtree at a node when the tree holds its first `n` leaves only; None when data is missing. */
  function RootHash(h: Hasher, t: Sparse, level: nat, index: nat, n: nat): Option<Hash> {
    if n <= First(level, index) then Some(h.EmptyRoot(level))
    else if First(level, index + 1) <= n && t.Summary().Some? then t.Summary()
    else if t.Parent? && level > 0 then
      Combined(h, level - 1, RootHash(h, t.left, level - 1, 2 * index, n),
               RootHash(h, t.right, level - 1, 2 * index + 1, n))
    else None
  }

  /** Siblings of leaf `p` inside the subtree at a node, lowest first; None when one of them cannot be computed. */
  function WitnessIn(h: Hasher, t: Sparse, level: nat, index: nat, p: nat, n: nat): (path: Option<seq<Hash>>)
    ensures path.Some? ==> |path.value| == level
  {
    if level == 0 then (if t.Leaf? then Some([]) else None)
    else if !t.Parent? then None
    else
      var (path, sibling) :=
        if p < Middle(level, index) then
          (WitnessIn(h, t.left, level - 1, 2 * index, p, n), RootHash(h, t.right, level - 1, 2 * index + 1, n))
        else
          (WitnessIn(h, t.right, level - 1, 2 * index + 1, p, n), RootHash(h, t.left, level - 1, 2 * index, n));
      if path.Some? && sibling.Some? then Some(path.value + [sibling.value]) else None
  }

  /** Joins two views of one subtree. Only two different hashes for the same leafless node conflict. */
  function Merge(t: Sparse, sub: Sparse): Option<Sparse> {
    match (t, sub)
    case (Nil, _) => Some(sub)
    case (_, Nil) => Some(t)
    case (Leaf(a, x), Leaf(b, y)) => if a == b then Some(Leaf(a, x || y)) else None
    case (Leaf(a, _), Parent(_, l, r)) => Some(Parent(Some(a), l, r))
    case (Parent(s, l, r), Leaf(b, _)) => Some(Parent(if s.Some? then s else Some(b), l, r))
    case (Parent(s, l, r), Parent(s', l', r')) =>
      var left, right := Merge(l, l'), Merge(r, r');
      if left.Some? && right.Some? then Some(Parent(if s.Some? then s else s', left.value, right.value)) else None
  }

  /** Places `sub` at node `atIndex` of `atLevel` inside the subtree at a node. A summary on the way stays. */
  function Insert(t: Sparse, level: nat, index: nat, atLevel: nat, atIndex: nat, sub: Sparse): Option<Sparse>
    decreases level
  {
    if level <= atLevel then Merge(t, sub)
    else if First(atLevel, atIndex) < Middle(level, index) then
      var l := Insert(t.Left(), level - 1, 2 * index, atLevel, atIndex, sub);
      if l.Some? then Some(Parent(t.Summary(), l.value, t.Right())) else None
    else
      var r := Insert(t.Right(), level - 1, 2 * index + 1, atLevel, atIndex, sub);
      if r.Some? then Some(Parent(t.Summary(), t.Left(), r.value)) else None
  }

  /** Joins two children; two leaves nobody marked are replaced by their parent's hash. */
  function Unite(h: Hasher, level: nat, l: Sparse, r: Sparse): Sparse {
    if l == Nil && r == Nil then Nil
    else if l.Leaf? && r.Leaf? && !l.marked && !r.marked then Leaf(h.combine(level, l.hash, r.hash), false)
    else Parent(None, l, r)
  }

  /** The pruned subtree over consecutive leaves starting at position `base`. */
  function Build(h: Hasher, level: nat, index: nat, leaves: seq<Hash>, base: nat, marked: set<nat>): Sparse {
    if level == 0 then
      if base <= index < base + |leaves| then Leaf(leaves[index - base], index in marked) else Nil
    else
      Unite(h, level - 1, Build(h, level - 1, 2 * index, leaves, base, marked),
            Build(h, level - 1, 2 * index + 1, leaves, base, marked))
  }

  // ----- true data stays true -----

  /** Every stored hash is the true one, and summarises only leaves that exist. */
  ghost predicate Consistent(h: Hasher, leaves: seq<Hash>, t: Sparse, level: nat, index: nat)
    decreases level
  {
    && (t.Summary().Some? ==>
          First(level, index + 1) <= |leaves| && t.Summary().value == h.Node(leaves, level, index))
    && (t.Parent? ==>
          && level > 0
          && Consistent(h, leaves, t.left, level - 1, 2 * index)
          && Consistent(h, leaves, t.right, level - 1, 2 * index + 1))
  }

  lemma {:induction false} RootHashIsTrue(h: Hasher, leaves: seq<Hash>, t: Sparse, level: nat, index: nat)
    requires Consistent(h, leaves, t, level, index)
    requires RootHash(h, t, level, index, |leaves|).Some?
    ensures RootHash(h, t, level, index, |leaves|).value == h.Node(leaves, level, index)
    decreases level
  {
    if |leaves| <= First(level, index) {
      h.NodeBeyondIsEmpty(leaves, level, index);
    } else if !(First(level, index + 1) <= |leaves| && t.Summary().Some?) {
      RootHashIsTrue(h, leaves, t.left, level - 1, 2 * index);
      RootHashIsTrue(h, leaves, t.right, level - 1, 2 * index + 1);
    }
  }

  /** The path of a leaf up to the parent of the node that contains it ends in that node's sibling. */
  lemma PathGoesThrough(h: Hasher, leaves: seq<Hash>, level: nat, node: nat, p: nat)
    requires InRange(level, node, p)
    ensures h.PathOf(leaves, 0, p, level + 1) == h.PathOf(leaves, 0, p, level) + [h.Node(leaves, level, Sibling(node))]
  {
    ShrIsContainingNode(0, p, level);
    ContainingNodeIsUnique(level, node, Shr(p, level), p);
    h.PathSplits(leaves, 0, p, level, level + 1);
    assert h.PathOf(leaves, level, node, level + 1) == [h.Node(leaves, level, Sibling(node))];
  }

  lemma {:induction false} WitnessInIsTrue(h: Hasher, leaves: seq<Hash>, t: Sparse, level: nat, index: nat, p: nat)
    requires Consistent(h, leaves, t, level, index) && InRange(level, index, p)
    requires WitnessIn(h, t, level, index, p, |leaves|).Some?
    ensures WitnessIn(h, t, level, index, p, |leaves|).value == h.PathOf(leaves, 0, p, level)
    decreases level
  {
    if level > 0 {
      ChildRanges(level, index);
      var child := if p < Middle(level, index) then 2 * index else 2 * index + 1;
      var (near, far) := if child == 2 * index then (t.left, t.right) else (t.right, t.left);
      WitnessInIsTrue(h, leaves, near, level - 1, child, p);
      RootHashIsTrue(h, leaves, far, level - 1, Sibling(child));
      PathGoesThrough(h, leaves, level - 1, child, p);
    }
  }

  lemma {:induction false} MergeKeepsTruth(h: Hasher, leaves: seq<Hash>, t: Sparse, sub: Sparse, level: nat, index: nat)
    requires Consistent(h, leaves, t, level, index) && Consistent(h, leaves, sub, level, index)
    ensures Merge(t, sub).Some? && Consistent(h, leaves, Merge(t, sub).value, level, index)
    decreases level
  {
    if t.Parent? && sub.Parent? {
      MergeKeepsTruth(h, leaves, t.left, sub.left, level - 1, 2 * index);
      MergeKeepsTruth(h, leaves, t.right, sub.right, level - 1, 2 * index + 1);
    }
  }

  lemma {:induction false} InsertKeepsTruth(h: Hasher, leaves: seq<Hash>, t: Sparse, level: nat, index: nat,
                                            atLevel: nat, atIndex: nat, sub: Sparse)
    requires Consistent(h, leaves, t, level, index) && Consistent(h, leaves, sub, atLevel, atIndex)
    requires atLevel <= level && InRange(level, index, First(atLevel, atIndex))
    ensures Insert(t, level, index, atLevel, atIndex, sub).Some?
    ensures Consistent(h, leaves, Insert(t, level, index, atLevel, atIndex, sub).value, level, index)
    decreases level
  {
    if level == atLevel {
      FirstMonotone(level, atIndex, atIndex + 1);
      ContainingNodeIsUnique(level, index, atIndex, First(level, atIndex));
      MergeKeepsTruth(h, leaves, t, sub, level, index);
    } else {
      ChildRanges(level, index);
      if First(atLevel, atIndex) < Middle(level, index) {
        InsertKeepsTruth(h, leaves, t.Left(), level - 1, 2 * index, atLevel, atIndex, sub);
      } else {
        InsertKeepsTruth(h, leaves, t.Right(), level - 1, 2 * index + 1, atLevel, atIndex, sub);
      }
    }
  }

  /** The leaves from `base` on are the true ones. */
  ghost predicate TrueRun(all: seq<Hash>, run: seq<Hash>, base: nat) {
    base + |run| <= |all| && run == all[base..base + |run|]
  }

  lemma {:induction false} BuildIsTrue(h: Hasher, all: seq<Hash>, level: nat, index: nat, run: seq<Hash>, base: nat,
                                       marked: set<nat>)
    requires TrueRun(all, run, base)
    ensures Consistent(h, all, Build(h, level, index, run, base, marked), level, index)
    decreases level
  {
    if level > 0 {
      ChildRanges(level, index);
      BuildIsTrue(h, all, level - 1, 2 * index, run, base, marked);
      BuildIsTrue(h, all, level - 1, 2 * index + 1, run, base, marked);
    }
  }

  // ----- known data stays known -----

  lemma {:induction false} MergeKeepsRoots(h: Hasher, t: Sparse, sub: Sparse, level: nat, index: nat, n: nat)
    requires Merge(t, sub).Some?
    requires RootHash(h, t, level, index, n).Some? || RootHash(h, sub, level, index, n).Some?
    ensures RootHash(h, Merge(t, sub).value, level, index, n).Some?
    decreases level
  {
    var summarised := First(level, index + 1) <= n && (t.Summary().Some? || sub.Summary().Some?);
    if t.Parent? && sub.Parent? && level > 0 && First(level, index) < n && !summarised {
      MergeKeepsRoots(h, t.left, sub.left, level - 1, 2 * index, n);
      MergeKeepsRoots(h, t.right, sub.right, level - 1, 2 * index + 1, n);
    }
  }

  lemma {:induction false} MergeKeepsWitness(h: Hasher, all: seq<Hash>, t: Sparse, sub: Sparse, level: nat, index: nat,
                                             p: nat)
    requires Consistent(h, all, t, level, index) && Consistent(h, all, sub, level, index)
    requires Merge(t, sub).Some?
    requires WitnessIn(h, t, level, index, p, |all|).Some? || WitnessIn(h, sub, level, index, p, |all|).Some?
    ensures WitnessIn(h, Merge(t, sub).value, level, index, p, |all|).Some?
    decreases level
  {
    if t.Parent? && sub.Parent? {
      if p < Middle(level, index) {
        MergeKeepsWitness(h, all, t.left, sub.left, level - 1, 2 * index, p);
        MergeKeepsRoots(h, t.right, sub.right, level - 1, 2 * index + 1, |all|);
      } else {
        MergeKeepsWitness(h, all, t.right, sub.right, level - 1, 2 * index + 1, p);
        MergeKeepsRoots(h, t.left, sub.left, level - 1, 2 * index, |all|);
      }
    }
  }

  // ----- which leaves a partial tree accounts for -----

  /** On the way to leaf `p` there is a hash that summarises existing leaves only. */
  predicate Covered(t: Sparse, level: nat, index: nat, p: nat, n: nat) {
    if First(level, index + 1) <= n && t.Summary().Some? then true
    else
      && t.Parent? && level > 0
      && if p < Middle(level, index) then Covered(t.left, level - 1, 2 * index, p, n)
         else Covered(t.right, level - 1, 2 * index + 1, p, n)
  }

  lemma {:induction false} CoveredLeavesGiveRoot(h: Hasher, t: Sparse, level: nat, index: nat, n: nat)
    requires forall p: nat :: InRange(level, index, p) && p < n ==> Covered(t, level, index, p, n)
    ensures RootHash(h, t, level, index, n).Some?
    decreases level
  {
    if First(level, index) < n && !(First(level, index + 1) <= n && t.Summary().Some?) {
      FirstMonotone(level, index, index + 1);
      assert Covered(t, level, index, First(level, index), n);
      ChildRanges(level, index);
      var l, left, right := level - 1, 2 * index, 2 * index + 1;
      forall p: nat | InRange(l, left, p) && p < n
        ensures Covered(t.left, l, left, p, n)
      {
        assert Covered(t, level, index, p, n);
      }
      CoveredLeavesGiveRoot(h, t.left, l, left, n);
      forall p: nat | InRange(l, right, p) && p < n
        ensures Covered(t.right, l, right, p, n)
      {
        assert Covered(t, level, index, p, n);
      }
      CoveredLeavesGiveRoot(h, t.right, l, right, n);
    }
  }

  lemma {:induction false} MergeKeepsCover(t: Sparse, sub: Sparse, level: nat, index: nat, p: nat, n: nat)
    requires Merge(t, sub).Some?
    requires Covered(t, level, index, p, n) || Covered(sub, level, index, p, n)
    ensures Covered(Merge(t, sub).value, level, index, p, n)
    decreases level
  {
    if t.Parent? && sub.Parent? && level > 0 && !(First(level, index + 1) <= n && (t.Summary().Some? || sub.Summary().Some?)) {
      if p < Middle(level, index) {
        MergeKeepsCover(t.left, sub.left, level - 1, 2 * index, p, n);
      } else {
        MergeKeepsCover(t.right, sub.right, level - 1, 2 * index + 1, p, n);
      }
    }
  }

  /** Inserting keeps every covered leaf covered and adds those the inserted subtree covers. */
  lemma {:induction false} InsertCovers(t: Sparse, level: nat, index: nat, atLevel: nat, atIndex: nat, sub: Sparse,
                                        p: nat, n: nat)
    requires atLevel <= level && InRange(level, index, First(atLevel, atIndex))
    requires Insert(t, level, index, atLevel, atIndex, sub).Some?
    requires Covered(t, level, index, p, n) || (InRange(atLevel, atIndex, p) && Covered(sub, atLevel, atIndex, p, n))
    ensures Covered(Insert(t, level, index, atLevel, atIndex, sub).value, level, index, p, n)
    decreases level
  {
    if level == atLevel {
      FirstMonotone(level, atIndex, atIndex + 1);
      ContainingNodeIsUnique(level, index, atIndex, First(level, atIndex));
      MergeKeepsCover(t, sub, level, index, p, n);
    } else if !(First(level, index + 1) <= n && t.Summary().Some?) {
      ChildRanges(level, index);
      RangeStaysOnOneSide(level, index, atLevel, atIndex);
      if First(atLevel, atIndex) < Middle(level, index) {
        if p < Middle(level, index) {
          InsertCovers(t.Left(), level - 1, 2 * index, atLevel, atIndex, sub, p, n);
        }
      } else if p >= Middle(level, index) {
        InsertCovers(t.Right(), level - 1, 2 * index + 1, atLevel, atIndex, sub, p, n);
      }
    }
  }

  /** A lower node lies wholly in one half of a node that contains its first leaf. */
  lemma RangeStaysOnOneSide(level: nat, index: nat, atLevel: nat, atIndex: nat)
    requires atLevel < level && InRange(level, index, First(atLevel, atIndex))
    ensures First(atLevel, atIndex) < Middle(level, index) ==> First(atLevel, atIndex + 1) <= Middle(level, index)
    ensures First(atLevel, atIndex + 1) <= First(level, index + 1)
  {
    var k := level - 1 - atLevel;
    var x := First(atLevel, atIndex);
    ShrIsContainingNode(atLevel, atIndex, k);
    FirstMonotone(atLevel, atIndex, atIndex + 1);
    ChildRanges(level, index);
    var child := if x < Middle(level, index) then 2 * index else 2 * index + 1;
    ContainingNodeIsUnique(level - 1, child, Shr(atIndex, k), x);
  }

  /** A complete run of leaves gives the root of every node it fills up to the end of the tree. */
  lemma {:induction false} BuildGivesRoot(h: Hasher, all: seq<Hash>, level: nat, index: nat, run: seq<Hash>, base: nat,
                                          marked: set<nat>)
    requires TrueRun(all, run, base)
    requires base <= First(level, index)
    requires First(level, index + 1) <= base + |run| || base + |run| == |all|
    ensures RootHash(h, Build(h, level, index, run, base, marked), level, index, |all|).Some?
    decreases level
  {
    BuildIsTrue(h, all, level, index, run, base, marked);
    if level > 0 {
      ChildRanges(level, index);
      BuildGivesRoot(h, all, level - 1, 2 * index, run, base, marked);
      BuildGivesRoot(h, all, level - 1, 2 * index + 1, run, base, marked);
    }
  }

  /** Pruning spares what a marked leaf needs: its witness inside the run can be computed. */
  lemma {:induction false} BuildGivesWitness(h: Hasher, all: seq<Hash>, level: nat, index: nat, run: seq<Hash>, base: nat,
                                             marked: set<nat>, p: nat)
    requires TrueRun(all, run, base)
    requires base <= First(level, index)
    requires First(level, index + 1) <= base + |run| || base + |run| == |all|
    requires InRange(level, index, p) && p < base + |run| && p in marked
    ensures WitnessIn(h, Build(h, level, index, run, base, marked), level, index, p, |all|).Some?
    ensures var t := Build(h, level, index, run, base, marked); t.Leaf? ==> t.marked
    decreases level
  {
    if level == 0 {
      assert p == index;
    } else {
      ChildRanges(level, index);
      if p < Middle(level, index) {
        BuildGivesWitness(h, all, level - 1, 2 * index, run, base, marked, p);
        BuildGivesRoot(h, all, level - 1, 2 * index + 1, run, base, marked);
      } else {
        BuildGivesWitness(h, all, level - 1, 2 * index + 1, run, base, marked, p);
        BuildGivesRoot(h, all, level - 1, 2 * index, run, base, marked);
      }
    }
  }
}
