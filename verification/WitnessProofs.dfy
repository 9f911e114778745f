/**
 * What `build_witnesses` promises. On true inputs the sparse assembly yields the root and the authentication
 * paths of the dense tree; on any inputs, whatever it returns has been checked against the anchor, and under
 * collision-free hashing that check cannot be met by a commitment that is not in the tree.
 */
module WitnessProofs {
  import opened Wrappers
  import opened MerkleTree
  import opened SparseTree
  import opened Frontier
  import opened Witness

  // ----- the store holds true data -----

  ghost predicate StoreTrue(a: Assembly, all: seq<Hash>, store: Store) {
    && Consistent(a.h, all, store.cap, a.depth, 0)
    && forall s :: s in store.shards ==> Consistent(a.h, all, store.shards[s], a.shardHeight, s)
  }

  lemma {:induction false} RootFromIsTrue(a: Assembly, all: seq<Hash>, store: Store, t: Sparse, level: nat, index: nat)
    requires a.shardHeight <= level
    requires StoreTrue(a, all, store) && Consistent(a.h, all, t, level, index)
    requires a.RootFrom(store.shards, t, level, index, |all|).Some?
    ensures a.RootFrom(store.shards, t, level, index, |all|).value == a.h.Node(all, level, index)
    decreases level
  {
    if |all| <= First(level, index) {
      a.h.NodeBeyondIsEmpty(all, level, index);
    } else if !(First(level, index + 1) <= |all| && t.Summary().Some?) {
      if level <= a.shardHeight {
        RootHashIsTrue(a.h, all, store.shards[index], level, index);
      } else {
        RootFromIsTrue(a, all, store, t.Left(), level - 1, 2 * index);
        RootFromIsTrue(a, all, store, t.Right(), level - 1, 2 * index + 1);
      }
    }
  }

  lemma {:induction false} RootAtIsTrue(a: Assembly, all: seq<Hash>, store: Store, t: Sparse, level: nat, index: nat,
                                        atLevel: nat, atIndex: nat)
    requires a.shardHeight <= atLevel <= level && InRange(level, index, First(atLevel, atIndex))
    requires StoreTrue(a, all, store) && Consistent(a.h, all, t, level, index)
    requires a.RootAt(store.shards, t, level, index, atLevel, atIndex, |all|).Some?
    ensures a.RootAt(store.shards, t, level, index, atLevel, atIndex, |all|).value == a.h.Node(all, atLevel, atIndex)
    decreases level
  {
    if level == atLevel {
      FirstMonotone(level, atIndex, atIndex + 1);
      ContainingNodeIsUnique(level, index, atIndex, First(level, atIndex));
      RootFromIsTrue(a, all, store, t, level, index);
    } else {
      ChildRanges(level, index);
      if First(atLevel, atIndex) < Middle(level, index) {
        RootAtIsTrue(a, all, store, t.Left(), level - 1, 2 * index, atLevel, atIndex);
      } else {
        RootAtIsTrue(a, all, store, t.Right(), level - 1, 2 * index + 1, atLevel, atIndex);
      }
    }
  }

  // ----- the store knows enough -----

  /** The cap holds a hash for shard `i` itself. */
  predicate KnowsShard(t: Sparse, level: nat, index: nat, height: nat, i: nat) {
    if level <= height then t.Summary().Some?
    else
      && t.Parent?
      && if First(height, i) < Middle(level, index) then KnowsShard(t.left, level - 1, 2 * index, height, i)
         else KnowsShard(t.right, level - 1, 2 * index + 1, height, i)
  }

  lemma {:induction false} InsertKnows(t: Sparse, level: nat, index: nat, atLevel: nat, atIndex: nat, hash: Hash,
                                       height: nat, i: nat)
    requires height <= atLevel <= level
    requires InRange(level, index, First(atLevel, atIndex)) && InRange(level, index, First(height, i))
    requires Insert(t, level, index, atLevel, atIndex, Leaf(hash, false)).Some?
    requires KnowsShard(t, level, index, height, i) || (atLevel == height && atIndex == i)
    ensures KnowsShard(Insert(t, level, index, atLevel, atIndex, Leaf(hash, false)).value, level, index, height, i)
    decreases level
  {
    if atLevel < level {
      ChildRanges(level, index);
      if First(atLevel, atIndex) < Middle(level, index) {
        if First(height, i) < Middle(level, index) {
          InsertKnows(t.Left(), level - 1, 2 * index, atLevel, atIndex, hash, height, i);
        }
      } else if First(height, i) >= Middle(level, index) {
        InsertKnows(t.Right(), level - 1, 2 * index + 1, atLevel, atIndex, hash, height, i);
      }
    }
  }

  /** Every completed shard below a cap node is known. */
  ghost predicate KnowsComplete(t: Sparse, level: nat, index: nat, height: nat, n: nat) {
    forall i: nat :: InRange(level, index, First(height, i)) && First(height, i + 1) <= n ==>
      KnowsShard(t, level, index, height, i)
  }

  lemma KnowsCompleteChildren(t: Sparse, level: nat, index: nat, height: nat, n: nat)
    requires height < level && KnowsComplete(t, level, index, height, n)
    ensures KnowsComplete(t.Left(), level - 1, 2 * index, height, n)
    ensures KnowsComplete(t.Right(), level - 1, 2 * index + 1, height, n)
  {
    ChildRanges(level, index);
    var l, left, right := level - 1, 2 * index, 2 * index + 1;
    forall i: nat | InRange(l, left, First(height, i)) && First(height, i + 1) <= n
      ensures KnowsShard(t.Left(), l, left, height, i)
    {
      assert KnowsShard(t, level, index, height, i);
    }
    forall i: nat | InRange(l, right, First(height, i)) && First(height, i + 1) <= n
      ensures KnowsShard(t.Right(), l, right, height, i)
    {
      assert KnowsShard(t, level, index, height, i);
    }
  }

  /** The shard the tree ends in, if it ends inside one, has a root. */
  ghost predicate KnowsEdge(a: Assembly, shards: map<nat, Sparse>, n: nat) {
    forall f: nat :: First(a.shardHeight, f) < n < First(a.shardHeight, f + 1) ==>
      f in shards && RootHash(a.h, shards[f], a.shardHeight, f, n).Some?
  }

  lemma {:induction false} KnownCapGivesRoot(a: Assembly, shards: map<nat, Sparse>, t: Sparse, level: nat, index: nat,
                                             n: nat)
    requires a.shardHeight <= level
    requires KnowsComplete(t, level, index, a.shardHeight, n) && KnowsEdge(a, shards, n)
    ensures a.RootFrom(shards, t, level, index, n).Some?
    decreases level
  {
    FirstMonotone(level, index, index + 1);
    if level == a.shardHeight {
      assert InRange(level, index, First(level, index));
    } else if First(level, index) < n && !(First(level, index + 1) <= n && t.Summary().Some?) {
      KnowsCompleteChildren(t, level, index, a.shardHeight, n);
      KnownCapGivesRoot(a, shards, t.Left(), level - 1, 2 * index, n);
      KnownCapGivesRoot(a, shards, t.Right(), level - 1, 2 * index + 1, n);
    }
  }

  lemma {:induction false} KnownCapGivesRootAt(a: Assembly, shards: map<nat, Sparse>, t: Sparse, level: nat, index: nat,
                                               atLevel: nat, atIndex: nat, n: nat)
    requires a.shardHeight <= atLevel <= level && InRange(level, index, First(atLevel, atIndex))
    requires KnowsComplete(t, level, index, a.shardHeight, n) && KnowsEdge(a, shards, n)
    ensures a.RootAt(shards, t, level, index, atLevel, atIndex, n).Some?
    decreases level
  {
    if level == atLevel {
      KnownCapGivesRoot(a, shards, t, level, index, n);
    } else {
      ChildRanges(level, index);
      KnowsCompleteChildren(t, level, index, a.shardHeight, n);
      if First(atLevel, atIndex) < Middle(level, index) {
        KnownCapGivesRootAt(a, shards, t.Left(), level - 1, 2 * index, atLevel, atIndex, n);
      } else {
        KnownCapGivesRootAt(a, shards, t.Right(), level - 1, 2 * index + 1, atLevel, atIndex, n);
      }
    }
  }

  // ----- true inputs -----

  predicate IsComplete(a: Assembly, all: seq<Hash>, i: nat) {
    First(a.shardHeight, i + 1) <= |all|
  }

  ghost predicate TrueCap(a: Assembly, all: seq<Hash>, c: CapRoot) {
    && IsComplete(a, all, c.shardIndex)
    && a.enc.fromBytes(c.root) == Some(a.h.Node(all, a.shardHeight, c.shardIndex))
  }

  predicate HasCap(caps: seq<CapRoot>, i: nat) {
    exists c :: c in caps && c.shardIndex == i
  }

  predicate HasShard(shards: seq<ShardLeaves>, i: nat) {
    exists shard :: shard in shards && shard.shardIndex == i
  }

  /** End of what a shard can hold of the tree's leaves. */
  function ShardEnd(a: Assembly, all: seq<Hash>, s: nat): nat {
    if First(a.shardHeight, s + 1) <= |all| then First(a.shardHeight, s + 1) else |all|
  }

  ghost predicate TrueShard(a: Assembly, all: seq<Hash>, shard: ShardLeaves) {
    var base := First(a.shardHeight, shard.shardIndex);
    && base + |shard.cmxs| == ShardEnd(a, all, shard.shardIndex)
    && forall k :: 0 <= k < |shard.cmxs| ==> a.enc.fromBytes(shard.cmxs[k]) == Some(all[base + k])
  }

  /**
   * Server data that describes the tree over `all`: a root for exactly the completed shards, in any order and
   * with any repetition; the frontier a node reached by appending the leaves; and all leaves of every note's
   * shard. Notes claim positions that exist; their commitments are not constrained.
   */
  ghost predicate TrueInputs(a: Assembly, all: seq<Hash>, inputs: WitnessInputs) {
    && a.Valid() && |all| <= Pow2(a.depth)
    && (forall c :: c in inputs.capRoots ==> TrueCap(a, all, c))
    && (forall i: nat :: IsComplete(a, all, i) ==> HasCap(inputs.capRoots, i))
    && (if inputs.frontierBytes == [] then all == []
        else a.read(inputs.frontierBytes) == AppendAll(a.h, a.depth, all))
    && (forall shard :: shard in inputs.shardLeaves ==> TrueShard(a, all, shard))
    && (forall note :: note in inputs.notes ==>
          note.position < |all| && HasShard(inputs.shardLeaves, Shr(note.position, a.shardHeight)))
  }

  ghost predicate TrueNote(a: Assembly, all: seq<Hash>, note: SpendNote) {
    note.position < |all| && a.enc.fromBytes(note.cmx) == Some(all[note.position])
  }

  // ----- step 2: cap roots -----

  lemma TopRange(a: Assembly, x: nat)
    ensures InRange(a.depth, 0, x) <==> x < Pow2(a.depth)
  {
    FirstOfZero(a.depth);
  }

  lemma CapIsInTree(a: Assembly, all: seq<Hash>, s: nat)
    requires |all| <= Pow2(a.depth) && First(a.shardHeight, s + 1) <= |all|
    ensures a.IsShardIndex(s) && InRange(a.depth, 0, First(a.shardHeight, s))
  {
    FirstMonotone(a.shardHeight, s, s + 1);
    TopRange(a, First(a.shardHeight, s));
  }

  ghost predicate TrueCaps(a: Assembly, all: seq<Hash>, caps: seq<CapRoot>) {
    forall c :: c in caps ==> TrueCap(a, all, c)
  }

  predicate Knows(a: Assembly, store: Store, i: nat) {
    KnowsShard(store.cap, a.depth, 0, a.shardHeight, i)
  }

  lemma OneCap(a: Assembly, all: seq<Hash>, store: Store, c: CapRoot)
    requires a.Valid() && |all| <= Pow2(a.depth)
    requires StoreTrue(a, all, store) && TrueCap(a, all, c)
    ensures var next := a.InsertCap(store, c.shardIndex, a.enc.fromBytes(c.root).value);
            && next.Some? && StoreTrue(a, all, next.value)
            && next.value.checkpoint == store.checkpoint
            && forall i: nat :: IsComplete(a, all, i) && (i == c.shardIndex || Knows(a, store, i)) ==>
                                  Knows(a, next.value, i)
  {
    var s := c.shardIndex;
    var leaf := Leaf(a.enc.fromBytes(c.root).value, false);
    CapIsInTree(a, all, s);
    InsertKeepsTruth(a.h, all, store.cap, a.depth, 0, a.shardHeight, s, leaf);
    MergeKeepsTruth(a.h, all, store.Shard(s), leaf, a.shardHeight, s);
    forall i: nat | IsComplete(a, all, i) && (i == s || Knows(a, store, i))
      ensures Knows(a, a.InsertCap(store, s, leaf.hash).value, i)
    {
      CapIsInTree(a, all, i);
      InsertKnows(store.cap, a.depth, 0, a.shardHeight, s, leaf.hash, a.shardHeight, i);
    }
  }

  lemma {:induction false} AllCaps(a: Assembly, all: seq<Hash>, store: Store, caps: seq<CapRoot>)
    requires a.Valid() && |all| <= Pow2(a.depth)
    requires StoreTrue(a, all, store) && TrueCaps(a, all, caps)
    ensures var r := a.InsertCaps(store, caps);
            && r.Success? && StoreTrue(a, all, r.value)
            && r.value.checkpoint == store.checkpoint
            && forall i: nat :: IsComplete(a, all, i) && (HasCap(caps, i) || Knows(a, store, i)) ==>
                                  Knows(a, r.value, i)
    decreases |caps|
  {
    if caps != [] {
      var c := caps[0];
      assert c in caps;
      OneCap(a, all, store, c);
      var next := a.InsertCap(store, c.shardIndex, a.enc.fromBytes(c.root).value).value;
      AllCaps(a, all, next, caps[1..]);
      assert forall d :: d in caps ==> d == c || d in caps[1..];
    }
  }

  // ----- step 3: the frontier -----

  /** Leaf `p` is accounted for in the subtree of shard `f`. */
  predicate HasLeaf(a: Assembly, all: seq<Hash>, store: Store, f: nat, p: nat) {
    Covered(store.Shard(f), a.shardHeight, f, p, |all|)
  }

  ghost predicate HasLeavesFrom(a: Assembly, all: seq<Hash>, store: Store, f: nat, from: nat) {
    forall p: nat :: from <= p < |all| && InRange(a.shardHeight, f, p) ==> HasLeaf(a, all, store, f, p)
  }

  /** What placing one true node keeps: truth, known shards, and covered leaves; it covers its own range. */
  lemma PlaceNodeKeeps(a: Assembly, all: seq<Hash>, store: Store, level: nat, index: nat, f: nat)
    requires a.Valid() && |all| <= Pow2(a.depth) && level < a.depth
    requires StoreTrue(a, all, store) && KnowsComplete(store.cap, a.depth, 0, a.shardHeight, |all|)
    requires First(level, index + 1) <= |all|
    requires level < a.shardHeight ==> Shr(index, a.shardHeight - level) == f
    ensures var next := a.PlaceNode(store, level, index, a.h.Node(all, level, index));
            && next.Some? && StoreTrue(a, all, next.value)
            && next.value.checkpoint == store.checkpoint
            && KnowsComplete(next.value.cap, a.depth, 0, a.shardHeight, |all|)
            && (level < a.shardHeight ==> f in next.value.shards)
            && (f in store.shards ==> f in next.value.shards)
            && forall p: nat :: HasLeaf(a, all, store, f, p) || (level < a.shardHeight && InRange(level, index, p)) ==>
                                  HasLeaf(a, all, next.value, f, p)
  {
    var leaf := Leaf(a.h.Node(all, level, index), false);
    FirstMonotone(level, index, index + 1);
    TopRange(a, First(level, index));
    if level < a.shardHeight {
      ShrIsContainingNode(level, index, a.shardHeight - level);
      InsertKeepsTruth(a.h, all, store.Shard(f), a.shardHeight, f, level, index, leaf);
      forall p: nat | HasLeaf(a, all, store, f, p) || InRange(level, index, p)
        ensures HasLeaf(a, all, a.PlaceNode(store, level, index, leaf.hash).value, f, p)
      {
        InsertCovers(store.Shard(f), a.shardHeight, f, level, index, leaf, p, |all|);
      }
    } else {
      InsertKeepsTruth(a.h, all, store.cap, a.depth, 0, level, index, leaf);
      forall i: nat | InRange(a.depth, 0, First(a.shardHeight, i)) && First(a.shardHeight, i + 1) <= |all|
        ensures KnowsShard(Insert(store.cap, a.depth, 0, level, index, leaf).value, a.depth, 0, a.shardHeight, i)
      {
        InsertKnows(store.cap, a.depth, 0, level, index, leaf.hash, a.shardHeight, i);
      }
    }
  }

  /** A true store that knows every completed shard and the leaves of shard `f` from `from` on. */
  ghost predicate Growing(a: Assembly, all: seq<Hash>, store: Store, f: nat, from: nat) {
    && StoreTrue(a, all, store)
    && KnowsComplete(store.cap, a.depth, 0, a.shardHeight, |all|)
    && f in store.shards
    && HasLeavesFrom(a, all, store, f, from)
  }

  /** First leaf under a node of the climb, while it is inside a shard. */
  function ClimbedFrom(a: Assembly, level: nat, index: nat): nat {
    if level <= a.shardHeight then First(level, index) else 0
  }

  /** An ommer covers the leaves under it. */
  lemma {:induction false} OmmerCovers(a: Assembly, all: seq<Hash>, store: Store, level: nat, index: nat, f: nat)
    requires a.Valid() && |all| <= Pow2(a.depth) && level < a.depth && index % 2 == 1
    requires First(level, index) < |all|
    requires level <= a.shardHeight ==> Shr(index, a.shardHeight - level) == f
    requires Growing(a, all, store, f, ClimbedFrom(a, level, index))
    ensures var next := a.PlaceNode(store, level, index - 1, a.h.Node(all, level, index - 1));
            && next.Some? && next.value.checkpoint == store.checkpoint
            && Growing(a, all, next.value, f, ClimbedFrom(a, level + 1, index / 2))
  {
    ChildRanges(level + 1, index / 2);
    PlaceNodeKeeps(a, all, store, level, index - 1, f);
    var next := a.PlaceNode(store, level, index - 1, a.h.Node(all, level, index - 1)).value;
    forall p: nat | ClimbedFrom(a, level + 1, index / 2) <= p < |all| && InRange(a.shardHeight, f, p)
      ensures HasLeaf(a, all, next, f, p)
    {
      assert InRange(level, index - 1, p) || HasLeaf(a, all, store, f, p);
    }
  }

  /** The ommers cover everything left of the leaves already covered in the last shard. */
  lemma {:induction false} OmmersCoverShard(a: Assembly, all: seq<Hash>, store: Store, slots: seq<Option<Hash>>,
                                            level: nat, index: nat, f: nat)
    requires a.Valid() && |all| <= Pow2(a.depth) && level <= a.depth
    requires First(level, index) < |all| <= First(level, index + 1)
    requires HoldsEdge(a.h, all, slots, level, index)
    requires level <= a.shardHeight ==> Shr(index, a.shardHeight - level) == f
    requires Growing(a, all, store, f, ClimbedFrom(a, level, index))
    ensures var next := a.PlaceOmmers(store, level, index, Present(slots));
            next.Some? && next.value.checkpoint == store.checkpoint && Growing(a, all, next.value, f, 0)
    decreases a.depth - level
  {
    if level < a.depth {
      ChildRanges(level + 1, index / 2);
      var rest := if slots == [] then [] else slots[1..];
      if index % 2 == 0 {
        assert Growing(a, all, store, f, ClimbedFrom(a, level + 1, index / 2));
        OmmersCoverShard(a, all, store, rest, level + 1, index / 2, f);
      } else {
        assert Present(slots)[1..] == Present(rest);
        OmmerCovers(a, all, store, level, index, f);
        OmmersCoverShard(a, all, a.PlaceNode(store, level, index - 1, a.h.Node(all, level, index - 1)).value, rest,
                         level + 1, index / 2, f);
      }
    }
  }

  /** The store can answer for the whole tree over `all`. */
  ghost predicate Ready(a: Assembly, all: seq<Hash>, store: Store) {
    && a.Valid() && |all| <= Pow2(a.depth)
    && StoreTrue(a, all, store)
    && KnowsComplete(store.cap, a.depth, 0, a.shardHeight, |all|)
    && KnowsEdge(a, store.shards, |all|)
    && store.checkpoint == Some(if all == [] then TreeEmpty else AtPosition(|all| - 1))
  }

  lemma PositionInShard(p: nat, height: nat)
    ensures InRange(height, Shr(p, height), p)
  {
    ShrIsContainingNode(0, p, height);
  }

  /** The slots of a grown tree, with the last pair's left leaf in front when it is an ommer. */
  lemma {:induction false} SlotsOfLeaves(a: Assembly, all: seq<Hash>) returns (slots: seq<Option<Hash>>)
    requires a.Valid() && 0 < |all| <= Pow2(a.depth)
    ensures HoldsEdge(a.h, all, slots, 0, |all| - 1)
    ensures AppendAll(a.h, a.depth, all).Some?
    ensures ToFrontier(AppendAll(a.h, a.depth, all).value)
         == Success(Some(NonEmptyFrontier(|all| - 1, all[|all| - 1], Present(slots))))
  {
    var n := |all|;
    assert all[..n] == all;
    AppendAllRepresents(a.h, a.depth, all, n);
    var t := AppendAll(a.h, a.depth, all).value;
    GrownFrontier(a.h, all, t);
    slots := EdgeSlots(t);
  }

  lemma EdgeIsKnown(a: Assembly, all: seq<Hash>, store: Store, f: nat)
    requires |all| > 0 && f == Shr(|all| - 1, a.shardHeight) && f in store.shards
    requires HasLeavesFrom(a, all, store, f, 0)
    ensures KnowsEdge(a, store.shards, |all|)
  {
    var n := |all|;
    forall p: nat | InRange(a.shardHeight, f, p) && p < n
      ensures Covered(store.shards[f], a.shardHeight, f, p, n)
    {
      assert HasLeaf(a, all, store, f, p);
    }
    CoveredLeavesGiveRoot(a.h, store.shards[f], a.shardHeight, f, n);
    PositionInShard(n - 1, a.shardHeight);
    forall g: nat | First(a.shardHeight, g) < n < First(a.shardHeight, g + 1)
      ensures g == f
    {
      ContainingNodeIsUnique(a.shardHeight, f, g, n - 1);
    }
  }

  lemma {:induction false} LastLeafCovers(a: Assembly, all: seq<Hash>, store: Store)
    requires a.Valid() && 0 < |all| <= Pow2(a.depth)
    requires StoreTrue(a, all, store) && KnowsComplete(store.cap, a.depth, 0, a.shardHeight, |all|)
    ensures var last := |all| - 1;
            var f := Shr(last, a.shardHeight);
            var next := a.PlaceNode(store, 0, last, all[last]);
            next.Some? && Growing(a, all, next.value, f, ClimbedFrom(a, 0, last))
  {
    var last := |all| - 1;
    var f := Shr(last, a.shardHeight);
    assert a.h.Node(all, 0, last) == all[last];
    PlaceNodeKeeps(a, all, store, 0, last, f);
    var next := a.PlaceNode(store, 0, last, all[last]).value;
    assert HasLeavesFrom(a, all, next, f, First(0, last)) by {
      assert InRange(0, last, last) && HasLeaf(a, all, next, f, last);
    }
  }

  lemma {:induction false} EdgeMakesReady(a: Assembly, all: seq<Hash>, store: Store, slots: seq<Option<Hash>>)
    requires a.Valid() && 0 < |all| <= Pow2(a.depth)
    requires StoreTrue(a, all, store) && KnowsComplete(store.cap, a.depth, 0, a.shardHeight, |all|)
    requires HoldsEdge(a.h, all, slots, 0, |all| - 1)
    ensures var next := a.InsertFrontier(store, Some(NonEmptyFrontier(|all| - 1, all[|all| - 1], Present(slots))));
            next.Some? && Ready(a, all, next.value)
  {
    var last := |all| - 1;
    var f := Shr(last, a.shardHeight);
    LastLeafCovers(a, all, store);
    var placed := a.PlaceNode(store, 0, last, all[last]).value.(checkpoint := Some(AtPosition(last)));
    OmmersCoverShard(a, all, placed, slots, 0, last, f);
    EdgeIsKnown(a, all, a.PlaceOmmers(placed, 0, last, Present(slots)).value, f);
  }

  lemma FrontierMakesReady(a: Assembly, all: seq<Hash>, store: Store)
    requires a.Valid() && |all| <= Pow2(a.depth)
    requires StoreTrue(a, all, store) && KnowsComplete(store.cap, a.depth, 0, a.shardHeight, |all|)
    ensures AppendAll(a.h, a.depth, all).Some?
    ensures ToFrontier(AppendAll(a.h, a.depth, all).value).Success?
    ensures var next := a.InsertFrontier(store, ToFrontier(AppendAll(a.h, a.depth, all).value).value);
            next.Some? && Ready(a, all, next.value)
  {
    if all != [] {
      var slots := SlotsOfLeaves(a, all);
      EdgeMakesReady(a, all, store, slots);
    }
  }

  // ----- step 4: shard leaves -----

  ghost predicate CanWitness(a: Assembly, all: seq<Hash>, store: Store, p: nat) {
    var s := Shr(p, a.shardHeight);
    s in store.shards && WitnessIn(a.h, store.shards[s], a.shardHeight, s, p, |all|).Some?
  }

  lemma ParsedRun(a: Assembly, all: seq<Hash>, shard: ShardLeaves)
    requires TrueShard(a, all, shard)
    ensures var base := First(a.shardHeight, shard.shardIndex);
            a.enc.ParseLeaves(shard.cmxs, base) == Success(all[base..ShardEnd(a, all, shard.shardIndex)])
  {
    var base := First(a.shardHeight, shard.shardIndex);
    var parsed := a.enc.ParseLeaves(shard.cmxs, base);
    var run := parsed.value;
    forall k | 0 <= k < |run|
      ensures run[k] == all[base + k]
    {
      assert Some(run[k]) == a.enc.fromBytes(shard.cmxs[k]);
    }
    assert run == all[base..ShardEnd(a, all, shard.shardIndex)];
  }

  /** Joining a shard with all its leaves keeps its root and witnesses and adds those of marked leaves. */
  lemma MergedShard(a: Assembly, all: seq<Hash>, t: Sparse, s: nat, marked: set<nat>)
    requires Consistent(a.h, all, t, a.shardHeight, s)
    requires First(a.shardHeight, s) <= ShardEnd(a, all, s)
    ensures var base := First(a.shardHeight, s);
            var merged := Merge(t, Build(a.h, a.shardHeight, s, all[base..ShardEnd(a, all, s)], base, marked));
            && merged.Some? && Consistent(a.h, all, merged.value, a.shardHeight, s)
            && RootHash(a.h, merged.value, a.shardHeight, s, |all|).Some?
            && forall p: nat ::
                 WitnessIn(a.h, t, a.shardHeight, s, p, |all|).Some? || (p in marked && p < |all| && InRange(a.shardHeight, s, p))
                 ==> WitnessIn(a.h, merged.value, a.shardHeight, s, p, |all|).Some?
  {
    var height, base := a.shardHeight, First(a.shardHeight, s);
    var run := all[base..ShardEnd(a, all, s)];
    var sub := Build(a.h, height, s, run, base, marked);
    BuildIsTrue(a.h, all, height, s, run, base, marked);
    MergeKeepsTruth(a.h, all, t, sub, height, s);
    BuildGivesRoot(a.h, all, height, s, run, base, marked);
    MergeKeepsRoots(a.h, t, sub, height, s, |all|);
    forall p: nat | WitnessIn(a.h, t, height, s, p, |all|).Some? || (p in marked && p < |all| && InRange(height, s, p))
      ensures WitnessIn(a.h, Merge(t, sub).value, height, s, p, |all|).Some?
    {
      if p in marked && p < |all| && InRange(height, s, p) {
        BuildGivesWitness(a.h, all, height, s, run, base, marked, p);
      }
      MergeKeepsWitness(a.h, all, t, sub, height, s, p);
    }
  }

  lemma {:induction false} OneShard(a: Assembly, all: seq<Hash>, store: Store, shard: ShardLeaves, marked: set<nat>)
    requires Ready(a, all, store) && TrueShard(a, all, shard)
    ensures a.enc.ParseLeaves(shard.cmxs, First(a.shardHeight, shard.shardIndex)).Success?
    ensures var run := a.enc.ParseLeaves(shard.cmxs, First(a.shardHeight, shard.shardIndex)).value;
            var next := a.BatchInsert(store, shard.shardIndex, run, marked);
            && next.Some? && Ready(a, all, next.value)
            && forall p: nat ::
                 CanWitness(a, all, store, p) || (p in marked && p < |all| && Shr(p, a.shardHeight) == shard.shardIndex)
                 ==> CanWitness(a, all, next.value, p)
  {
    var s := shard.shardIndex;
    var base := First(a.shardHeight, s);
    ParsedRun(a, all, shard);
    var run := all[base..ShardEnd(a, all, s)];
    MergedShard(a, all, store.Shard(s), s, marked);
    NodeWidth(a.shardHeight, s);
    assert run[..|run|] == run && run[|run|..] == [];
    forall p: nat
      ensures InRange(a.shardHeight, Shr(p, a.shardHeight), p)
    {
      PositionInShard(p, a.shardHeight);
    }
  }

  lemma {:induction false} AllShards(a: Assembly, all: seq<Hash>, store: Store, shards: seq<ShardLeaves>,
                                     marked: set<nat>)
    requires Ready(a, all, store)
    requires forall shard :: shard in shards ==> TrueShard(a, all, shard)
    ensures var r := a.InsertShards(store, shards, marked);
            && r.Success? && Ready(a, all, r.value)
            && forall p: nat ::
                 CanWitness(a, all, store, p) || (p in marked && p < |all| && HasShard(shards, Shr(p, a.shardHeight)))
                 ==> CanWitness(a, all, r.value, p)
    decreases |shards|
  {
    if shards != [] {
      var shard := shards[0];
      assert shard in shards;
      OneShard(a, all, store, shard, marked);
      var run := a.enc.ParseLeaves(shard.cmxs, First(a.shardHeight, shard.shardIndex)).value;
      var next := a.BatchInsert(store, shard.shardIndex, run, marked).value;
      AllShards(a, all, next, shards[1..], marked);
      assert forall d :: d in shards ==> d == shard || d in shards[1..];
    }
  }

  // ----- steps 5 and 6 -----

  lemma ReadyAnchor(a: Assembly, all: seq<Hash>, store: Store, anchorHeight: nat)
    requires Ready(a, all, store)
    ensures a.Anchor(store, anchorHeight) == Success(a.h.Node(all, a.depth, 0))
  {
    if all == [] {
      a.h.NodeBeyondIsEmpty(all, a.depth, 0);
    } else {
      KnownCapGivesRoot(a, store.shards, store.cap, a.depth, 0, |all|);
      RootFromIsTrue(a, all, store, store.cap, a.depth, 0);
    }
  }

  /** The sibling and the parent of a node below the root are inside the tree as well. */
  lemma SiblingIsInTree(a: Assembly, level: nat, index: nat)
    requires level < a.depth && First(level, index) < Pow2(a.depth)
    ensures First(level, Sibling(index)) < Pow2(a.depth) && First(level + 1, index / 2) < Pow2(a.depth)
  {
    var parent, k := index / 2, a.depth - (level + 1);
    ChildRanges(level + 1, parent);
    ShrIsContainingNode(level + 1, parent, k);
    FirstOfZero(a.depth);
    ContainingNodeIsUnique(a.depth, 0, Shr(parent, k), First(level + 1, parent));
  }

  lemma {:induction false} ReadyPathAbove(a: Assembly, all: seq<Hash>, store: Store, level: nat, index: nat)
    requires Ready(a, all, store)
    requires a.shardHeight <= level <= a.depth && First(level, index) < Pow2(a.depth)
    ensures a.PathAbove(store, level, index, |all|) == Some(a.h.PathOf(all, level, index, a.depth))
    decreases a.depth - level
  {
    if level < a.depth {
      SiblingIsInTree(a, level, index);
      TopRange(a, First(level, Sibling(index)));
      KnownCapGivesRootAt(a, store.shards, store.cap, a.depth, 0, level, Sibling(index), |all|);
      RootAtIsTrue(a, all, store, store.cap, a.depth, 0, level, Sibling(index));
      ReadyPathAbove(a, all, store, level + 1, index / 2);
    }
  }

  lemma {:induction false} ReadyWitness(a: Assembly, all: seq<Hash>, store: Store, anchorHeight: nat, p: nat)
    requires Ready(a, all, store) && p < |all| && CanWitness(a, all, store, p)
    ensures a.WitnessFor(store, anchorHeight, p) == Success(a.h.PathOf(all, 0, p, a.depth))
  {
    var s := Shr(p, a.shardHeight);
    PositionInShard(p, a.shardHeight);
    WitnessInIsTrue(a.h, all, store.shards[s], a.shardHeight, s, p);
    ReadyPathAbove(a, all, store, a.shardHeight, s);
    a.h.PathSplits(all, 0, p, a.shardHeight, a.depth);
  }

  // ----- main results -----

  /** On true inputs the store is filled without a conflict and can witness every note's position. */
  lemma TrueInputsFill(a: Assembly, all: seq<Hash>, inputs: WitnessInputs)
    requires TrueInputs(a, all, inputs)
    ensures a.Filled(inputs).Success? && Ready(a, all, a.Filled(inputs).value)
    ensures forall note :: note in inputs.notes ==> CanWitness(a, all, a.Filled(inputs).value, note.position)
  {
    AllCaps(a, all, EMPTY_STORE, inputs.capRoots);
    var capped := a.InsertCaps(EMPTY_STORE, inputs.capRoots).value;
    forall i: nat | InRange(a.depth, 0, First(a.shardHeight, i)) && First(a.shardHeight, i + 1) <= |all|
      ensures KnowsShard(capped.cap, a.depth, 0, a.shardHeight, i)
    {
      assert IsComplete(a, all, i) && Knows(a, capped, i);
    }
    FrontierMakesReady(a, all, capped);
    var edged := a.InsertFrontier(capped, DecodeFrontier(a.read, inputs.frontierBytes).value).value;
    var marked := set note | note in inputs.notes :: note.position;
    AllShards(a, all, edged, inputs.shardLeaves, marked);
    forall note | note in inputs.notes
      ensures CanWitness(a, all, a.Filled(inputs).value, note.position)
    {
      assert note.position in marked;
    }
  }

  function TruePaths(a: Assembly, all: seq<Hash>, notes: seq<SpendNote>): seq<MerklePath> {
    if notes == [] then []
    else [MerklePath(notes[0].position, a.h.PathOf(all, 0, notes[0].position, a.depth))] + TruePaths(a, all, notes[1..])
  }

  lemma TruePathsInOrder(a: Assembly, all: seq<Hash>, notes: seq<SpendNote>, i: nat)
    requires i < |notes|
    ensures |TruePaths(a, all, notes)| == |notes|
    ensures TruePaths(a, all, notes)[i]
         == MerklePath(notes[i].position, a.h.PathOf(all, 0, notes[i].position, a.depth))
  {
    if |notes| > 1 {
      TruePathsInOrder(a, all, notes[1..], if i > 0 then i - 1 else 0);
    }
  }

  lemma ReadyNotePath(a: Assembly, all: seq<Hash>, store: Store, anchorHeight: nat, note: SpendNote)
    requires Ready(a, all, store) && note.position < |all| && CanWitness(a, all, store, note.position)
    ensures var anchor := a.enc.toBytes(a.h.Node(all, a.depth, 0));
            var r := a.NotePath(store, anchorHeight, anchor, note);
            && (TrueNote(a, all, note) ==>
                  r == Success(MerklePath(note.position, a.h.PathOf(all, 0, note.position, a.depth))))
            && (a.h.CollisionFree() && a.enc.Canonical() && !TrueNote(a, all, note) ==>
                  r.Failure? && (r.error == InvalidLeaf(note.position)
                                 || (r.error.WitnessMismatch? && r.error.at == note.position && r.error.expected == anchor)))
  {
    var p := note.position;
    ReadyWitness(a, all, store, anchorHeight, p);
    var path := a.h.PathOf(all, 0, p, a.depth);
    a.h.TruePathReachesRoot(all, 0, p, a.depth);
    var leaf := a.enc.fromBytes(note.cmx);
    if a.h.CollisionFree() && a.enc.Canonical() && leaf.Some? {
      var anchor := a.enc.toBytes(a.h.Node(all, a.depth, 0));
      if a.enc.toBytes(a.h.PathRoot(leaf.value, 0, p, path)) == anchor {
        assert Some(a.h.PathRoot(leaf.value, 0, p, path)) == a.enc.fromBytes(anchor) == Some(a.h.Node(all, a.depth, 0));
        a.h.PathRootIsBinding(leaf.value, all[p], 0, p, path, path);
      }
    }
  }

  lemma {:induction false} ReadyNotePaths(a: Assembly, all: seq<Hash>, store: Store, anchorHeight: nat,
                                          notes: seq<SpendNote>)
    requires Ready(a, all, store)
    requires forall note :: note in notes ==> note.position < |all| && CanWitness(a, all, store, note.position)
    ensures var r := a.NotePaths(store, anchorHeight, a.enc.toBytes(a.h.Node(all, a.depth, 0)), notes);
            && ((forall note :: note in notes ==> TrueNote(a, all, note)) ==> r == Success(TruePaths(a, all, notes)))
            && (a.h.CollisionFree() && a.enc.Canonical() && r.Success? ==>
                  forall note :: note in notes ==> TrueNote(a, all, note))
    decreases |notes|
  {
    if notes != [] {
      assert notes[0] in notes;
      ReadyNotePath(a, all, store, anchorHeight, notes[0]);
      ReadyNotePaths(a, all, store, anchorHeight, notes[1..]);
      assert forall note :: note in notes ==> note == notes[0] || note in notes[1..];
      assert forall note :: note in notes[1..] ==> note in notes;
    }
  }

  /**
   * The sparse assembly is the dense tree: with server data about the tree over `all` and notes that are in
   * it, the call succeeds, its anchor is the root of the depth-32 tree padded with empty leaves, and the i-th
   * path is the authentication path of the i-th note.
   */
  lemma AssemblyMatchesDenseTree(a: Assembly, all: seq<Hash>, inputs: WitnessInputs)
    requires TrueInputs(a, all, inputs)
    requires forall note :: note in inputs.notes ==> TrueNote(a, all, note)
    ensures a.Outcome(inputs) == Success(WitnessOutput(a.enc.toBytes(a.h.Node(all, a.depth, 0)), inputs.anchorHeight,
                                                       TruePaths(a, all, inputs.notes)))
  {
    TrueInputsFill(a, all, inputs);
    var store := a.Filled(inputs).value;
    ReadyAnchor(a, all, store, inputs.anchorHeight);
    ReadyNotePaths(a, all, store, inputs.anchorHeight, inputs.notes);
  }

  /** With honest server data, the call succeeds exactly when every note's commitment is the leaf at its position. */
  lemma SuccessIffNotesInTree(a: Assembly, all: seq<Hash>, inputs: WitnessInputs)
    requires TrueInputs(a, all, inputs) && a.h.CollisionFree() && a.enc.Canonical()
    ensures a.Outcome(inputs).Success? <==> forall note :: note in inputs.notes ==> TrueNote(a, all, note)
  {
    TrueInputsFill(a, all, inputs);
    var store := a.Filled(inputs).value;
    ReadyAnchor(a, all, store, inputs.anchorHeight);
    ReadyNotePaths(a, all, store, inputs.anchorHeight, inputs.notes);
  }

  /** `frontier_anchor` and `build_witnesses` give the same anchor for the same tree state. */
  lemma FrontierAnchorAgrees(a: Assembly, all: seq<Hash>, inputs: WitnessInputs)
    requires TrueInputs(a, all, inputs)
    requires forall note :: note in inputs.notes ==> TrueNote(a, all, note)
    ensures a.Outcome(inputs).Success?
    ensures FrontierAnchor(a.h, a.enc, a.depth, a.read, inputs.frontierBytes) == Success(a.Outcome(inputs).value.anchor)
    ensures FrontierLeafCount(a.read, inputs.frontierBytes) == Success(|all|)
  {
    AssemblyMatchesDenseTree(a, all, inputs);
    FrontierOfLeaves(a.h, a.depth, all);
    FrontierReadersAgreeWithDenseTree(a.h, a.enc, a.depth, a.read, inputs.frontierBytes, all);
  }

  // ----- any inputs -----

  /** The i-th path has full length and re-roots the i-th note's commitment to the anchor. */
  ghost predicate Checked(a: Assembly, anchor: Bytes, note: SpendNote, path: MerklePath) {
    && path.position == note.position < Pow2(a.depth)
    && |path.elements| == a.depth
    && a.enc.fromBytes(note.cmx).Some?
    && a.enc.toBytes(a.h.PathRoot(a.enc.fromBytes(note.cmx).value, 0, note.position, path.elements)) == anchor
  }

  ghost predicate CheckpointInTree(a: Assembly, store: Store) {
    store.checkpoint.Some? && (store.checkpoint.value.AtPosition? ==> store.checkpoint.value.position < Pow2(a.depth))
  }

  lemma {:induction false} OmmersKeepCheckpoint(a: Assembly, store: Store, level: nat, index: nat, ommers: seq<Hash>)
    ensures var r := a.PlaceOmmers(store, level, index, ommers); r.Some? ==> r.value.checkpoint == store.checkpoint
    decreases a.depth - level
  {
    if level < a.depth {
      if index % 2 == 0 {
        OmmersKeepCheckpoint(a, store, level + 1, index / 2, ommers);
      } else if ommers != [] && a.PlaceNode(store, level, index - 1, ommers[0]).Some? {
        OmmersKeepCheckpoint(a, a.PlaceNode(store, level, index - 1, ommers[0]).value, level + 1, index / 2, ommers[1..]);
      }
    }
  }

  lemma {:induction a, store, s, run} BatchKeepsCheckpoint(a: Assembly, store: Store, s: nat, run: seq<Hash>,
                                                           marked: set<nat>)
    ensures var r := a.BatchInsert(store, s, run, marked); r.Some? ==> r.value.checkpoint == store.checkpoint
    decreases |run|
  {
  }

  lemma {:induction false} ShardsKeepCheckpoint(a: Assembly, store: Store, shards: seq<ShardLeaves>, marked: set<nat>)
    ensures var r := a.InsertShards(store, shards, marked); r.Success? ==> r.value.checkpoint == store.checkpoint
    decreases |shards|
  {
    if shards != [] {
      var run := a.enc.ParseLeaves(shards[0].cmxs, First(a.shardHeight, shards[0].shardIndex));
      if run.Success? {
        BatchKeepsCheckpoint(a, store, shards[0].shardIndex, run.value, marked);
        var next := a.BatchInsert(store, shards[0].shardIndex, run.value, marked);
        if next.Some? {
          ShardsKeepCheckpoint(a, next.value, shards[1..], marked);
        }
      }
    }
  }

  /** Filling always leaves a checkpoint, so the missing-checkpoint error is never returned. */
  lemma FilledHasCheckpoint(a: Assembly, inputs: WitnessInputs)
    requires a.Filled(inputs).Success?
    ensures CheckpointInTree(a, a.Filled(inputs).value)
  {
    var capped := a.InsertCaps(EMPTY_STORE, inputs.capRoots).value;
    var frontier := DecodeFrontier(a.read, inputs.frontierBytes).value;
    if frontier.Some? {
      var f := frontier.value;
      var placed := a.PlaceNode(capped, 0, f.position, f.leaf).value;
      OmmersKeepCheckpoint(a, placed.(checkpoint := Some(AtPosition(f.position))), 0, f.position, f.ommers);
    }
    var edged := a.InsertFrontier(capped, frontier).value;
    ShardsKeepCheckpoint(a, edged, inputs.shardLeaves, set note | note in inputs.notes :: note.position);
  }

  /** A commitment that does not decode, or a path that leads from one to another root than the anchor. */
  ghost predicate IsNoteCause(a: Assembly, anchor: Bytes, notes: seq<SpendNote>, e: WitnessError) {
    match e
    case InvalidLeaf(p) => exists note :: note in notes && note.position == p && a.enc.fromBytes(note.cmx) == None
    case WitnessMismatch(at, expected, got) =>
      expected == anchor && got != anchor && exists note :: note in notes && note.position == at && LeadsTo(a, note, got)
    case ShardTreeFailure => true
    case _ => false
  }

  ghost predicate LeadsTo(a: Assembly, note: SpendNote, root: Bytes) {
    a.enc.fromBytes(note.cmx).Some? && exists path :: RootOf(a, note, path) == root
  }

  function RootOf(a: Assembly, note: SpendNote, path: seq<Hash>): Bytes
    requires a.enc.fromBytes(note.cmx).Some?
  {
    a.enc.toBytes(a.h.PathRoot(a.enc.fromBytes(note.cmx).value, 0, note.position, path))
  }

  lemma {:induction false} NotePathsAreChecked(a: Assembly, store: Store, anchorHeight: nat, anchor: Bytes,
                                               notes: seq<SpendNote>)
    requires a.Valid() && CheckpointInTree(a, store)
    ensures var r := a.NotePaths(store, anchorHeight, anchor, notes);
            && (r.Success? ==>
                  |r.value| == |notes| && forall i :: 0 <= i < |notes| ==> Checked(a, anchor, notes[i], r.value[i]))
            && (r.Failure? ==> IsNoteCause(a, anchor, notes, r.error))
    decreases |notes|
  {
    if notes != [] {
      var note := notes[0];
      assert note in notes;
      var path := a.WitnessFor(store, anchorHeight, note.position);
      if path.Success? && a.enc.fromBytes(note.cmx).Some? {
        assert LeadsTo(a, note, RootOf(a, note, path.value));
      }
      NotePathsAreChecked(a, store, anchorHeight, anchor, notes[1..]);
      assert forall d :: d in notes[1..] ==> d in notes;
    }
  }

  /** What a refusal says about the inputs is so. A failing tree operation is not described further. */
  ghost predicate IsCause(a: Assembly, inputs: WitnessInputs, e: WitnessError)
    requires a.Valid()
  {
    match e
    case InvalidShardRoot(i) => IsCapCause(a, inputs.capRoots, e)
    case InvalidLeaf(p) => IsShardCause(a, inputs.shardLeaves, e) || IsNoteCause(a, AnchorOf(a, inputs), inputs.notes, e)
    case FrontierFailure(reason) => DecodeFrontier(a.read, inputs.frontierBytes) == Failure(reason)
    case WitnessMismatch(_, _, _) => IsNoteCause(a, AnchorOf(a, inputs), inputs.notes, e)
    case ShardTreeFailure => true
    case NoCheckpointForAnchor(_) => false
  }

  /** The anchor read from the filled store; the empty tree's where there is none. */
  ghost function AnchorOf(a: Assembly, inputs: WitnessInputs): Bytes {
    var filled := a.Filled(inputs);
    if filled.Success? && a.Anchor(filled.value, inputs.anchorHeight).Success?
    then a.enc.toBytes(a.Anchor(filled.value, inputs.anchorHeight).value)
    else a.enc.toBytes(a.h.EmptyRoot(a.depth))
  }

  /** Whatever the server sent: one checked path per note, in the order of the notes, or a refusal for a true cause. */
  lemma EveryPathIsChecked(a: Assembly, inputs: WitnessInputs)
    requires a.Valid()
    ensures match a.Outcome(inputs)
            case Failure(e) => !e.NoCheckpointForAnchor? && IsCause(a, inputs, e)
            case Success(out) =>
              && |out.witnesses| == |inputs.notes|
              && out.anchorHeight == inputs.anchorHeight
              && forall i :: 0 <= i < |inputs.notes| ==> Checked(a, out.anchor, inputs.notes[i], out.witnesses[i])
  {
    var filled := a.Filled(inputs);
    if filled.Success? {
      FilledHasCheckpoint(a, inputs);
      var root := a.Anchor(filled.value, inputs.anchorHeight);
      if root.Success? {
        NotePathsAreChecked(a, filled.value, inputs.anchorHeight, a.enc.toBytes(root.value), inputs.notes);
      }
    } else {
      FillErrors(a, inputs);
    }
  }

  ghost predicate IsCapCause(a: Assembly, caps: seq<CapRoot>, e: WitnessError) {
    match e
    case InvalidShardRoot(i) => exists c :: c in caps && c.shardIndex == i && a.enc.fromBytes(c.root) == None
    case ShardTreeFailure => true
    case _ => false
  }

  lemma {:induction false} CapErrors(a: Assembly, store: Store, caps: seq<CapRoot>)
    ensures var r := a.InsertCaps(store, caps); r.Failure? ==> IsCapCause(a, caps, r.error)
    decreases |caps|
  {
    if caps != [] {
      var root := a.enc.fromBytes(caps[0].root);
      assert caps[0] in caps;
      if root.Some? && a.InsertCap(store, caps[0].shardIndex, root.value).Some? {
        CapErrors(a, a.InsertCap(store, caps[0].shardIndex, root.value).value, caps[1..]);
        assert forall c :: c in caps[1..] ==> c in caps;
      }
    }
  }

  /** Leaf `k` of the shard is the one at position `p` and does not decode. */
  predicate IsBadLeaf(a: Assembly, shard: ShardLeaves, k: nat, p: nat) {
    k < |shard.cmxs| && First(a.shardHeight, shard.shardIndex) + k == p && a.enc.fromBytes(shard.cmxs[k]) == None
  }

  ghost predicate IsShardCause(a: Assembly, shards: seq<ShardLeaves>, e: WitnessError) {
    match e
    case InvalidLeaf(p) => exists shard, k: nat :: shard in shards && IsBadLeaf(a, shard, k, p)
    case ShardTreeFailure => true
    case _ => false
  }

  lemma {:induction false} ShardErrors(a: Assembly, store: Store, shards: seq<ShardLeaves>, marked: set<nat>)
    ensures var r := a.InsertShards(store, shards, marked); r.Failure? ==> IsShardCause(a, shards, r.error)
    decreases |shards|
  {
    if shards != [] {
      var shard := shards[0];
      assert shard in shards;
      var run := a.enc.ParseLeaves(shard.cmxs, First(a.shardHeight, shard.shardIndex));
      if run.Failure? {
        assert IsBadLeaf(a, shard, run.error - First(a.shardHeight, shard.shardIndex), run.error);
      } else if a.BatchInsert(store, shard.shardIndex, run.value, marked).Some? {
        ShardErrors(a, a.BatchInsert(store, shard.shardIndex, run.value, marked).value, shards[1..], marked);
        assert forall d :: d in shards[1..] ==> d in shards;
      }
    }
  }

  lemma FillErrors(a: Assembly, inputs: WitnessInputs)
    requires a.Valid() && a.Filled(inputs).Failure?
    ensures !a.Filled(inputs).error.NoCheckpointForAnchor? && IsCause(a, inputs, a.Filled(inputs).error)
  {
    CapErrors(a, EMPTY_STORE, inputs.capRoots);
    var capped := a.InsertCaps(EMPTY_STORE, inputs.capRoots);
    if capped.Success? {
      var frontier := DecodeFrontier(a.read, inputs.frontierBytes);
      if frontier.Success? && a.InsertFrontier(capped.value, frontier.value).Some? {
        ShardErrors(a, a.InsertFrontier(capped.value, frontier.value).value, inputs.shardLeaves,
                    set note | note in inputs.notes :: note.position);
      }
    }
  }

  /** Two successful runs to one anchor cannot witness different commitments at one position. */
  lemma RunsCannotDisagree(a: Assembly, first: WitnessInputs, second: WitnessInputs, i: nat, j: nat)
    requires a.Valid() && a.h.CollisionFree() && a.enc.Canonical()
    requires a.Outcome(first).Success? && a.Outcome(second).Success?
    requires a.Outcome(first).value.anchor == a.Outcome(second).value.anchor
    requires i < |first.notes| && j < |second.notes| && first.notes[i].position == second.notes[j].position
    ensures a.enc.fromBytes(first.notes[i].cmx) == a.enc.fromBytes(second.notes[j].cmx)
    ensures i < |a.Outcome(first).value.witnesses| && j < |a.Outcome(second).value.witnesses|
    ensures a.Outcome(first).value.witnesses[i] == a.Outcome(second).value.witnesses[j]
  {
    EveryPathIsChecked(a, first);
    EveryPathIsChecked(a, second);
    var out, out' := a.Outcome(first).value, a.Outcome(second).value;
    var x, y := a.enc.fromBytes(first.notes[i].cmx).value, a.enc.fromBytes(second.notes[j].cmx).value;
    assert Checked(a, out.anchor, first.notes[i], out.witnesses[i]);
    assert Checked(a, out'.anchor, second.notes[j], out'.witnesses[j]);
    var p := first.notes[i].position;
    var r := a.h.PathRoot(x, 0, p, out.witnesses[i].elements);
    var r' := a.h.PathRoot(y, 0, p, out'.witnesses[j].elements);
    assert Some(r) == a.enc.fromBytes(out.anchor) == Some(r');
    a.h.PathRootIsBinding(x, y, 0, p, out.witnesses[i].elements, out'.witnesses[j].elements);
  }

  /**
   * No server data, however wrong, yields a wrong witness for a true anchor: if the anchor is the root of the
   * tree over `all`, every returned path is the true one and every note's commitment is the leaf there.
   */
  lemma NoWrongWitness(a: Assembly, all: seq<Hash>, inputs: WitnessInputs, i: nat)
    requires a.Valid() && a.h.CollisionFree() && a.enc.Canonical()
    requires a.Outcome(inputs).Success? && i < |inputs.notes|
    requires a.Outcome(inputs).value.anchor == a.enc.toBytes(a.h.Node(all, a.depth, 0))
    ensures i < |a.Outcome(inputs).value.witnesses|
    ensures a.enc.fromBytes(inputs.notes[i].cmx) == Some(a.h.LeafAt(all, inputs.notes[i].position))
    ensures a.Outcome(inputs).value.witnesses[i].elements == a.h.PathOf(all, 0, inputs.notes[i].position, a.depth)
  {
    EveryPathIsChecked(a, inputs);
    var out := a.Outcome(inputs).value;
    var p := inputs.notes[i].position;
    assert Checked(a, out.anchor, inputs.notes[i], out.witnesses[i]);
    var x := a.enc.fromBytes(inputs.notes[i].cmx).value;
    assert Some(a.h.PathRoot(x, 0, p, out.witnesses[i].elements)) == a.enc.fromBytes(out.anchor);
    a.h.TruePathReachesRoot(all, 0, p, a.depth);
    a.h.PathRootIsBinding(x, a.h.LeafAt(all, p), 0, p, out.witnesses[i].elements, a.h.PathOf(all, 0, p, a.depth));
  }

  // ----- the order of cap roots -----

  /** The list gives each shard of `m` its one root, in some order, possibly more than once. */
  ghost predicate Describes(a: Assembly, caps: seq<CapRoot>, m: map<nat, Hash>) {
    && (forall c :: c in caps ==>
          a.IsShardIndex(c.shardIndex) && c.shardIndex in m && a.enc.fromBytes(c.root) == Some(m[c.shardIndex]))
    && (forall i :: i in m ==> HasCap(caps, i))
  }

  ghost predicate HasKeyBelow(m: map<nat, Hash>, level: nat, index: nat, height: nat) {
    exists i :: i in m && InRange(level, index, First(height, i))
  }

  /** The cap over the shards of `m`. */
  ghost function CapOf(m: map<nat, Hash>, level: nat, index: nat, height: nat): Sparse {
    if level <= height then (if index in m then Leaf(m[index], false) else Nil)
    else if !HasKeyBelow(m, level, index, height) then Nil
    else Parent(None, CapOf(m, level - 1, 2 * index, height), CapOf(m, level - 1, 2 * index + 1, height))
  }

  ghost function StoreOf(a: Assembly, m: map<nat, Hash>): Store {
    Store(CapOf(m, a.depth, 0, a.shardHeight), map i | i in m :: Leaf(m[i], false), None)
  }

  lemma {:induction false} CapIgnoresOtherShards(m: map<nat, Hash>, level: nat, index: nat, height: nat, i: nat, hash: Hash)
    requires height <= level && !InRange(level, index, First(height, i))
    ensures CapOf(m[i := hash], level, index, height) == CapOf(m, level, index, height)
    decreases level
  {
    if level == height {
      NodeWidth(level, index);
    } else {
      ChildRanges(level, index);
      CapIgnoresOtherShards(m, level - 1, 2 * index, height, i, hash);
      CapIgnoresOtherShards(m, level - 1, 2 * index + 1, height, i, hash);
      assert HasKeyBelow(m[i := hash], level, index, height) == HasKeyBelow(m, level, index, height);
    }
  }

  lemma CapChildren(m: map<nat, Hash>, level: nat, index: nat, height: nat)
    requires height < level
    ensures var t := CapOf(m, level, index, height);
            && t.Summary() == None
            && t.Left() == CapOf(m, level - 1, 2 * index, height)
            && t.Right() == CapOf(m, level - 1, 2 * index + 1, height)
  {
    ChildRanges(level, index);
    if !HasKeyBelow(m, level, index, height) && level - 1 == height {
      NodeWidth(height, 2 * index);
      NodeWidth(height, 2 * index + 1);
      assert 2 * index in m ==> InRange(level, index, First(height, 2 * index));
      assert 2 * index + 1 in m ==> InRange(level, index, First(height, 2 * index + 1));
    }
  }

  lemma {:induction false} InsertIntoCap(m: map<nat, Hash>, level: nat, index: nat, height: nat, i: nat, hash: Hash)
    requires height <= level && InRange(level, index, First(height, i))
    requires i in m ==> m[i] == hash
    ensures Insert(CapOf(m, level, index, height), level, index, height, i, Leaf(hash, false))
         == Some(CapOf(m[i := hash], level, index, height))
    decreases level
  {
    if level == height {
      FirstMonotone(level, i, i + 1);
      ContainingNodeIsUnique(level, index, i, First(level, i));
    } else {
      ChildRanges(level, index);
      CapChildren(m, level, index, height);
      assert HasKeyBelow(m[i := hash], level, index, height);
      if First(height, i) < Middle(level, index) {
        InsertIntoCap(m, level - 1, 2 * index, height, i, hash);
        CapIgnoresOtherShards(m, level - 1, 2 * index + 1, height, i, hash);
      } else {
        InsertIntoCap(m, level - 1, 2 * index + 1, height, i, hash);
        CapIgnoresOtherShards(m, level - 1, 2 * index, height, i, hash);
      }
    }
  }

  lemma {:induction false} CapsGiveStore(a: Assembly, done: map<nat, Hash>, caps: seq<CapRoot>, m: map<nat, Hash>)
    requires a.Valid()
    requires forall c :: c in caps ==>
               a.IsShardIndex(c.shardIndex) && c.shardIndex in m && a.enc.fromBytes(c.root) == Some(m[c.shardIndex])
    requires forall i :: i in done ==> i in m && done[i] == m[i]
    requires forall i :: i in m ==> i in done || HasCap(caps, i)
    ensures a.InsertCaps(StoreOf(a, done), caps) == Success(StoreOf(a, m))
    decreases |caps|
  {
    if caps == [] {
      assert done == m;
    } else {
      var c := caps[0];
      assert c in caps;
      var i, hash := c.shardIndex, m[c.shardIndex];
      TopRange(a, First(a.shardHeight, i));
      InsertIntoCap(done, a.depth, 0, a.shardHeight, i, hash);
      var next := done[i := hash];
      assert StoreOf(a, done).shards[i := Leaf(hash, false)] == StoreOf(a, next).shards;
      assert a.InsertCap(StoreOf(a, done), i, hash) == Some(StoreOf(a, next));
      assert forall d :: d in caps ==> d == c || d in caps[1..];
      assert forall d :: d in caps[1..] ==> d in caps;
      CapsGiveStore(a, next, caps[1..], m);
    }
  }

  /** Neither the order nor the repetition of cap roots matters, whatever the rest of the inputs. */
  lemma CapOrderIsIrrelevant(a: Assembly, inputs: WitnessInputs, caps: seq<CapRoot>, m: map<nat, Hash>)
    requires a.Valid()
    requires Describes(a, inputs.capRoots, m) && Describes(a, caps, m)
    ensures a.Outcome(inputs) == a.Outcome(inputs.(capRoots := caps))
  {
    assert StoreOf(a, map[]) == EMPTY_STORE;
    CapsGiveStore(a, map[], inputs.capRoots, m);
    CapsGiveStore(a, map[], caps, m);
  }

  /** Before the frontier every shard holds at most its summary. */
  ghost predicate OnlySummaries(store: Store) {
    forall i :: i in store.shards ==> store.shards[i].Leaf? && !store.shards[i].marked
  }

  lemma {:induction false} CapsStayApart(a: Assembly, store: Store, caps: seq<CapRoot>)
    requires OnlySummaries(store) && a.InsertCaps(store, caps).Success?
    ensures var r := a.InsertCaps(store, caps).value;
            && OnlySummaries(r)
            && (forall i :: i in store.shards ==> i in r.shards && r.shards[i] == store.shards[i])
            && (forall c :: c in caps ==>
                  && a.IsShardIndex(c.shardIndex) && c.shardIndex in r.shards
                  && a.enc.fromBytes(c.root) == Some(r.shards[c.shardIndex].hash))
    decreases |caps|
  {
    if caps != [] {
      var c := caps[0];
      CapsStayApart(a, a.InsertCap(store, c.shardIndex, a.enc.fromBytes(c.root).value).value, caps[1..]);
      assert forall d :: d in caps ==> d == c || d in caps[1..];
    }
  }

  /** The root the list gives for a shard, by its first entry for it. */
  function CapFor(caps: seq<CapRoot>, i: nat): (c: CapRoot)
    requires HasCap(caps, i)
    ensures c in caps && c.shardIndex == i
  {
    if caps[0].shardIndex == i then caps[0] else CapFor(caps[1..], i)
  }

  /**
   * A list of shard roots is accepted if and only if every root decodes, every shard is in the tree, and no two
   * entries give one shard different roots.
   */
  lemma CapsAcceptedIff(a: Assembly, caps: seq<CapRoot>)
    requires a.Valid()
    ensures a.InsertCaps(EMPTY_STORE, caps).Success? <==>
              && (forall c :: c in caps ==> a.IsShardIndex(c.shardIndex) && a.enc.fromBytes(c.root).Some?)
              && (forall c, d :: c in caps && d in caps && c.shardIndex == d.shardIndex ==>
                    a.enc.fromBytes(c.root) == a.enc.fromBytes(d.root))
  {
    if a.InsertCaps(EMPTY_STORE, caps).Success? {
      CapsStayApart(a, EMPTY_STORE, caps);
    } else if (forall c :: c in caps ==> a.IsShardIndex(c.shardIndex) && a.enc.fromBytes(c.root).Some?)
              && (forall c, d :: c in caps && d in caps && c.shardIndex == d.shardIndex ==>
                    a.enc.fromBytes(c.root) == a.enc.fromBytes(d.root)) {
      var indices := set c | c in caps :: c.shardIndex;
      forall i | i in indices ensures HasCap(caps, i) {
      }
      var m := map i | i in indices :: a.enc.fromBytes(CapFor(caps, i).root).value;
      assert StoreOf(a, map[]) == EMPTY_STORE;
      CapsGiveStore(a, map[], caps, m);
    }
  }
}
