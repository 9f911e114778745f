/**
 * `build_witnesses`: assembles a depth-32 tree from summarised shard roots, the frontier and the leaves of a
 * few shards, then checks every path it hands out against the anchor.
 */
module Witness {
  import opened Wrappers
  import opened MerkleTree
  import opened SparseTree
  import opened Frontier

  datatype CapRoot = CapRoot(shardIndex: nat, root: Bytes)
  datatype ShardLeaves = ShardLeaves(shardIndex: nat, cmxs: seq<Bytes>)
  datatype SpendNote = SpendNote(position: nat, cmx: Bytes)
  datatype MerklePath = MerklePath(position: nat, elements: seq<Hash>)

  datatype WitnessInputs = WitnessInputs(
    capRoots: seq<CapRoot>,
    frontierBytes: seq<bv8>,
    anchorHeight: nat,
    shardLeaves: seq<ShardLeaves>,
    notes: seq<SpendNote>)

  datatype WitnessOutput = WitnessOutput(anchor: Bytes, anchorHeight: nat, witnesses: seq<MerklePath>)

  datatype WitnessError =
    | InvalidShardRoot(shardIndex: nat)
    | InvalidLeaf(position: nat)
    | FrontierFailure(reason: FrontierError)
    | ShardTreeFailure
    | NoCheckpointForAnchor(anchorHeight: nat)
    | WitnessMismatch(at: nat, expected: Bytes, got: Bytes)

  datatype Checkpoint = TreeEmpty | AtPosition(position: nat)

  /** The cap holds nodes at shard height and above, `shards` the subtrees below, by shard index. */
  datatype Store = Store(cap: Sparse, shards: map<nat, Sparse>, checkpoint: Option<Checkpoint>) {
    function Shard(s: nat): Sparse {
      if s in shards then shards[s] else Nil
    }
  }

  const EMPTY_STORE := Store(Nil, map[], None)

  /** A tree of any depth and shard height (32 and 16 for Orchard) over any hash function; `read` parses the frontier's wire format. */
  datatype Assembly = Assembly(
    h: Hasher,
    enc: Encoding,
    depth: nat,
    shardHeight: nat,
    read: seq<bv8> -> Option<CommitmentTree>)
  {
    ghost predicate Valid() {
      0 < shardHeight < depth
    }

    predicate IsShardIndex(s: nat) {
      First(shardHeight, s) < Pow2(depth)
    }

    // ----- steps 2 to 4: filling the store -----

    /** A summary hash goes to both stores: the cap and the shard store. */
    function InsertCap(store: Store, s: nat, root: Hash): Option<Store> {
      if !IsShardIndex(s) then None
      else
        var cap := Insert(store.cap, depth, 0, shardHeight, s, Leaf(root, false));
        var shard := Merge(store.Shard(s), Leaf(root, false));
        if cap.Some? && shard.Some?
        then Some(store.(cap := cap.value, shards := store.shards[s := shard.value]))
        else None
    }

    function InsertCaps(store: Store, capRoots: seq<CapRoot>): Result<Store, WitnessError>
      decreases |capRoots|
    {
      if capRoots == [] then Success(store)
      else
        var c := capRoots[0];
        match enc.fromBytes(c.root)
        case None => Failure(InvalidShardRoot(c.shardIndex))
        case Some(root) =>
          match InsertCap(store, c.shardIndex, root)
          case None => Failure(ShardTreeFailure)
          case Some(next) => InsertCaps(next, capRoots[1..])
    }

    /** A single node: below shard height it belongs to its shard, otherwise to the cap. */
    function PlaceNode(store: Store, level: nat, index: nat, hash: Hash): Option<Store> {
      if level < shardHeight then
        var s := Shr(index, shardHeight - level);
        var shard := Insert(store.Shard(s), shardHeight, s, level, index, Leaf(hash, false));
        if shard.Some? then Some(store.(shards := store.shards[s := shard.value])) else None
      else
        var cap := Insert(store.cap, depth, 0, level, index, Leaf(hash, false));
        if cap.Some? then Some(store.(cap := cap.value)) else None
    }

    function PlaceOmmers(store: Store, level: nat, index: nat, ommers: seq<Hash>): Option<Store>
      decreases depth - level
    {
      if level >= depth then Some(store)
      else if index % 2 == 0 then PlaceOmmers(store, level + 1, index / 2, ommers)
      else if ommers == [] then None
      else
        match PlaceNode(store, level, index - 1, ommers[0])
        case None => None
        case Some(next) => PlaceOmmers(next, level + 1, index / 2, ommers[1..])
    }

    function InsertFrontier(store: Store, frontier: Option<NonEmptyFrontier>): Option<Store> {
      match frontier
      case None => Some(store.(checkpoint := Some(TreeEmpty)))
      case Some(f) =>
        if f.position >= Pow2(depth) then None
        else
          match PlaceNode(store, 0, f.position, f.leaf)
          case None => None
          case Some(next) => PlaceOmmers(next.(checkpoint := Some(AtPosition(f.position))), 0, f.position, f.ommers)
    }

    /** Leaves from the start of shard `s` on; more than a shard holds spill into the next one. */
    function BatchInsert(store: Store, s: nat, run: seq<Hash>, marked: set<nat>): Option<Store>
      decreases |run|
    {
      if run == [] then Some(store)
      else if !IsShardIndex(s) then None
      else
        var take := if |run| <= Pow2(shardHeight) then |run| else Pow2(shardHeight);
        var sub := Build(h, shardHeight, s, run[..take], First(shardHeight, s), marked);
        match Merge(store.Shard(s), sub)
        case None => None
        case Some(shard) => BatchInsert(store.(shards := store.shards[s := shard]), s + 1, run[take..], marked)
    }

    function InsertShards(store: Store, shardLeaves: seq<ShardLeaves>, marked: set<nat>): Result<Store, WitnessError>
      decreases |shardLeaves|
    {
      if shardLeaves == [] then Success(store)
      else
        var shard := shardLeaves[0];
        match enc.ParseLeaves(shard.cmxs, First(shardHeight, shard.shardIndex))
        case Failure(position) => Failure(InvalidLeaf(position))
        case Success(run) =>
          match BatchInsert(store, shard.shardIndex, run, marked)
          case None => Failure(ShardTreeFailure)
          case Some(next) => InsertShards(next, shardLeaves[1..], marked)
    }

    // ----- steps 5 and 6: reading the anchor and the paths -----

    /** Root of a cap node: its summary when complete, else its children's, else its shard's. */
    function RootFrom(shards: map<nat, Sparse>, t: Sparse, level: nat, index: nat, n: nat): Option<Hash>
      decreases level
    {
      if n <= First(level, index) then Some(h.EmptyRoot(level))
      else if First(level, index + 1) <= n && t.Summary().Some? then t.Summary()
      else if level <= shardHeight then
        if index in shards then RootHash(h, shards[index], level, index, n) else None
      else
        Combined(h, level - 1, RootFrom(shards, t.Left(), level - 1, 2 * index, n),
                 RootFrom(shards, t.Right(), level - 1, 2 * index + 1, n))
    }

    /** Root of node `atIndex` of `atLevel`, found by walking down the cap. */
    function RootAt(shards: map<nat, Sparse>, t: Sparse, level: nat, index: nat, atLevel: nat, atIndex: nat, n: nat)
      : Option<Hash>
      decreases level
    {
      if level <= atLevel then RootFrom(shards, t, level, index, n)
      else if First(atLevel, atIndex) < Middle(level, index) then
        RootAt(shards, t.Left(), level - 1, 2 * index, atLevel, atIndex, n)
      else
        RootAt(shards, t.Right(), level - 1, 2 * index + 1, atLevel, atIndex, n)
    }

    function PathAbove(store: Store, level: nat, index: nat, n: nat): (path: Option<seq<Hash>>)
      requires level <= depth
      ensures path.Some? ==> |path.value| == depth - level
      decreases depth - level
    {
      if level == depth then Some([])
      else
        var sibling := RootAt(store.shards, store.cap, depth, 0, level, Sibling(index), n);
        var rest := PathAbove(store, level + 1, index / 2, n);
        if sibling.Some? && rest.Some? then Some([sibling.value] + rest.value) else None
    }

    function Anchor(store: Store, anchorHeight: nat): Result<Hash, WitnessError> {
      match store.checkpoint
      case None => Failure(NoCheckpointForAnchor(anchorHeight))
      case Some(TreeEmpty) => Success(h.EmptyRoot(depth))
      case Some(AtPosition(last)) =>
        match RootFrom(store.shards, store.cap, depth, 0, last + 1)
        case None => Failure(ShardTreeFailure)
        case Some(root) => Success(root)
    }

    function WitnessFor(store: Store, anchorHeight: nat, position: nat): Result<seq<Hash>, WitnessError>
      requires Valid()
    {
      match store.checkpoint
      case None => Failure(NoCheckpointForAnchor(anchorHeight))
      case Some(TreeEmpty) => Failure(ShardTreeFailure)
      case Some(AtPosition(last)) =>
        var s := Shr(position, shardHeight);
        if position > last || s !in store.shards then Failure(ShardTreeFailure)
        else
          var low := WitnessIn(h, store.shards[s], shardHeight, s, position, last + 1);
          var high := PathAbove(store, shardHeight, s, last + 1);
          if low.Some? && high.Some? then Success(low.value + high.value) else Failure(ShardTreeFailure)
    }

    /** The checked path of one note. */
    function NotePath(store: Store, anchorHeight: nat, anchor: Bytes, note: SpendNote): Result<MerklePath, WitnessError>
      requires Valid()
    {
      match WitnessFor(store, anchorHeight, note.position)
      case Failure(e) => Failure(e)
      case Success(path) =>
        match enc.fromBytes(note.cmx)
        case None => Failure(InvalidLeaf(note.position))
        case Some(leaf) =>
          var computed := enc.toBytes(h.PathRoot(leaf, 0, note.position, path));
          if computed != anchor then Failure(WitnessMismatch(note.position, anchor, computed))
          else Success(MerklePath(note.position, path))
    }

    function NotePaths(store: Store, anchorHeight: nat, anchor: Bytes, notes: seq<SpendNote>)
      : Result<seq<MerklePath>, WitnessError>
      requires Valid()
    {
      if notes == [] then Success([])
      else
        match NotePath(store, anchorHeight, anchor, notes[0])
        case Failure(e) => Failure(e)
        case Success(path) =>
          match NotePaths(store, anchorHeight, anchor, notes[1..])
          case Failure(e) => Failure(e)
          case Success(rest) => Success([path] + rest)
    }

    /** The store after step 4. */
    function Filled(inputs: WitnessInputs): Result<Store, WitnessError> {
      match InsertCaps(EMPTY_STORE, inputs.capRoots)
      case Failure(e) => Failure(e)
      case Success(capped) =>
        match DecodeFrontier(read, inputs.frontierBytes)
        case Failure(e) => Failure(FrontierFailure(e))
        case Success(frontier) =>
          match InsertFrontier(capped, frontier)
          case None => Failure(ShardTreeFailure)
          case Some(edged) => InsertShards(edged, inputs.shardLeaves, set note | note in inputs.notes :: note.position)
    }

    /** What `build_witnesses` returns. */
    function Outcome(inputs: WitnessInputs): Result<WitnessOutput, WitnessError>
      requires Valid()
    {
      match Filled(inputs)
      case Failure(e) => Failure(e)
      case Success(store) =>
        match Anchor(store, inputs.anchorHeight)
        case Failure(e) => Failure(e)
        case Success(root) =>
          var anchor := enc.toBytes(root);
          match NotePaths(store, inputs.anchorHeight, anchor, inputs.notes)
          case Failure(e) => Failure(e)
          case Success(witnesses) => Success(WitnessOutput(anchor, inputs.anchorHeight, witnesses))
    }

    // ----- the loops of `build_witnesses`, over a store that changes step by step -----

    method InsertAllCaps(capRoots: seq<CapRoot>) returns (r: Result<Store, WitnessError>)
      ensures r == InsertCaps(EMPTY_STORE, capRoots)
    {
      var store := EMPTY_STORE;
      var i := 0;
      while i < |capRoots|
        invariant 0 <= i <= |capRoots|
        invariant InsertCaps(EMPTY_STORE, capRoots) == InsertCaps(store, capRoots[i..])
      {
        var c := capRoots[i];
        var root := enc.fromBytes(c.root);
        if root == None {
          return Failure(InvalidShardRoot(c.shardIndex));
        }
        var next := InsertCap(store, c.shardIndex, root.value);
        if next == None {
          return Failure(ShardTreeFailure);
        }
        assert capRoots[i..][1..] == capRoots[i + 1..];
        store := next.value;
        i := i + 1;
      }
      return Success(store);
    }

    method InsertAllShards(before: Store, shardLeaves: seq<ShardLeaves>, marked: set<nat>)
        returns (r: Result<Store, WitnessError>)
      ensures r == InsertShards(before, shardLeaves, marked)
    {
      var store := before;
      var i := 0;
      while i < |shardLeaves|
        invariant 0 <= i <= |shardLeaves|
        invariant InsertShards(before, shardLeaves, marked) == InsertShards(store, shardLeaves[i..], marked)
      {
        var shard := shardLeaves[i];
        var run := enc.ParseLeaves(shard.cmxs, First(shardHeight, shard.shardIndex));
        if run.Failure? {
          return Failure(InvalidLeaf(run.error));
        }
        var next := BatchInsert(store, shard.shardIndex, run.value, marked);
        if next == None {
          return Failure(ShardTreeFailure);
        }
        assert shardLeaves[i..][1..] == shardLeaves[i + 1..];
        store := next.value;
        i := i + 1;
      }
      return Success(store);
    }

    method CollectPaths(store: Store, anchorHeight: nat, anchor: Bytes, notes: seq<SpendNote>)
        returns (r: Result<seq<MerklePath>, WitnessError>)
      requires Valid()
      ensures r == NotePaths(store, anchorHeight, anchor, notes)
    {
      var witnesses: seq<MerklePath> := [];
      var i := 0;
      ghost var all := NotePaths(store, anchorHeight, anchor, notes);
      assert all.Success? ==> [] + all.value == all.value;
      assert notes[0..] == notes;
      while i < |notes|
        invariant 0 <= i <= |notes|
        invariant NotePaths(store, anchorHeight, anchor, notes)
               == Prepend(witnesses, NotePaths(store, anchorHeight, anchor, notes[i..]))
      {
        var path := NotePath(store, anchorHeight, anchor, notes[i]);
        if path.Failure? {
          return Failure(path.error);
        }
        assert notes[i..][1..] == notes[i + 1..];
        ghost var rest := NotePaths(store, anchorHeight, anchor, notes[i + 1..]);
        assert rest.Success? ==> witnesses + ([path.value] + rest.value) == (witnesses + [path.value]) + rest.value;
        witnesses := witnesses + [path.value];
        i := i + 1;
      }
      assert notes[i..] == [] && witnesses + [] == witnesses;
      return Success(witnesses);
    }

    method BuildWitnesses(inputs: WitnessInputs) returns (r: Result<WitnessOutput, WitnessError>)
      requires Valid()
      ensures r == Outcome(inputs)
    {
      var store :- InsertAllCaps(inputs.capRoots);
      var frontier := DecodeFrontier(read, inputs.frontierBytes);
      if frontier.Failure? {
        return Failure(FrontierFailure(frontier.error));
      }
      var edged := InsertFrontier(store, frontier.value);
      if edged == None {
        return Failure(ShardTreeFailure);
      }
      var marked := set note | note in inputs.notes :: note.position;
      store :- InsertAllShards(edged.value, inputs.shardLeaves, marked);
      var root :- Anchor(store, inputs.anchorHeight);
      var anchor := enc.toBytes(root);
      var witnesses :- CollectPaths(store, inputs.anchorHeight, anchor, inputs.notes);
      return Success(WitnessOutput(anchor, inputs.anchorHeight, witnesses));
    }
  }

  ghost function Prepend<T, E>(done: seq<T>, rest: Result<seq<T>, E>): Result<seq<T>, E> {
    match rest
    case Failure(e) => Failure(e)
    case Success(tail) => Success(done + tail)
  }
}
