/**
 * `compute_shard_root`: the root of one completed shard from its leaves, level by level. An
 * Orchard shard has height 16; here the height is any number.
 */
module ShardRoot {
  import opened Wrappers
  import opened MerkleTree

  datatype ShardError =
    | InvalidShardSize(got: nat, expected: nat)
    | InvalidLeaf(position: nat)

  /** One round: combines consecutive pairs of level-`level` nodes. */
  method CombinePairs(h: Hasher, level: nat, nodes: seq<Hash>) returns (next: seq<Hash>)
    requires |nodes| % 2 == 0
    ensures |next| == |nodes| / 2
    ensures forall j :: 0 <= j < |next| ==> next[j] == h.combine(level, nodes[2 * j], nodes[2 * j + 1])
  {
    next := [];
    var i := 0;
    while i < |nodes|
      invariant 0 <= i <= |nodes| && i % 2 == 0 && |next| == i / 2
      invariant forall j :: 0 <= j < |next| ==> next[j] == h.combine(level, nodes[2 * j], nodes[2 * j + 1])
    {
      next := next + [h.combine(level, nodes[i], nodes[i + 1])];
      i := i + 2;
    }
  }

  /**
   * The bottom-up reduction, for a shard of any height. The result is the Merkle root by halves of the
   * decoded leaves; a wrong size is reported before any leaf, and the first invalid leaf before any hashing.
   */
  method ComputeShardRoot(h: Hasher, enc: Encoding, height: nat, cmxs: seq<Bytes>)
      returns (r: Result<Bytes, ShardError>)
    ensures |cmxs| != Pow2(height) ==> r == Failure(InvalidShardSize(|cmxs|, Pow2(height)))
    ensures |cmxs| == Pow2(height) && enc.ParseLeaves(cmxs, 0).Failure? ==>
              r == Failure(InvalidLeaf(enc.ParseLeaves(cmxs, 0).error))
    ensures |cmxs| == Pow2(height) && enc.ParseLeaves(cmxs, 0).Success? ==>
              r == Success(enc.toBytes(h.RootByHalves(height, enc.ParseLeaves(cmxs, 0).value)))
  {
    var shardSize := Pow2(height);
    if |cmxs| != shardSize {
      return Failure(InvalidShardSize(|cmxs|, shardSize));
    }
    var parsed := enc.ParseLeaves(cmxs, 0);
    if parsed.Failure? {
      return Failure(InvalidLeaf(parsed.error));
    }
    var leaves := parsed.value;
    var nodes := leaves;
    for level := 0 to height
      invariant |nodes| == Pow2(height - level)
      invariant forall j: nat :: j < |nodes| ==> nodes[j] == h.Node(leaves, level, j)
    {
      nodes := CombinePairs(h, level, nodes);
    }
    h.NodeIsRootByHalves(height, leaves);
    return Success(enc.toBytes(nodes[0]));
  }

  /** A completed shard's root is the same wherever the shard lies: it is that node of the whole tree. */
  lemma ShardRootIsIndexFree(h: Hasher, height: nat, all: seq<Hash>, shard: nat)
    requires First(height, shard) + Pow2(height) <= |all|
    ensures var base := First(height, shard);
            h.RootByHalves(height, all[base..base + Pow2(height)]) == h.Node(all, height, shard)
  {
    var base := First(height, shard);
    var leaves := all[base..base + Pow2(height)];
    FirstOfZero(height);
    forall k: nat | k < Pow2(height)
      ensures h.SameLeaf(leaves, First(height, 0), all, base, k)
    {
    }
    h.NodeIsLocal(leaves, 0, all, shard, height);
    h.NodeIsRootByHalves(height, leaves);
  }

  /** A shard of empty leaves has the empty root of its height. */
  lemma {:induction false} EmptyShardRoot(h: Hasher, height: nat, leaves: seq<Hash>)
    requires |leaves| == Pow2(height)
    requires forall i :: 0 <= i < |leaves| ==> leaves[i] == h.emptyLeaf
    ensures h.RootByHalves(height, leaves) == h.EmptyRoot(height)
  {
    if height > 0 {
      var half := Pow2(height - 1);
      EmptyShardRoot(h, height - 1, leaves[..half]);
      EmptyShardRoot(h, height - 1, leaves[half..]);
    }
  }
}
