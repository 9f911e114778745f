/** `build_chunks`: a block range split for scanning, and the chunk count that `cmd_sync` announces. */
module Chunks {
  import opened Wrappers

  const U32_MAX: nat := 0xFFFF_FFFF

  datatype Chunk = Chunk(first: nat, last: nat)

  function Min(a: nat, b: nat): nat {
    if a <= b then a else b
  }

  /** Where chunk `i` starts if all before it are full. */
  function StartAt(start: nat, size: nat, i: nat): nat {
    if i == 0 then start else StartAt(start, size, i - 1) + size
  }

  lemma {:induction false} StartIsProduct(start: nat, size: nat, i: nat)
    ensures StartAt(start, size, i) == start + i * size
  {
    if i > 0 {
      StartIsProduct(start, size, i - 1);
      assert (i - 1) * size + size == i * size;
    }
  }

  /** Chunk `i` of a range: full, except that the last one stops at `end`. */
  function ChunkAt(start: nat, end: nat, size: nat, i: nat): Chunk
    requires size > 0
  {
    Chunk(StartAt(start, size, i), Min(StartAt(start, size, i) + size - 1, end))
  }

  /** Number of chunks after the first. */
  function FullSteps(start: nat, end: nat, size: nat): nat
    requires start <= end && size > 0
  {
    (end - start) / size
  }

  function LastStart(start: nat, end: nat, size: nat): nat
    requires start <= end && size > 0
  {
    start + FullSteps(start, end, size) * size
  }

  function DivCeil(a: nat, b: nat): nat
    requires b > 0
  {
    if a % b == 0 then a / b else a / b + 1
  }

  /** The count printed by `cmd_sync`: it saturates where `build_chunks` returns nothing. */
  function AnnouncedChunks(start: nat, end: nat, size: nat): nat
    requires size > 0
  {
    DivCeil((if end >= start then end - start else 0) + 1, size)
  }

  /** The number of chunks `build_chunks` returns. */
  function ChunkCount(start: nat, end: nat, size: nat): nat
    requires size > 0
  {
    if start <= end then FullSteps(start, end, size) + 1 else 0
  }

  /** Every chunk is non-empty, at most `size` long, and starts right after the one before; together they are [start, end]. */
  predicate Partitions(chunks: seq<Chunk>, start: nat, end: nat, size: nat) {
    && chunks != []
    && chunks[0].first == start
    && chunks[|chunks| - 1].last == end
    && (forall i :: 0 <= i < |chunks| ==> chunks[i].first <= chunks[i].last)
    && (forall i :: 0 <= i < |chunks| - 1 ==> chunks[i].last - chunks[i].first + 1 == size)
    && chunks[|chunks| - 1].last - chunks[|chunks| - 1].first + 1 <= size
    && (forall i :: 0 < i < |chunks| ==> chunks[i].first == chunks[i - 1].last + 1)
  }

  lemma StepsAre(start: nat, end: nat, size: nat, k: nat)
    requires start <= end && size > 0
    requires StartAt(start, size, k) <= end < StartAt(start, size, k) + size
    ensures FullSteps(start, end, size) == k && LastStart(start, end, size) == StartAt(start, size, k)
    ensures ChunkCount(start, end, size) == k + 1 == AnnouncedChunks(start, end, size)
  {
    StartIsProduct(start, size, k);
    var d := end - start;
    DivisionIs(d, size, k);
    if d + 1 == k * size + size {
      assert d + 1 == (k + 1) * size;
      DivisionIs(d + 1, size, k + 1);
    } else {
      DivisionIs(d + 1, size, k);
    }
  }

  lemma DivisionIs(a: nat, b: nat, q: nat)
    requires b > 0 && q * b <= a < q * b + b
    ensures a / b == q && a % b == a - q * b
  {
    var r := a / b;
    assert r * b <= a < r * b + b;
    if r < q {
      assert (r + 1) * b <= q * b by { Monotone(r + 1, q, b); }
    } else if q < r {
      assert (q + 1) * b <= r * b by { Monotone(q + 1, r, b); }
    }
  }

  lemma Monotone(x: nat, y: nat, b: nat)
    requires x <= y
    ensures x * b <= y * b
  {
  }

  lemma LastStartIsAtLeast(start: nat, end: nat, size: nat, k: nat)
    requires start <= end && size > 0 && StartAt(start, size, k) <= end
    ensures StartAt(start, size, k) <= LastStart(start, end, size) <= end < LastStart(start, end, size) + size
  {
    StartIsProduct(start, size, k);
    var q := FullSteps(start, end, size);
    if q < k {
      Monotone(q + 1, k, size);
    } else {
      Monotone(k, q, size);
    }
  }

  /**
   * The loop in 32-bit arithmetic; `None` when an addition leaves the range. That happens exactly when the
   * last chunk's start plus the chunk size does.
   */
  method BuildChunks(start: nat, end: nat, size: nat) returns (r: Option<seq<Chunk>>)
    requires start <= U32_MAX && end <= U32_MAX && 0 < size <= U32_MAX
    ensures r.Some? ==> |r.value| == ChunkCount(start, end, size)
    ensures start > end ==> r == Some([])
    ensures start <= end ==> (r == None <==> LastStart(start, end, size) + size > U32_MAX)
    ensures start <= end && r.Some? ==>
              && Partitions(r.value, start, end, size)
              && forall i :: 0 <= i < |r.value| ==> r.value[i] == ChunkAt(start, end, size, i)
  {
    if start > end {
      return Some([]);
    }
    LastStartIsAtLeast(start, end, size, 0);
    if end - start + 1 > U32_MAX {
      return None;
    }
    var v: seq<Chunk> := [];
    var h := start;
    ghost var k := 0;
    while h <= end
      invariant k == |v| && h <= end + 1
      invariant forall i :: 0 <= i < k ==> v[i] == ChunkAt(start, end, size, i)
      invariant h <= end ==> h == StartAt(start, size, k)
      invariant h == end + 1 ==> k > 0 && IsLastStep(start, end, size, k - 1) && StartAt(start, size, k - 1) + size <= U32_MAX
      decreases end + 1 - h
    {
      LastStartIsAtLeast(start, end, size, k);
      if h + size > U32_MAX {
        return None;
      }
      var chunkEnd := Min(h + size - 1, end);
      v := v + [Chunk(h, chunkEnd)];
      if chunkEnd + 1 > U32_MAX {
        return None;
      }
      h := chunkEnd + 1;
      k := k + 1;
    }
    StepsAre(start, end, size, k - 1);
    StepsPartition(v, start, end, size);
    return Some(v);
  }

  predicate IsLastStep(start: nat, end: nat, size: nat, k: nat) {
    StartAt(start, size, k) <= end < StartAt(start, size, k) + size
  }

  lemma StepsPartition(chunks: seq<Chunk>, start: nat, end: nat, size: nat)
    requires chunks != [] && size > 0
    requires forall i :: 0 <= i < |chunks| ==> chunks[i] == ChunkAt(start, end, size, i)
    requires IsLastStep(start, end, size, |chunks| - 1)
    ensures Partitions(chunks, start, end, size)
  {
    var last := |chunks| - 1;
    forall i | 0 <= i < last
      ensures chunks[i].last - chunks[i].first + 1 == size
      ensures chunks[i + 1].first == chunks[i].last + 1
    {
      StartsAscend(start, size, i + 1, last);
    }
    forall i | 0 < i < |chunks|
      ensures chunks[i].first == chunks[i - 1].last + 1
    {
      assert chunks[(i - 1) + 1].first == chunks[i - 1].last + 1;
    }
  }

  lemma {:induction false} StartsAscend(start: nat, size: nat, i: nat, j: nat)
    requires i <= j
    ensures StartAt(start, size, i) <= StartAt(start, size, j)
  {
    if i < j {
      StartsAscend(start, size, i, j - 1);
    }
  }

  /** The chunks cover every block of the range exactly once. */
  lemma EachBlockInOneChunk(chunks: seq<Chunk>, start: nat, end: nat, size: nat, block: nat)
    requires Partitions(chunks, start, end, size)
    ensures start <= block <= end <==> exists i :: 0 <= i < |chunks| && chunks[i].first <= block <= chunks[i].last
    ensures forall i, j :: 0 <= i < j < |chunks| ==>
              !(chunks[i].first <= block <= chunks[i].last && chunks[j].first <= block <= chunks[j].last)
  {
    forall i, j | 0 <= i < j < |chunks|
      ensures chunks[i].last < chunks[j].first
    {
      ChunksAscend(chunks, start, end, size, i, j);
    }
    forall i | 0 <= i < |chunks|
      ensures start <= chunks[i].first && chunks[i].last <= end
    {
    }
    if start <= block <= end {
      var i := 0;
      while chunks[i].last < block
        invariant 0 <= i < |chunks| && chunks[i].first <= block
        decreases |chunks| - i
      {
        assert i != |chunks| - 1;
        i := i + 1;
        assert chunks[i].first == chunks[i - 1].last + 1;
      }
    }
  }

  lemma {:induction false} ChunksAscend(chunks: seq<Chunk>, start: nat, end: nat, size: nat, i: nat, j: nat)
    requires Partitions(chunks, start, end, size) && i < j < |chunks|
    ensures chunks[i].last < chunks[j].first
    decreases j - i
  {
    assert chunks[j].first == chunks[j - 1].last + 1;
    if i + 1 < j {
      ChunksAscend(chunks, start, end, size, i, j - 1);
    }
  }

  /** What the documentation asks of its callers is enough: with `end + size` in range nothing overflows. */
  lemma RoomAboveEndIsEnough(start: nat, end: nat, size: nat)
    requires start <= end && 0 < size && end + size <= U32_MAX
    ensures LastStart(start, end, size) + size <= U32_MAX
  {
    LastStartIsAtLeast(start, end, size, 0);
  }

  /** The announced count is the real one exactly for a non-empty range: for an empty one it says 1. */
  lemma AnnouncedCountIsRealIffNonEmpty(start: nat, end: nat, size: nat)
    requires size > 0
    ensures AnnouncedChunks(start, end, size) == ChunkCount(start, end, size) <==> start <= end
    ensures start > end ==> AnnouncedChunks(start, end, size) == 1 && ChunkCount(start, end, size) == 0
  {
    if start <= end {
      LastStartIsAtLeast(start, end, size, 0);
      StartIsProduct(start, size, FullSteps(start, end, size));
      StepsAre(start, end, size, FullSteps(start, end, size));
    } else {
      assert DivCeil(1, size) == 1;
    }
  }
}
