/**
 * `trial_decrypt_block`: outputs of a block are decrypted in batches, chunk by chunk, and the transactions
 * they belong to gathered in sets. The result is what a plain filter over the transactions gives.
 */
module TrialDecrypt {
  import opened Wrappers

  const COMPACT_NOTE_SIZE: nat := 52

  /** Fields as they come from the wire, of any length; `nf` is present for actions only. */
  datatype RawOutput = RawOutput(nf: seq<bv8>, commitment: seq<bv8>, ephemeralKey: seq<bv8>, ciphertext: seq<bv8>)

  datatype CompactOutput = CompactOutput(nullifier: seq<bv8>, commitment: seq<bv8>, ephemeralKey: seq<bv8>, ciphertext: seq<bv8>)

  datatype Transaction = Transaction(txid: string, sapling: seq<RawOutput>, orchard: seq<RawOutput>, ironwood: seq<RawOutput>)

  datatype Pool = Sapling | Orchard | Ironwood

  /** `Tagged(i, o)` is well-formed output `o` of the block's i-th transaction. */
  datatype Tagged = Tagged(index: nat, output: CompactOutput)

  /**
   * Which byte strings are field elements, and which outputs some viewing key opens. Sapling uses the Sapling
   * keys; Orchard and Ironwood share the Orchard keys but not the note format.
   */
  datatype Keys = Keys(
    isCommitment: (Pool, seq<bv8>) -> bool,
    isNullifier: seq<bv8> -> bool,
    opens: (Pool, CompactOutput) -> bool)
  {
    // ----- parsing -----

    /** Lengths and the commitment must be right. A bad nullifier of an action is replaced by zero, not refused. */
    function Parse(pool: Pool, raw: RawOutput): Option<CompactOutput> {
      if |raw.commitment| != 32 || |raw.ephemeralKey| != 32 || |raw.ciphertext| != COMPACT_NOTE_SIZE then None
      else if !isCommitment(pool, raw.commitment) then None
      else
        var zero := seq(32, _ => 0);
        var nf := if pool == Sapling || |raw.nf| != 32 || !isNullifier(raw.nf) then zero else raw.nf;
        Some(CompactOutput(nf, raw.commitment, raw.ephemeralKey, raw.ciphertext))
    }

    // ----- the specification -----

    /** The nullifier trial decryption sees: the one sent, if it is a valid one on an action, and 32 zero bytes otherwise. */
    function NullifierSeen(pool: Pool, raw: RawOutput): (nf: seq<bv8>)
      ensures if pool != Sapling && |raw.nf| == 32 && isNullifier(raw.nf) then nf == raw.nf
              else |nf| == 32 && forall i :: 0 <= i < 32 ==> nf[i] == 0
    {
      match pool
      case Sapling => seq(32, _ => 0)
      case _ => if |raw.nf| == 32 && isNullifier(raw.nf) then raw.nf else seq(32, _ => 0)
    }

    /** Well-formed: a 32-byte field element, a 32-byte key and a 52-byte ciphertext; and some key opens those. */
    predicate Matches(pool: Pool, raw: RawOutput) {
      && |raw.commitment| == 32 && isCommitment(pool, raw.commitment)
      && |raw.ephemeralKey| == 32
      && |raw.ciphertext| == 52
      && opens(pool, CompactOutput(NullifierSeen(pool, raw), raw.commitment, raw.ephemeralKey, raw.ciphertext))
    }

    predicate MatchesAny(pool: Pool, raws: seq<RawOutput>) {
      exists k :: 0 <= k < |raws| && Matches(pool, raws[k])
    }

    /** Some well-formed output of the transaction is opened by some key. */
    predicate IsOurs(tx: Transaction) {
      MatchesAny(Sapling, tx.sapling) || MatchesAny(Orchard, tx.orchard) || MatchesAny(Ironwood, tx.ironwood)
    }

    function Filtered(txs: seq<Transaction>): seq<string> {
      if txs == [] then []
      else (if IsOurs(txs[0]) then [txs[0].txid] else []) + Filtered(txs[1..])
    }

    // ----- the algorithm -----

    function ParseAll(pool: Pool, index: nat, raws: seq<RawOutput>): seq<Tagged> {
      if raws == [] then []
      else
        var rest := ParseAll(pool, index, raws[1..]);
        match Parse(pool, raws[0])
        case None => rest
        case Some(o) => [Tagged(index, o)] + rest
    }

    /** All well-formed outputs of one pool in block order, from transaction `index` on. */
    function Collect(pool: Pool, txs: seq<Transaction>, index: nat): seq<Tagged>
      decreases |txs| - index
    {
      if index >= |txs| then [] else ParseAll(pool, index, OutputsOf(pool, txs[index])) + Collect(pool, txs, index + 1)
    }

    /** The batch interface: one answer per output. */
    function DecryptBatch(pool: Pool, outputs: seq<CompactOutput>): (answers: seq<bool>)
      ensures |answers| == |outputs| && forall k :: 0 <= k < |outputs| ==> answers[k] == opens(pool, outputs[k])
    {
      seq(|outputs|, k requires 0 <= k < |outputs| => opens(pool, outputs[k]))
    }

    /** Indices of the transactions with an opened output in one chunk. */
    function MatchedInChunk(pool: Pool, chunk: seq<Tagged>): set<nat> {
      var answers := DecryptBatch(pool, seq(|chunk|, k requires 0 <= k < |chunk| => chunk[k].output));
      set k | 0 <= k < |chunk| && answers[k] :: chunk[k].index
    }

    /** Chunks are handled in parallel; a set does not depend on which finishes first. */
    function MatchedIn(pool: Pool, chunks: seq<seq<Tagged>>): set<nat> {
      set c, i | c in chunks && i in MatchedInChunk(pool, c) :: i
    }

    function Matched(pool: Pool, txs: seq<Transaction>, threads: nat): set<nat> {
      var raw := Collect(pool, txs, 0);
      if raw == [] then {}
      else
        var n := if threads < 1 then 1 else threads;
        var size := if |raw| / n < 1 then 1 else |raw| / n;
        MatchedIn(pool, Chunks(raw, size))
    }

    function Select(txs: seq<Transaction>, matched: set<nat>, index: nat): seq<string>
      decreases |txs| - index
    {
      if index >= |txs| then []
      else (if index in matched then [txs[index].txid] else []) + Select(txs, matched, index + 1)
    }

    function TrialDecryptBlock(txs: seq<Transaction>, threads: nat): seq<string> {
      Select(txs, Matched(Sapling, txs, threads) + Matched(Orchard, txs, threads) + Matched(Ironwood, txs, threads), 0)
    }
  }

  function OutputsOf(pool: Pool, tx: Transaction): seq<RawOutput> {
    match pool
    case Sapling => tx.sapling
    case Orchard => tx.orchard
    case Ironwood => tx.ironwood
  }

  /** Consecutive pieces of `size` elements, the last one possibly shorter. */
  function Chunks(s: seq<Tagged>, size: nat): seq<seq<Tagged>>
    requires size > 0
    decreases |s|
  {
    if s == [] then []
    else if |s| <= size then [s]
    else [s[..size]] + Chunks(s[size..], size)
  }

  function Flatten(chunks: seq<seq<Tagged>>): seq<Tagged> {
    if chunks == [] then [] else chunks[0] + Flatten(chunks[1..])
  }

  // ----- the algorithm is the filter -----

  lemma {:induction false} ChunksFlattenBack(s: seq<Tagged>, size: nat)
    requires size > 0
    ensures Flatten(Chunks(s, size)) == s
    decreases |s|
  {
    if s != [] && |s| > size {
      ChunksFlattenBack(s[size..], size);
      assert Chunks(s, size)[1..] == Chunks(s[size..], size);
    }
  }

  lemma {:induction false} FlattenHasAll(chunks: seq<seq<Tagged>>, t: Tagged)
    ensures t in Flatten(chunks) <==> exists c :: c in chunks && t in c
  {
    if chunks != [] {
      FlattenHasAll(chunks[1..], t);
      assert forall c :: c in chunks <==> c == chunks[0] || c in chunks[1..];
    }
  }

  lemma ChunkMatches(k: Keys, pool: Pool, chunk: seq<Tagged>, i: nat)
    ensures i in k.MatchedInChunk(pool, chunk) <==> exists t :: t in chunk && t.index == i && k.opens(pool, t.output)
  {
    var outputs := seq(|chunk|, j requires 0 <= j < |chunk| => chunk[j].output);
    var answers := k.DecryptBatch(pool, outputs);
    if i in k.MatchedInChunk(pool, chunk) {
      var j :| 0 <= j < |chunk| && answers[j] && chunk[j].index == i;
      assert outputs[j] == chunk[j].output && chunk[j] in chunk;
    }
    if t :| t in chunk && t.index == i && k.opens(pool, t.output) {
      var j :| 0 <= j < |chunk| && chunk[j] == t;
      assert outputs[j] == t.output && answers[j];
    }
  }

  /** Any chunking of the same outputs finds the same transactions. */
  lemma AnyChunkingMatchesSame(k: Keys, pool: Pool, chunks: seq<seq<Tagged>>, i: nat)
    ensures i in k.MatchedIn(pool, chunks) <==> exists t :: t in Flatten(chunks) && t.index == i && k.opens(pool, t.output)
  {
    if i in k.MatchedIn(pool, chunks) {
      var c :| c in chunks && i in k.MatchedInChunk(pool, c);
      ChunkMatches(k, pool, c, i);
      var t :| t in c && t.index == i && k.opens(pool, t.output);
      FlattenHasAll(chunks, t);
    }
    if t :| t in Flatten(chunks) && t.index == i && k.opens(pool, t.output) {
      FlattenHasAll(chunks, t);
      var c :| c in chunks && t in c;
      ChunkMatches(k, pool, c, i);
    }
  }

  /** Parsing accepts exactly the well-formed outputs and passes on the fields that were sent. */
  lemma ParsesIffWellFormed(k: Keys, pool: Pool, raw: RawOutput, o: CompactOutput)
    ensures k.Parse(pool, raw) == Some(o) <==>
              && |raw.commitment| == 32 && k.isCommitment(pool, raw.commitment)
              && |raw.ephemeralKey| == 32 && |raw.ciphertext| == 52
              && o == CompactOutput(k.NullifierSeen(pool, raw), raw.commitment, raw.ephemeralKey, raw.ciphertext)
  {
    assert seq(32, _ => 0 as bv8) == seq(32, _ => 0);
  }

  lemma {:induction false} ParsedOutputs(k: Keys, pool: Pool, index: nat, raws: seq<RawOutput>, t: Tagged)
    ensures t in k.ParseAll(pool, index, raws) <==>
              t.index == index && exists j :: 0 <= j < |raws| && k.Parse(pool, raws[j]) == Some(t.output)
  {
    if raws != [] {
      ParsedOutputs(k, pool, index, raws[1..], t);
      if t in k.ParseAll(pool, index, raws[1..]) {
        var j :| 0 <= j < |raws[1..]| && k.Parse(pool, raws[1..][j]) == Some(t.output);
        assert raws[j + 1] == raws[1..][j];
      }
      if j :| 0 <= j < |raws| && k.Parse(pool, raws[j]) == Some(t.output) {
        if j > 0 {
          assert raws[1..][j - 1] == raws[j];
        }
      }
    }
  }

  lemma {:induction false} CollectedOutputs(k: Keys, pool: Pool, txs: seq<Transaction>, from: nat, t: Tagged)
    ensures t in k.Collect(pool, txs, from) <==>
              from <= t.index < |txs| && t in k.ParseAll(pool, t.index, OutputsOf(pool, txs[t.index]))
    decreases |txs| - from
  {
    if from < |txs| {
      CollectedOutputs(k, pool, txs, from + 1, t);
      ParsedOutputs(k, pool, from, OutputsOf(pool, txs[from]), t);
    }
  }

  /** For every thread count, the matched indices are those of the transactions with a matching output. */
  lemma MatchedIsMatching(k: Keys, pool: Pool, txs: seq<Transaction>, threads: nat, i: nat)
    ensures i in k.Matched(pool, txs, threads) <==> i < |txs| && k.MatchesAny(pool, OutputsOf(pool, txs[i]))
  {
    var raw := k.Collect(pool, txs, 0);
    var n := if threads < 1 then 1 else threads;
    var size := if |raw| / n < 1 then 1 else |raw| / n;
    ChunksFlattenBack(raw, size);
    AnyChunkingMatchesSame(k, pool, Chunks(raw, size), i);
    if t :| t in raw && t.index == i && k.opens(pool, t.output) {
      CollectedOutputs(k, pool, txs, 0, t);
      ParsedOutputs(k, pool, i, OutputsOf(pool, txs[i]), t);
      var j :| 0 <= j < |OutputsOf(pool, txs[i])| && k.Parse(pool, OutputsOf(pool, txs[i])[j]) == Some(t.output);
      ParsesIffWellFormed(k, pool, OutputsOf(pool, txs[i])[j], t.output);
      assert k.Matches(pool, OutputsOf(pool, txs[i])[j]);
    }
    if i < |txs| && k.MatchesAny(pool, OutputsOf(pool, txs[i])) {
      var raws := OutputsOf(pool, txs[i]);
      var j :| 0 <= j < |raws| && k.Matches(pool, raws[j]);
      var o := CompactOutput(k.NullifierSeen(pool, raws[j]), raws[j].commitment, raws[j].ephemeralKey, raws[j].ciphertext);
      ParsesIffWellFormed(k, pool, raws[j], o);
      var t := Tagged(i, o);
      ParsedOutputs(k, pool, i, raws, t);
      CollectedOutputs(k, pool, txs, 0, t);
      assert t in raw;
    }
  }

  lemma {:induction false} SelectIsFilter(k: Keys, txs: seq<Transaction>, matched: set<nat>, from: nat)
    requires forall i: nat :: i < |txs| ==> (i in matched <==> k.IsOurs(txs[i]))
    requires from <= |txs|
    ensures k.Select(txs, matched, from) == k.Filtered(txs[from..])
    decreases |txs| - from
  {
    if from < |txs| {
      SelectIsFilter(k, txs, matched, from + 1);
      assert txs[from..][1..] == txs[from + 1..];
    }
  }

  /**
   * For every thread count the result is the plain ordered filter: transaction order and repeated txids are
   * kept, and malformed outputs neither match nor disturb the rest.
   */
  lemma BatchedIsPlainFilter(k: Keys, txs: seq<Transaction>, threads: nat)
    ensures k.TrialDecryptBlock(txs, threads) == k.Filtered(txs)
  {
    var matched := k.Matched(Sapling, txs, threads) + k.Matched(Orchard, txs, threads) + k.Matched(Ironwood, txs, threads);
    forall i: nat | i < |txs|
      ensures i in matched <==> k.IsOurs(txs[i])
    {
      MatchedIsMatching(k, Sapling, txs, threads, i);
      MatchedIsMatching(k, Orchard, txs, threads, i);
      MatchedIsMatching(k, Ironwood, txs, threads, i);
    }
    SelectIsFilter(k, txs, matched, 0);
    assert txs[0..] == txs;
  }

  lemma {:induction false} FilteredHasOurs(k: Keys, txs: seq<Transaction>, txid: string)
    ensures txid in k.Filtered(txs) <==> exists i :: 0 <= i < |txs| && txs[i].txid == txid && k.IsOurs(txs[i])
  {
    if txs != [] {
      FilteredHasOurs(k, txs[1..], txid);
      if i :| 0 <= i < |txs| && txs[i].txid == txid && k.IsOurs(txs[i]) {
        assert i > 0 ==> txs[1..][i - 1] == txs[i];
      }
      if i :| 0 <= i < |txs[1..]| && txs[1..][i].txid == txid && k.IsOurs(txs[1..][i]) {
        assert txs[i + 1] == txs[1..][i];
      }
    }
  }

  /** An output of the transaction, in the pool it was sent in, matches. */
  predicate HasMatchingOutput(k: Keys, tx: Transaction) {
    || (exists j :: 0 <= j < |tx.sapling| && k.Matches(Sapling, tx.sapling[j]))
    || (exists j :: 0 <= j < |tx.orchard| && k.Matches(Orchard, tx.orchard[j]))
    || (exists j :: 0 <= j < |tx.ironwood| && k.Matches(Ironwood, tx.ironwood[j]))
  }

  /** A txid is returned if and only if some transaction of that id has a well-formed output that some key opens. */
  lemma FoundIffOutputOpens(k: Keys, txs: seq<Transaction>, threads: nat, txid: string)
    ensures txid in k.TrialDecryptBlock(txs, threads) <==>
              exists i :: 0 <= i < |txs| && txs[i].txid == txid && HasMatchingOutput(k, txs[i])
  {
    BatchedIsPlainFilter(k, txs, threads);
    FilteredHasOurs(k, txs, txid);
    assert forall i :: 0 <= i < |txs| ==> (k.IsOurs(txs[i]) <==> HasMatchingOutput(k, txs[i]));
  }
}
