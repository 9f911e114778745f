/**
 * `transaction_details`: up to eight fetches in flight at a time, finishing in any order, and results in
 * request order. A run is any interleaving of starts and completions.
 */
module Details {
  import opened Wrappers

  const DETAILS_PIPELINE_DEPTH: nat := 8

  datatype Request = Request(txid: string, height: nat)
  datatype Fetched = Fetched(fee: Option<nat>, payees: seq<string>)
  datatype DetailsResult = DetailsResult(txid: string, fee: Option<nat>, payees: seq<string>)
  datatype Entry = Entry(position: nat, result: DetailsResult)

  /** One batch: the requests, and what fetching each of them yields; `None` is a failed fetch. */
  datatype Batch = Batch(requests: seq<Request>, fetch: Request -> Option<Fetched>) {

    /** What fetching one request alone reports: a failure leaves its own details unknown. */
    function ResultOf(request: Request): DetailsResult {
      match fetch(request)
      case None => DetailsResult(request.txid, None, [])
      case Some(f) => DetailsResult(request.txid, f.fee, f.payees)
    }

    function EntryAt(i: nat): Entry
      requires i < |requests|
    {
      Entry(i, ResultOf(requests[i]))
    }

    /** The first `n` entries in request order. */
    function Entries(n: nat): (entries: seq<Entry>)
      requires n <= |requests|
      ensures |entries| == n
      ensures forall i :: 0 <= i < n ==> entries[i] == EntryAt(i)
    {
      if n == 0 then [] else Entries(n - 1) + [EntryAt(n - 1)]
    }

    /** Fetching one after the other. */
    function Sequential(): (results: seq<DetailsResult>)
      ensures |results| == |requests|
    {
      seq(|requests|, i requires 0 <= i < |requests| => ResultOf(requests[i]))
    }
  }

  // ----- the pipeline -----

  datatype State = State(started: nat, inFlight: set<nat>, collected: seq<Entry>)

  datatype Event = Start | Complete(position: nat)

  const IDLE := State(0, {}, [])

  function Apply(b: Batch, s: State, e: Event): Option<State> {
    match e
    case Start =>
      if s.started < |b.requests| && |s.inFlight| < DETAILS_PIPELINE_DEPTH
      then Some(s.(started := s.started + 1, inFlight := s.inFlight + {s.started}))
      else None
    case Complete(i) =>
      if i in s.inFlight && i < |b.requests|
      then Some(s.(inFlight := s.inFlight - {i}, collected := s.collected + [b.EntryAt(i)]))
      else None
  }

  /** The state after a run; `None` if some event was not possible. */
  function Run(b: Batch, events: seq<Event>): Option<State> {
    if events == [] then Some(IDLE)
    else
      match Run(b, events[..|events| - 1])
      case None => None
      case Some(s) => Apply(b, s, events[|events| - 1])
  }

  predicate IsDone(b: Batch, s: State) {
    s.started == |b.requests| && s.inFlight == {}
  }

  /** What `sort_by_key` on the position guarantees. */
  ghost predicate IsSortOf(sorted: seq<Entry>, entries: seq<Entry>) {
    && multiset(sorted) == multiset(entries)
    && forall i, j :: 0 <= i < j < |sorted| ==> sorted[i].position <= sorted[j].position
  }

  function Results(entries: seq<Entry>): (results: seq<DetailsResult>)
    ensures |results| == |entries| && forall i :: 0 <= i < |entries| ==> results[i] == entries[i].result
  {
    seq(|entries|, i requires 0 <= i < |entries| => entries[i].result)
  }

  // ----- every step keeps -----

  predicate IsCollected(s: State, i: nat) {
    exists k :: 0 <= k < |s.collected| && s.collected[k].position == i
  }

  ghost predicate NoneLost(s: State) {
    forall i: nat :: i < s.started ==> i in s.inFlight || IsCollected(s, i)
  }

  /** Every started request is in flight or collected, never both, and collected once, with its own result. */
  ghost predicate Inv(b: Batch, s: State) {
    && NoneLost(s)
    && s.started <= |b.requests|
    && |s.inFlight| <= DETAILS_PIPELINE_DEPTH
    && s.started == |s.inFlight| + |s.collected|
    && (forall i :: i in s.inFlight ==> i < s.started)
    && (forall e :: e in s.collected ==> e.position < s.started && e.position !in s.inFlight && e == b.EntryAt(e.position))
    && (forall j, k :: 0 <= j < k < |s.collected| ==> s.collected[j].position != s.collected[k].position)
  }

  lemma NoneLostByStep(b: Batch, s: State, e: Event, t: State)
    requires NoneLost(s) && Apply(b, s, e) == Some(t)
    ensures NoneLost(t)
  {
    forall i: nat | i < t.started
      ensures i in t.inFlight || IsCollected(t, i)
    {
      if IsCollected(s, i) {
        var k :| 0 <= k < |s.collected| && s.collected[k].position == i;
        assert t.collected[k].position == i;
      } else if i < s.started && i !in t.inFlight {
        assert t.collected[|s.collected|].position == i;
      }
    }
  }

  lemma StepKeepsInv(b: Batch, s: State, e: Event)
    requires Inv(b, s) && Apply(b, s, e).Some?
    ensures Inv(b, Apply(b, s, e).value)
  {
    NoneLostByStep(b, s, e, Apply(b, s, e).value);
  }

  lemma {:induction false} RunKeepsInv(b: Batch, events: seq<Event>)
    requires Run(b, events).Some?
    ensures Inv(b, Run(b, events).value)
    ensures var s := Run(b, events).value; |events| == s.started + |s.collected|
  {
    if events != [] {
      var before := events[..|events| - 1];
      RunKeepsInv(b, before);
      StepKeepsInv(b, Run(b, before).value, events[|events| - 1]);
    }
  }

  /** At no point of any run are more than eight fetches in flight, and none is started twice. */
  lemma AtMostEightInFlight(b: Batch, events: seq<Event>)
    requires Run(b, events).Some?
    ensures |Run(b, events).value.inFlight| <= 8
    ensures forall i :: i in Run(b, events).value.inFlight ==> i < Run(b, events).value.started <= |b.requests|
  {
    RunKeepsInv(b, events);
  }

  /** Some step is possible until everything is collected, and every step counts down to the end. */
  lemma RunsEnd(b: Batch, events: seq<Event>)
    requires Run(b, events).Some?
    ensures var s := Run(b, events).value;
            && |events| <= 2 * |b.requests|
            && (IsDone(b, s) <==> |events| == 2 * |b.requests|)
            && (IsDone(b, s) || exists e :: Apply(b, s, e).Some?)
  {
    RunKeepsInv(b, events);
    var s := Run(b, events).value;
    if !IsDone(b, s) {
      if s.inFlight == {} {
        assert Apply(b, s, Start).Some?;
      } else {
        var i :| i in s.inFlight;
        assert Apply(b, s, Complete(i)).Some?;
      }
    }
  }

  // ----- the sorted result -----

  lemma {:induction false} DistinctCounts(s: seq<Entry>, x: Entry)
    requires forall j, k :: 0 <= j < k < |s| ==> s[j].position != s[k].position
    ensures multiset(s)[x] == if x in s then 1 else 0
  {
    if s != [] {
      var front, last := s[..|s| - 1], s[|s| - 1];
      assert s == front + [last];
      assert multiset(s) == multiset(front) + multiset{last};
      DistinctCounts(front, x);
    }
  }

  /** A finished run has collected every entry exactly once. */
  lemma CollectedIsAll(b: Batch, s: State)
    requires Inv(b, s) && IsDone(b, s)
    ensures multiset(s.collected) == multiset(b.Entries(|b.requests|))
  {
    var all := b.Entries(|b.requests|);
    forall x: Entry
      ensures multiset(s.collected)[x] == multiset(all)[x]
    {
      DistinctCounts(s.collected, x);
      DistinctCounts(all, x);
      if x in all {
        assert IsCollected(s, x.position);
      }
    }
  }

  lemma EntriesGrow(b: Batch, n: nat)
    requires n < |b.requests|
    ensures multiset(b.Entries(n + 1)) == multiset(b.Entries(n)) + multiset{b.EntryAt(n)}
  {
    assert b.Entries(n + 1) == b.Entries(n) + [b.EntryAt(n)];
  }

  lemma LastIsLargest(b: Batch, sorted: seq<Entry>, n: nat)
    requires 0 < n <= |b.requests| && IsSortOf(sorted, b.Entries(n))
    ensures |sorted| == n && sorted[n - 1] == b.EntryAt(n - 1)
  {
    assert |sorted| == |multiset(sorted)| == |multiset(b.Entries(n))| == n;
    var last := b.EntryAt(n - 1);
    assert b.Entries(n)[n - 1] == last;
    assert last in multiset(sorted);
    var k :| 0 <= k < n && sorted[k] == last;
    var x := sorted[n - 1];
    assert x in multiset(sorted);
    assert x in b.Entries(n);
    assert x.position >= n - 1;
  }

  lemma FrontIsSort(b: Batch, sorted: seq<Entry>, n: nat)
    requires 0 < n <= |b.requests| && IsSortOf(sorted, b.Entries(n))
    requires |sorted| == n && sorted[n - 1] == b.EntryAt(n - 1)
    ensures IsSortOf(sorted[..n - 1], b.Entries(n - 1))
  {
    var last, front := b.EntryAt(n - 1), sorted[..n - 1];
    assert sorted == front + [last];
    EntriesGrow(b, n - 1);
    assert multiset(front) + multiset{last} == multiset(b.Entries(n - 1)) + multiset{last};
    Cancel(multiset(front), multiset(b.Entries(n - 1)), last);
  }

  lemma Cancel(a: multiset<Entry>, b: multiset<Entry>, x: Entry)
    requires a + multiset{x} == b + multiset{x}
    ensures a == b
  {
    assert a == (a + multiset{x}) - multiset{x};
    assert b == (b + multiset{x}) - multiset{x};
  }

  lemma NothingSortsToNothing(sorted: seq<Entry>)
    requires IsSortOf(sorted, [])
    ensures sorted == []
  {
    assert |sorted| == |multiset(sorted)| == 0;
  }

  lemma {:induction false} SortedEntriesAreInOrder(b: Batch, sorted: seq<Entry>, n: nat)
    requires n <= |b.requests| && IsSortOf(sorted, b.Entries(n))
    ensures sorted == b.Entries(n)
  {
    if n == 0 {
      NothingSortsToNothing(sorted);
    } else {
      LastIsLargest(b, sorted, n);
      var last, front := b.EntryAt(n - 1), sorted[..n - 1];
      FrontIsSort(b, sorted, n);
      assert sorted == front + [last];
      SortedEntriesAreInOrder(b, front, n - 1);
    }
  }

  /**
   * However the fetches interleave, sorting what a finished run collected gives one result per request, in
   * request order, each the one its request yields on its own.
   */
  lemma FinishedRunIsSequential(b: Batch, events: seq<Event>, sorted: seq<Entry>)
    requires Run(b, events).Some? && IsDone(b, Run(b, events).value)
    requires IsSortOf(sorted, Run(b, events).value.collected)
    ensures Results(sorted) == b.Sequential()
  {
    RunKeepsInv(b, events);
    CollectedIsAll(b, Run(b, events).value);
    SortedEntriesAreInOrder(b, sorted, |b.requests|);
  }

  /**
   * What entry `i` of a finished run says: the id that was asked for, with the fee and payees that were fetched
   * for it, or with nothing known when the fetch failed.
   */
  lemma FinishedRunReportsEachFetch(b: Batch, events: seq<Event>, sorted: seq<Entry>, i: nat)
    requires Run(b, events).Some? && IsDone(b, Run(b, events).value)
    requires IsSortOf(sorted, Run(b, events).value.collected)
    requires i < |b.requests|
    ensures |Results(sorted)| == |b.requests|
    ensures var r := Results(sorted)[i];
            && r.txid == b.requests[i].txid
            && match b.fetch(b.requests[i])
               case None => r.fee == None && r.payees == []
               case Some(f) => r.fee == f.fee && r.payees == f.payees
  {
    FinishedRunIsSequential(b, events, sorted);
  }

  /** Nothing but the depth and the requests holds a step back: any interleaving of them is a run. */
  lemma StepsArePossibleIff(b: Batch, events: seq<Event>, i: nat)
    requires Run(b, events).Some?
    ensures var s := Run(b, events).value;
            && (Run(b, events + [Start]).Some? <==> s.started < |b.requests| && |s.inFlight| < 8)
            && (Run(b, events + [Complete(i)]).Some? <==> i in s.inFlight)
  {
    RunKeepsInv(b, events);
    assert (events + [Start])[..|events|] == events && (events + [Complete(i)])[..|events|] == events;
  }

  /** A failed fetch changes nothing but its own entry. */
  lemma FailureStaysLocal(b: Batch, failing: Batch, bad: Request, events: seq<Event>, events': seq<Event>,
                          sorted: seq<Entry>, sorted': seq<Entry>, i: nat)
    requires failing.requests == b.requests && i < |b.requests| && b.requests[i] != bad
    requires forall r :: r != bad ==> failing.fetch(r) == b.fetch(r)
    requires Run(b, events).Some? && IsDone(b, Run(b, events).value)
    requires Run(failing, events').Some? && IsDone(failing, Run(failing, events').value)
    requires IsSortOf(sorted, Run(b, events).value.collected)
    requires IsSortOf(sorted', Run(failing, events').value.collected)
    ensures |sorted| == |sorted'| == |b.requests| && sorted[i].result == sorted'[i].result
  {
    FinishedRunIsSequential(b, events, sorted);
    FinishedRunIsSequential(failing, events', sorted');
    assert Results(sorted)[i] == b.ResultOf(b.requests[i]);
    assert Results(sorted')[i] == failing.ResultOf(b.requests[i]);
  }
}
