/** Runs that keep to a rule, and the uninterleaved methods of the worker object as such runs. */
module Schedule {
  import opened Order
  import opened Catalog
  import opened Protocol
  import opened Enrichment
  import opened Progress
  import W = Workers

  /** What a run may do: serve work accepted already, with store calls failing freely; the same
      with sweeps, a given source answering every Lookup; or serve accepted work with that source,
      status reads being answered and metadata saved. */
  datatype Rule = Serving | Sweeping(source: W.Provider) | Answering(source: W.Provider)

  /** What the source says. */
  predicate Heard(p: W.Provider, s: State, a: Step) {
    a.EndLookup? && WorkerAt(s, a.w).LookingUp? ==> a.found == p.lookup(WorkerAt(s, a.w).isbn)
  }

  predicate Admits(r: Rule, s: State, a: Step) {
    match r
    case Serving => Internal(a)
    case Sweeping(p) => (Internal(a) || a.Sweep?) && Heard(p, s, a)
    case Answering(p) =>
      Internal(a) && Heard(p, s, a) && (a.ReadStatus? ==> a.acked) && (a.PutMetadata? ==> a.committed)
  }

  /** `steps` is a run from `s` to `e` within the rule. */
  ghost predicate Leads(r: Rule, s: State, steps: seq<Step>, e: State)
    decreases steps
  {
    if steps == [] then s == e
    else Enabled(s, steps[0]) && Admits(r, s, steps[0]) && Leads(r, Do(s, steps[0]), steps[1..], e)
  }

  ghost predicate Reaches(r: Rule, s: State, e: State) {
    exists steps :: Leads(r, s, steps, e)
  }

  lemma {:induction false} LeadsConcat(r: Rule, s: State, a: seq<Step>, m: State, b: seq<Step>, e: State)
    requires Leads(r, s, a, m) && Leads(r, m, b, e)
    ensures Leads(r, s, a + b, e)
    decreases a
  {
    ConsConcat(a, b);
    if a != [] { LeadsConcat(r, Do(s, a[0]), a[1..], m, b, e); }
  }

  lemma OneStep(r: Rule, s: State, a: Step)
    requires Enabled(s, a) && Admits(r, s, a)
    ensures Leads(r, s, [a], Do(s, a))
  {
    assert [a][1..] == [];
  }

  lemma Stay(r: Rule, s: State)
    ensures Reaches(r, s, s)
  {
    assert Leads(r, s, [], s);
  }

  lemma Then(r: Rule, s: State, m: State, e: State)
    requires Reaches(r, s, m) && Reaches(r, m, e)
    ensures Reaches(r, s, e)
  {
    var a :| Leads(r, s, a, m);
    var b :| Leads(r, m, b, e);
    LeadsConcat(r, s, a, m, b, e);
  }

  lemma Move(r: Rule, s: State, a: Step)
    requires Enabled(s, a) && Admits(r, s, a)
    ensures Reaches(r, s, Do(s, a))
  {
    OneStep(r, s, a);
  }

  /** One more step at the end. */
  lemma Extend(r: Rule, s: State, m: State, a: Step) returns (e: State)
    requires Reaches(r, s, m) && Enabled(m, a) && Admits(r, m, a)
    ensures Reaches(r, s, e) && e == Do(m, a)
  {
    e := Do(m, a);
    Move(r, m, a);
    Then(r, s, m, e);
  }

  lemma {:induction false} LeadsIsRun(r: Rule, s: State, steps: seq<Step>, e: State)
    requires Leads(r, s, steps, e)
    ensures Runs(s, steps) && After(s, steps) == e
    decreases steps
  {
    if steps != [] { LeadsIsRun(r, Do(s, steps[0]), steps[1..], e); }
  }

  lemma InvReaches(r: Rule, s: State, e: State)
    requires Inv(s) && Reaches(r, s, e)
    ensures Inv(e)
  {
    var steps :| Leads(r, s, steps, e);
    LeadsIsRun(r, s, steps, e);
    InvRun(s, steps);
  }

  lemma ReachableReaches(r: Rule, s: State, e: State)
    requires Reachable(s) && Reaches(r, s, e)
    ensures Reachable(e)
  {
    var steps :| Leads(r, s, steps, e);
    LeadsIsRun(r, s, steps, e);
    ReachableRun(s, steps);
  }

  // ---- the methods of the worker object ----

  function JobsOf(s: State): W.Jobs { W.Jobs(s.queue, s.inFlight) }

  /** One Enqueue by caller `t`: mark, then send or drop and unmark. */
  lemma EnqueueIsRun(r: Rule, s: State, t: Tid) returns (e: State)
    requires CallerAt(s, t).Entering? && |s.queue| <= s.capacity
    ensures Reaches(r, s, e)
    ensures var c := CallerAt(s, t);
            JobsOf(e) == W.EnqueueJobs(JobsOf(s), s.capacity, c.isbn) && CallerAt(e, t) == NextOf(c.rest)
    ensures e.store == s.store && e.workers == s.workers && e.capacity == s.capacity
  {
    var x := CallerAt(s, t).isbn;
    Stay(r, s);
    e := Extend(r, s, s, Mark(t));
    if x != "" && x !in s.inFlight {
      e := Extend(r, s, e, Offer(t));
      if |s.queue| >= s.capacity {
        e := Extend(r, s, e, Unmark(t));
        assert e.inFlight == s.inFlight;
      }
    }
  }

  /** One request that makes an edition row or sets it pending, and enqueues the ISBN unless the store
      answered with an error, whether or not the write took effect. */
  lemma RequestIsRun(r: Rule, s: State, t: Tid, committed: bool, acked: bool) returns (e: State)
    requires CallerAt(s, t).Ensuring? || CallerAt(s, t).Refreshing?
    requires |s.queue| <= s.capacity && (acked ==> committed)
    ensures Reaches(r, s, e) && CallerAt(e, t).Idle? && e.workers == s.workers && e.capacity == s.capacity
    ensures e.store == (if !committed then s.store
                        else if CallerAt(s, t).Ensuring? then EnsureEdition(s.store, CallerAt(s, t).isbn)
                        else MarkEditionPending(s.store, CallerAt(s, t).isbn))
    ensures JobsOf(e) == if acked then W.EnqueueJobs(JobsOf(s), s.capacity, CallerAt(s, t).isbn) else JobsOf(s)
  {
    var a := if CallerAt(s, t).Ensuring? then Ensure(t, committed, acked) else Refresh(t, committed, acked);
    Move(r, s, a);
    e := Do(s, a);
    if acked {
      var m := e;
      e := EnqueueIsRun(r, m, t);
      Then(r, s, m, e);
    }
  }

  /** The reconciler's loop over a listing. */
  lemma {:induction false} SweepIsRun(r: Rule, s: State, t: Tid, todo: seq<string>) returns (e: State)
    requires CallerAt(s, t) == NextOf(todo) && |s.queue| <= s.capacity
    ensures Reaches(r, s, e)
    ensures JobsOf(e) == W.EnqueueAll(JobsOf(s), s.capacity, todo) && CallerAt(e, t).Idle?
    ensures e.store == s.store && e.workers == s.workers && e.capacity == s.capacity
    decreases todo
  {
    if todo == [] {
      e := s;
      Stay(r, s);
    } else {
      var m := EnqueueIsRun(r, s, t);
      e := SweepIsRun(r, m, t, todo[1..]);
      Then(r, s, m, e);
    }
  }

  /** A Lookup that finds something, from its answer to the end of `process`. */
  lemma FoundIsRun(r: Rule, s: State, w: nat, now: int) returns (e: State)
    requires !r.Serving?
    requires WorkerAt(s, w).FetchingCover? && StatusOf(s.store, WorkerAt(s, w).isbn) != Some(Enriched)
    requires r.source.lookup(WorkerAt(s, w).isbn) == Some(WorkerAt(s, w).meta)
    ensures Reaches(r, s, e) && e.callers == s.callers && e.capacity == s.capacity
    ensures e.store == W.Processed(s.store, WorkerAt(s, w).isbn, r.source, now) && JobsOf(e) == JobsOf(s)
    ensures WorkerAt(e, w) == Returned(WorkerAt(s, w).isbn)
  {
    var x := WorkerAt(s, w).isbn;
    Stay(r, s);
    e := Extend(r, s, s, EndFetch(w, r.source.cover(x)));
    if r.source.cover(x).Some? {
      e := Extend(r, s, e, PutCover(w, true));
    }
    e := Extend(r, s, e, PutMetadata(w, true, now));
  }

  /** From a passed status check to the end of `process`. */
  lemma LookupIsRun(r: Rule, s: State, w: nat, now: int) returns (e: State)
    requires !r.Serving?
    requires WorkerAt(s, w).Checked? && StatusOf(s.store, WorkerAt(s, w).isbn) != Some(Enriched)
    ensures Reaches(r, s, e) && e.callers == s.callers && e.capacity == s.capacity
    ensures e.store == W.Processed(s.store, WorkerAt(s, w).isbn, r.source, now) && JobsOf(e) == JobsOf(s)
    ensures WorkerAt(e, w) == Returned(WorkerAt(s, w).isbn)
  {
    var x := WorkerAt(s, w).isbn;
    Stay(r, s);
    e := Extend(r, s, s, BeginLookup(w));
    e := Extend(r, s, e, EndLookup(w, r.source.lookup(x)));
    if r.source.lookup(x).None? {
      e := Extend(r, s, e, PutFailed(w, true, now));
    } else {
      var m := e;
      e := FoundIsRun(r, m, w, now);
      Then(r, s, m, e);
    }
  }

  /** Worker `w` takes the head of the queue through `process` and unmarks it. */
  lemma ProcessIsRun(r: Rule, s: State, w: nat, now: int) returns (e: State)
    requires !r.Serving? && WorkerAt(s, w).Waiting? && s.queue != []
    ensures Reaches(r, s, e) && e.callers == s.callers && e.capacity == s.capacity && WorkerAt(e, w).Waiting?
    ensures e.store == W.Processed(s.store, s.queue[0], r.source, now)
    ensures JobsOf(e) == W.Jobs(s.queue[1..], s.inFlight - {s.queue[0]})
  {
    Stay(r, s);
    e := Extend(r, s, s, Dequeue(w));
    e := Extend(r, s, e, ReadStatus(w, true));
    if WorkerAt(e, w).Checked? {
      var m := e;
      e := LookupIsRun(r, m, w, now);
      Then(r, s, m, e);
    }
    e := Extend(r, s, e, Release(w));
  }

  lemma HeadOut(q: seq<string>, inFlight: set<string>)
    requires q != []
    ensures inFlight - {q[0]} - Elems(q[1..]) == inFlight - Elems(q)
  {
    ElemsCons(q);
  }

  lemma {:induction false} DrainIsRun(r: Rule, s: State, w: nat, now: int) returns (e: State)
    requires !r.Serving? && WorkerAt(s, w).Waiting?
    ensures Reaches(r, s, e) && e.callers == s.callers && e.capacity == s.capacity && WorkerAt(e, w).Waiting?
    ensures e.store == W.ProcessedAll(s.store, s.queue, r.source, now)
    ensures JobsOf(e) == W.Jobs([], s.inFlight - Elems(s.queue))
    decreases |s.queue|
  {
    if s.queue == [] {
      e := s;
      Stay(r, s);
      assert s.inFlight - Elems(s.queue) == s.inFlight;
    } else {
      var m := ProcessIsRun(r, s, w, now);
      e := DrainIsRun(r, m, w, now);
      Then(r, s, m, e);
      HeadOut(s.queue, s.inFlight);
    }
  }

  /** Idle apart from new requests: nothing queued or in flight, reconciler and worker `w` waiting. */
  predicate Rested(s: State, w: nat) {
    JobsOf(s) == W.Jobs([], {}) && CallerAt(s, Reconciler).Idle? && WorkerAt(s, w).Waiting?
  }

  /** A whole sweep followed by a whole drain; the sweep has just listed. */
  lemma SentAndDrained(r: Rule, s: State, w: nat, now: int) returns (e: State)
    requires !r.Serving? && Rested(s, w) && "" !in s.store.editions
    ensures Reaches(r, Do(s, Sweep), e) && Rested(e, w) && e.capacity == s.capacity
    ensures e.store == W.Round(s.store, s.capacity, r.source, now)
  {
    var m := Do(s, Sweep);
    var f := SweepIsRun(r, m, Reconciler, PendingEnrichment(s.store, SWEEP_LIMIT));
    W.SweepFillsQueue(s.store, s.capacity);
    e := DrainIsRun(r, f, w, now);
    Then(r, m, f, e);
  }

  lemma RoundIsRun(s: State, w: nat, p: W.Provider, now: int) returns (e: State)
    requires Rested(s, w) && "" !in s.store.editions
    ensures Reaches(Sweeping(p), s, e) && Rested(e, w) && e.capacity == s.capacity
    ensures e.store == W.Round(s.store, s.capacity, p, now)
  {
    Move(Sweeping(p), s, Sweep);
    e := SentAndDrained(Sweeping(p), s, w, now);
    Then(Sweeping(p), s, Do(s, Sweep), e);
  }

  /** Any number of sequential rounds, each a whole sweep followed by a whole drain, is a run of the
      protocol in which the source answers as given. */
  lemma {:induction false} RoundsAreRun(s: State, w: nat, p: W.Provider, now: int, n: nat) returns (e: State)
    requires Rested(s, w) && "" !in s.store.editions
    ensures Reaches(Sweeping(p), s, e) && Rested(e, w)
    ensures e.store == W.Rounds(s.store, s.capacity, p, now, n)
    decreases n
  {
    if n == 0 {
      e := s;
      Stay(Sweeping(p), s);
    } else {
      var m := RoundIsRun(s, w, p, now);
      W.RoundEffect(s.store, s.capacity, p, now);
      e := RoundsAreRun(m, w, p, now, n - 1);
      Then(Sweeping(p), s, m, e);
    }
  }
}
