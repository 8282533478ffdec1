/** Which unfinished ISBNs the sweeps can ever get enriched, over every interleaving of sweeps and
    workers while no new request arrives. */
module Starvation {
  import opened Order
  import opened Catalog
  import opened Protocol
  import opened Enrichment
  import opened Progress
  import opened Schedule
  import opened Refetch
  import W = Workers

  // ---- a worker that keeps up with the sweep ----

  /** When the worker takes each ISBN as soon as it is sent, none is dropped, however short the queue. */
  lemma {:induction false} EagerSweepIsRun(s: State, w: nat, p: W.Provider, now: int, todo: seq<string>) returns (e: State)
    requires CallerAt(s, Reconciler) == NextOf(todo) && "" !in todo
    requires JobsOf(s) == W.Jobs([], {}) && WorkerAt(s, w).Waiting? && s.capacity >= 1
    ensures Reaches(Sweeping(p), s, e) && Rested(e, w) && e.capacity == s.capacity
    ensures e.store == W.ProcessedAll(s.store, todo, p, now)
    decreases todo
  {
    var r := Sweeping(p);
    if todo == [] {
      e := s;
      Stay(r, s);
    } else {
      var m := EnqueueIsRun(r, s, Reconciler);
      var f := ProcessIsRun(r, m, w, now);
      Then(r, s, m, f);
      e := EagerSweepIsRun(f, w, p, now, todo[1..]);
      Then(r, s, f, e);
    }
  }

  /** So a round can be as wide as the sweep. */
  lemma WideRoundIsRun(s: State, w: nat, p: W.Provider, now: int) returns (e: State)
    requires Rested(s, w) && s.capacity >= 1 && "" !in s.store.editions
    ensures Reaches(Sweeping(p), s, e) && Rested(e, w) && e.capacity == s.capacity
    ensures e.store == W.Round(s.store, SWEEP_LIMIT, p, now)
  {
    Move(Sweeping(p), s, Sweep);
    var todo := PendingEnrichment(s.store, SWEEP_LIMIT);
    assert todo == W.Batch(s.store, SWEEP_LIMIT);
    W.ListedPlainly(s.store, SWEEP_LIMIT);
    e := EagerSweepIsRun(Do(s, Sweep), w, p, now, todo);
    Then(Sweeping(p), s, Do(s, Sweep), e);
  }

  lemma {:induction false} WideRoundsAreRun(s: State, w: nat, p: W.Provider, now: int, n: nat) returns (e: State)
    requires Rested(s, w) && s.capacity >= 1 && "" !in s.store.editions
    ensures Reaches(Sweeping(p), s, e)
    ensures e.store == W.Rounds(s.store, SWEEP_LIMIT, p, now, n)
    decreases n
  {
    if n == 0 {
      e := s;
      Stay(Sweeping(p), s);
    } else {
      var m := WideRoundIsRun(s, w, p, now);
      W.RoundEffect(s.store, SWEEP_LIMIT, p, now);
      e := WideRoundsAreRun(m, w, p, now, n - 1);
      Then(Sweeping(p), s, m, e);
    }
  }

  lemma {:induction false} RoundsKeepRows(s: Store, capacity: nat, p: W.Provider, now: int, n: nat)
    ensures W.Rounds(s, capacity, p, now, n).editions.Keys == s.editions.Keys
    decreases n
  {
    if n > 0 {
      W.RoundEffect(s, capacity, p, now);
      RoundsKeepRows(W.Round(s, capacity, p, now), capacity, p, now, n - 1);
    }
  }

  // ---- what no interleaving can do ----

  predicate PastLookup(p: Stage) { p.FetchingCover? || p.SavingCover? || p.SavingMetadata? }

  /** No request is under way, and what is past its Lookup was found. */
  ghost predicate Heeds(s: State, p: W.Provider) {
    && (forall t :: !CallerAt(s, t).Ensuring? && !CallerAt(s, t).Refreshing?)
    && (forall w :: PastLookup(WorkerAt(s, w)) ==> p.lookup(WorkerAt(s, w).isbn).Some?)
  }

  lemma HeedsStep(s: State, a: Step, p: W.Provider)
    requires Heeds(s, p) && Enabled(s, a) && Admits(Sweeping(p), s, a)
    ensures Heeds(Do(s, a), p)
  {
    var s' := Do(s, a);
    forall t ensures !CallerAt(s', t).Ensuring? && !CallerAt(s', t).Refreshing? {
      assert !CallerAt(s, t).Ensuring? && !CallerAt(s, t).Refreshing?;
    }
    forall w | PastLookup(WorkerAt(s', w)) ensures p.lookup(WorkerAt(s', w).isbn).Some? {
      assert PastLookup(WorkerAt(s, w)) ==> p.lookup(WorkerAt(s, w).isbn).Some?;
    }
  }

  /** An ISBN the source never finds stays unfinished. */
  lemma UnfoundStep(s: State, a: Step, p: W.Provider, y: string)
    requires Heeds(s, p) && Enabled(s, a) && p.lookup(y).None? && y in NeedsWork(s.store)
    ensures y in NeedsWork(Do(s, a).store)
  {
    if a.PutMetadata? { assert PastLookup(WorkerAt(s, a.w)); }
    OnlyEnrichmentFinishes(s, a, y);
  }

  lemma {:induction false} UnfoundRun(s: State, steps: seq<Step>, e: State, p: W.Provider, y: string)
    requires Leads(Sweeping(p), s, steps, e) && Heeds(s, p) && p.lookup(y).None? && y in NeedsWork(s.store)
    ensures y in NeedsWork(e.store)
    decreases steps
  {
    if steps != [] {
      HeedsStep(s, steps[0], p);
      UnfoundStep(s, steps[0], p, y);
      UnfoundRun(Do(s, steps[0]), steps[1..], e, p, y);
    }
  }

  /** Nobody has `x` or is bringing it. */
  ghost predicate Untouched(s: State, x: string) {
    !Ahead(s, x) && forall w :: !Works(WorkerAt(s, w), x)
  }

  /** At least 100 unfinished ISBNs that the source never finds sort below `x`. */
  ghost predicate Buried(s: State, p: W.Provider, blockers: set<string>, x: string) {
    && Heeds(s, p) && x in NeedsWork(s.store) && Untouched(s, x)
    && |blockers| >= SWEEP_LIMIT && blockers <= Below(NeedsWork(s.store), x)
    && forall y :: y in blockers ==> p.lookup(y).None?
  }

  lemma NotSwept(s: State, p: W.Provider, blockers: set<string>, x: string)
    requires Buried(s, p, blockers, x)
    ensures x !in PendingEnrichment(s.store, SWEEP_LIMIT)
  {
    SubsetSize(blockers, Below(NeedsWork(s.store), x));
    SweptIff(s.store, x, SWEEP_LIMIT);
  }

  lemma UntouchedStep(s: State, a: Step, p: W.Provider, blockers: set<string>, x: string)
    requires Buried(s, p, blockers, x) && Enabled(s, a) && Admits(Sweeping(p), s, a)
    ensures Untouched(Do(s, a), x)
  {
    var s' := Do(s, a);
    if a.Sweep? {
      NotSwept(s, p, blockers, x);
      forall t ensures !Brings(CallerAt(s', t), x) { assert !Brings(CallerAt(s, t), x); }
    } else {
      NotAheadStep(s, a, x);
    }
    forall w ensures !Works(WorkerAt(s', w), x) { assert !Works(WorkerAt(s, w), x); }
  }

  lemma BuriedStep(s: State, a: Step, p: W.Provider, blockers: set<string>, x: string)
    requires Buried(s, p, blockers, x) && Enabled(s, a) && Admits(Sweeping(p), s, a)
    ensures Buried(Do(s, a), p, blockers, x)
  {
    HeedsStep(s, a, p);
    UntouchedStep(s, a, p, blockers, x);
    forall y | y in blockers ensures y in NeedsWork(Do(s, a).store) { UnfoundStep(s, a, p, y); }
    if a.PutMetadata? { assert !Works(WorkerAt(s, a.w), x); }
    OnlyEnrichmentFinishes(s, a, x);
  }

  lemma {:induction false} BuriedRun(s: State, steps: seq<Step>, e: State, p: W.Provider, blockers: set<string>, x: string)
    requires Leads(Sweeping(p), s, steps, e) && Buried(s, p, blockers, x)
    ensures x in NeedsWork(e.store)
    decreases steps
  {
    if steps != [] {
      BuriedStep(s, steps[0], p, blockers, x);
      BuriedRun(Do(s, steps[0]), steps[1..], e, p, blockers, x);
    }
  }

  // ---- the exact condition ----

  /** Some run of sweeps and worker steps in which the source answers as `p` does enriches `x`. */
  ghost predicate CanBeEnriched(s: State, p: W.Provider, x: string) {
    exists e :: Reaches(Sweeping(p), s, e) && IsEnriched(e, x)
  }

  lemma AtRest(s: State, w: nat, p: W.Provider, x: string)
    requires Reachable(s) && Quiescent(s) && !WorkerAt(s, w).Stopped?
    ensures Rested(s, w) && Heeds(s, p) && Untouched(s, x) && s.capacity >= 1 && "" !in s.store.editions
  {
    ReachableInv(s);
    NothingLeftInFlight(s, w);
    WorkerCanMove(s, w);
    MutualExclusion(s);
    forall v ensures !Works(WorkerAt(s, v), x) && !PastLookup(WorkerAt(s, v)) { WorkerCanMove(s, v); }
  }

  /** "Nothing is permanently lost", exactly. Once the accepted work is done and while no request
      arrives, some interleaving of sweeps and workers enriches an unfinished `x` if and only if the
      source finds it and fewer than 100 unfinished ISBNs that the source never finds sort below it;
      the size of the queue does not matter. Otherwise no interleaving, with any number of sweeps,
      workers and failing store calls, ever does. */
  lemma SweepsEnrichIff(s: State, w: nat, p: W.Provider, x: string)
    requires Reachable(s) && Quiescent(s) && !WorkerAt(s, w).Stopped? && x in NeedsWork(s.store)
    ensures CanBeEnriched(s, p, x) <==> p.lookup(x).Some? && |W.Blockers(s.store, p, x)| < 100
  {
    AtRest(s, w, p, x);
    var blockers := W.Blockers(s.store, p, x);
    if p.lookup(x).Some? && |blockers| < SWEEP_LIMIT {
      var n := W.ReachedEventually(s.store, SWEEP_LIMIT, p, 0, x);
      var e := WideRoundsAreRun(s, w, p, 0, n);
      RoundsKeepRows(s.store, SWEEP_LIMIT, p, 0, n);
      assert x in e.store.editions;
    } else if CanBeEnriched(s, p, x) {
      var e :| Reaches(Sweeping(p), s, e) && IsEnriched(e, x);
      var steps :| Leads(Sweeping(p), s, steps, e);
      if p.lookup(x).None? { UnfoundRun(s, steps, e, p, x); } else { BuriedRun(s, steps, e, p, blockers, x); }
    }
  }

  /** With a queue shorter than the sweep there are ISBNs that sequential rounds of sweep and drain
      never enrich, although workers that run while the sweep is sending can. */
  lemma InterleavingHelps(s: State, w: nat, p: W.Provider, now: int, x: string)
    requires Reachable(s) && Quiescent(s) && !WorkerAt(s, w).Stopped? && x in NeedsWork(s.store)
    requires p.lookup(x).Some?
    ensures CanBeEnriched(s, p, x) && (forall n: nat :: x in NeedsWork(W.Rounds(s.store, s.capacity, p, now, n)))
       <==> W.Width(s.capacity) <= |W.Blockers(s.store, p, x)| < SWEEP_LIMIT
  {
    SweepsEnrichIff(s, w, p, x);
    W.EnrichedEventuallyIff(s.store, s.capacity, p, now, x);
  }
}
