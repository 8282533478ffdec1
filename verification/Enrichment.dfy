/** What every interleaving of the enrichment protocol guarantees. */
module Enrichment {
  import opened Order
  import opened Catalog
  import opened Protocol

  // ---- the invariant ----

  /** What a caller is about to enqueue has an edition row already. */
  ghost predicate CallerRows(store: Store, c: Caller) {
    && (c.Ensuring? || c.Refreshing? ==> c.isbn != "")
    && (c.Entering? ==> c.isbn in store.editions)
    && (c.Entering? || c.Marked? || c.Dropping? ==> forall i :: 0 <= i < |c.rest| ==> c.rest[i] in store.editions)
  }

  ghost predicate RowsExist(s: State) {
    && s.inFlight <= s.store.editions.Keys
    && "" !in s.store.editions
    && (forall t :: CallerRows(s.store, CallerAt(s, t)))
  }

  /** A worker past its status check is looking at an edition that is not enriched. */
  ghost predicate ChecksHold(s: State) {
    forall w :: PastCheck(WorkerAt(s, w)) ==> StatusOf(s.store, WorkerAt(s, w).isbn) != Some(Enriched)
  }

  ghost predicate CoversSaved(s: State) {
    && CoversConsistent(s.store)
    && (forall w :: WorkerAt(s, w).SavingMetadata? && WorkerAt(s, w).covered ==> WorkerAt(s, w).isbn in s.store.covers)
  }

  ghost predicate LookupsDated(s: State) {
    forall w, x :: InWindow(WorkerAt(s, w), x) ==> WorkerAt(s, w).since < s.clock
  }

  ghost predicate Inv(s: State) {
    && (exists o :: OwnedBy(s, o))
    && s.capacity >= 1 && |s.queue| <= s.capacity
    && RowsExist(s) && ChecksHold(s) && CoversSaved(s) && LookupsDated(s)
  }

  lemma RowsStay(s: State, a: Step)
    requires Enabled(s, a)
    ensures s.store.editions.Keys <= Do(s, a).store.editions.Keys
    ensures s.store.covers.Keys <= Do(s, a).store.covers.Keys
  {
  }

  lemma WorkerHasRow(s: State, w: nat)
    requires Inv(s)
    ensures !WorkerAt(s, w).Waiting? && !WorkerAt(s, w).Stopped? ==>
              WorkerAt(s, w).isbn in s.inFlight && WorkerAt(s, w).isbn in s.store.editions && WorkerAt(s, w).isbn != ""
  {
  }

  lemma MoverRows(s: State, a: Step)
    requires RowsExist(s) && Enabled(s, a) && CallerStep(a)
    ensures CallerRows(Do(s, a).store, CallerAfter(s, a))
  {
    RowsStay(s, a);
    assert CallerRows(s.store, CallerAt(s, Thread(a)));
    if a.Sweep? { SweepListing(s.store, SWEEP_LIMIT); }
  }

  lemma CallerRowsStep(s: State, a: Step, t: Tid)
    requires RowsExist(s) && Enabled(s, a)
    ensures CallerRows(Do(s, a).store, CallerAt(Do(s, a), t))
  {
    RowsStay(s, a);
    assert CallerRows(s.store, CallerAt(s, t));
    if CallerStep(a) && Thread(a) == t { MoverRows(s, a); }
  }

  lemma RowsStep(s: State, a: Step)
    requires Inv(s) && Enabled(s, a)
    ensures RowsExist(Do(s, a))
  {
    RowsStay(s, a);
    forall t ensures CallerRows(Do(s, a).store, CallerAt(Do(s, a), t)) {
      CallerRowsStep(s, a, t);
    }
    if WorkerStep(a) { WorkerHasRow(s, a.w); }
    if a.Ensure? || a.Refresh? || a.Mark? { assert CallerRows(s.store, CallerAt(s, a.t)); }
  }

  lemma OneWorkerPerIsbn(s: State, o: map<string, Place>, v: nat, w: nat, x: string)
    requires HeldByWorkers(s, o) && Works(WorkerAt(s, v), x) && Works(WorkerAt(s, w), x)
    ensures v == w
  {
    assert o[x] == ByWorker(v);
  }

  lemma OneWorker(s: State, v: nat, w: nat, x: string)
    requires Inv(s) && Works(WorkerAt(s, v), x) && Works(WorkerAt(s, w), x)
    ensures v == w
  {
    var o :| OwnedBy(s, o);
    OneWorkerPerIsbn(s, o, v, w, x);
  }

  lemma ChecksStep(s: State, a: Step)
    requires Inv(s) && Enabled(s, a)
    ensures ChecksHold(Do(s, a))
  {
    var s' := Do(s, a);
    forall w | PastCheck(WorkerAt(s', w))
      ensures StatusOf(s'.store, WorkerAt(s', w).isbn) != Some(Enriched)
    {
      var x := WorkerAt(s', w).isbn;
      assert PastCheck(WorkerAt(s, w)) ==> StatusOf(s.store, WorkerAt(s, w).isbn) != Some(Enriched);
      if a.PutMetadata? && WorkerAt(s, a.w).isbn == x {
        OneWorker(s, a.w, w, x);
      }
    }
  }

  lemma CoverFlagsStep(s: State, a: Step)
    requires CoversConsistent(s.store) && Enabled(s, a)
    ensures CoversConsistent(Do(s, a).store)
  {
  }

  lemma CoversStep(s: State, a: Step)
    requires Inv(s) && Enabled(s, a)
    ensures CoversSaved(Do(s, a))
  {
    var s' := Do(s, a);
    RowsStay(s, a);
    CoverFlagsStep(s, a);
    forall w | WorkerAt(s', w).SavingMetadata? && WorkerAt(s', w).covered
      ensures WorkerAt(s', w).isbn in s'.store.covers
    {
      assert WorkerAt(s, w).SavingMetadata? && WorkerAt(s, w).covered ==> WorkerAt(s, w).isbn in s.store.covers;
    }
  }

  lemma DatesStep(s: State, a: Step)
    requires Inv(s) && Enabled(s, a)
    ensures LookupsDated(Do(s, a))
  {
    var s' := Do(s, a);
    forall w, x | InWindow(WorkerAt(s', w), x) ensures WorkerAt(s', w).since < s'.clock {
      assert InWindow(WorkerAt(s, w), x) ==> WorkerAt(s, w).since < s.clock;
    }
  }

  lemma InvStep(s: State, a: Step)
    requires Inv(s) && Enabled(s, a)
    ensures Inv(Do(s, a))
  {
    var o :| OwnedBy(s, o);
    OwnershipStep(s, a, o);
    RowsStep(s, a);
    ChecksStep(s, a);
    CoversStep(s, a);
    DatesStep(s, a);
  }

  lemma {:induction false} InvRun(s: State, steps: seq<Step>)
    requires Inv(s) && Runs(s, steps)
    ensures Inv(After(s, steps))
    decreases steps
  {
    if steps != [] {
      InvStep(s, steps[0]);
      InvRun(Do(s, steps[0]), steps[1..]);
    }
  }

  lemma InvInit(s: State)
    requires Init(s)
    ensures Inv(s)
  {
    assert OwnedBy(s, map[]);
  }

  lemma ReachableInv(s: State)
    requires Reachable(s)
    ensures Inv(s)
  {
    var s0, steps :| Init(s0) && Runs(s0, steps) && s == After(s0, steps);
    InvInit(s0);
    InvRun(s0, steps);
  }

  lemma {:induction false} RunsConcat(s: State, a: seq<Step>, b: seq<Step>)
    requires Runs(s, a) && Runs(After(s, a), b)
    ensures Runs(s, a + b) && After(s, a + b) == After(After(s, a), b)
    decreases a
  {
    ConsConcat(a, b);
    if a != [] { RunsConcat(Do(s, a[0]), a[1..], b); }
  }

  lemma ReachableRun(s: State, steps: seq<Step>)
    requires Reachable(s) && Runs(s, steps)
    ensures Reachable(After(s, steps))
  {
    var s0, before :| Init(s0) && Runs(s0, before) && s == After(s0, before);
    RunsConcat(s0, before, steps);
  }

  lemma ReachableStep(s: State, a: Step)
    requires Reachable(s) && Enabled(s, a)
    ensures Reachable(Do(s, a))
  {
    assert [a][1..] == [];
    assert Runs(Do(s, a), []);
    assert Runs(s, [a]) && After(s, [a]) == Do(s, a);
    ReachableRun(s, [a]);
  }

  // ---- mutual exclusion ----

  ghost predicate HeldSomewhere(s: State, x: string) {
    x in s.queue || (exists t :: Holds(CallerAt(s, t), x)) || (exists w :: Works(WorkerAt(s, w), x))
  }

  /** No ISBN has two places. */
  ghost predicate Disjoint(s: State) {
    && NoDuplicates(s.queue)
    && (forall t, u, x :: Holds(CallerAt(s, t), x) && Holds(CallerAt(s, u), x) ==> t == u)
    && (forall v, w, x :: Works(WorkerAt(s, v), x) && Works(WorkerAt(s, w), x) ==> v == w)
    && (forall t, w, x :: Holds(CallerAt(s, t), x) ==> !Works(WorkerAt(s, w), x))
    && (forall t, x :: Holds(CallerAt(s, t), x) ==> x !in s.queue)
    && (forall w, x :: Works(WorkerAt(s, w), x) ==> x !in s.queue)
  }

  lemma PlacesExact(s: State, o: map<string, Place>, x: string)
    requires OwnedBy(s, o)
    ensures x in s.inFlight <==> HeldSomewhere(s, x)
  {
  }

  lemma PlacesDisjoint(s: State, o: map<string, Place>)
    requires OwnedBy(s, o)
    ensures Disjoint(s)
  {
    forall t, u, x | Holds(CallerAt(s, t), x) && Holds(CallerAt(s, u), x) ensures t == u {
      assert o[x] == ByCaller(t);
    }
    forall v, w, x | Works(WorkerAt(s, v), x) && Works(WorkerAt(s, w), x) ensures v == w {
      OneWorkerPerIsbn(s, o, v, w, x);
    }
    forall t, w, x | Holds(CallerAt(s, t), x) ensures !Works(WorkerAt(s, w), x) {
      assert o[x] == ByCaller(t);
    }
  }

  /** `inFlight` is exactly the disjoint, duplicate-free union of the ISBNs callers hold between
      mark and send or drop, those in the queue, and those workers hold from dequeue to unmark. */
  lemma MutualExclusion(s: State)
    requires Reachable(s)
    ensures forall x :: x in s.inFlight <==> HeldSomewhere(s, x)
    ensures Disjoint(s)
    ensures |s.queue| <= s.capacity
    ensures "" !in s.inFlight
  {
    ReachableInv(s);
    var o :| OwnedBy(s, o);
    forall x ensures x in s.inFlight <==> HeldSomewhere(s, x) { PlacesExact(s, o, x); }
    PlacesDisjoint(s, o);
  }

  /** Every ISBN in flight has an edition row, so no worker ever saves a cover without one. */
  lemma InFlightHasRow(s: State, x: string)
    requires Reachable(s) && x in s.inFlight
    ensures x in s.store.editions
    ensures forall w :: WorkerAt(s, w).SavingCover? ==> WorkerAt(s, w).isbn in s.store.editions
  {
    ReachableInv(s);
    forall w | WorkerAt(s, w).SavingCover? ensures WorkerAt(s, w).isbn in s.store.editions {
      WorkerHasRow(s, w);
    }
  }

  // ---- status moves ----

  /** A committed refresh of `x`. */
  predicate IsRefresh(s: State, a: Step, x: string) {
    Enabled(s, a) && a.Refresh? && a.committed && CallerAt(s, a.t).isbn == x
  }

  /** A committed save of metadata for `x`. */
  predicate IsEnrichment(s: State, a: Step, x: string) {
    Enabled(s, a) && a.PutMetadata? && a.committed && WorkerAt(s, a.w).isbn == x
  }

  predicate Unfinished(o: Option<Status>) { o == Some(Pending) || o == Some(Failed) }

  predicate AllowedMove(before: Option<Status>, after: Option<Status>, refreshed: bool, enriched: bool) {
    || after == before
    || (before == None && after == Some(Pending))
    || (refreshed && after == Some(Pending))
    || (enriched && Unfinished(before) && after == Some(Enriched))
    || (Unfinished(before) && after == Some(Failed))
  }

  /** In particular `markFailed` never overwrites an enriched edition. */
  lemma StatusMoves(s: State, a: Step, x: string)
    requires Reachable(s) && Enabled(s, a)
    ensures AllowedMove(StatusOf(s.store, x), StatusOf(Do(s, a).store, x), IsRefresh(s, a, x), IsEnrichment(s, a, x))
    ensures IsEnrichment(s, a, x) ==> StatusOf(s.store, x) != Some(Enriched) && StatusOf(Do(s, a).store, x) == Some(Enriched)
    ensures IsRefresh(s, a, x) ==> StatusOf(Do(s, a).store, x) == Some(Pending)
  {
    ReachableInv(s);
    StatusMovesInv(s, a, x);
  }

  lemma StatusMovesInv(s: State, a: Step, x: string)
    requires Inv(s) && Enabled(s, a)
    ensures AllowedMove(StatusOf(s.store, x), StatusOf(Do(s, a).store, x), IsRefresh(s, a, x), IsEnrichment(s, a, x))
    ensures IsEnrichment(s, a, x) ==> StatusOf(s.store, x) != Some(Enriched) && StatusOf(Do(s, a).store, x) == Some(Enriched)
    ensures IsRefresh(s, a, x) ==> StatusOf(Do(s, a).store, x) == Some(Pending)
  {
    if WorkerStep(a) {
      WorkerHasRow(s, a.w);
      if PastCheck(WorkerAt(s, a.w)) {
        var e := s.store.editions[WorkerAt(s, a.w).isbn];
        assert e.status != Enriched;
        assert e.status == Pending || e.status == Failed;
      }
    }
  }

  // ---- how often an ISBN is fetched ----

  function One(b: bool): nat { if b then 1 else 0 }

  predicate IsEnriched(s: State, x: string) { StatusOf(s.store, x) == Some(Enriched) }

  ghost function Enrichments(s: State, steps: seq<Step>, x: string): nat
    requires Runs(s, steps)
    decreases steps
  {
    if steps == [] then 0
    else One(IsEnrichment(s, steps[0], x)) + Enrichments(Do(s, steps[0]), steps[1..], x)
  }

  ghost function Refreshes(s: State, steps: seq<Step>, x: string): nat
    requires Runs(s, steps)
    decreases steps
  {
    if steps == [] then 0
    else One(IsRefresh(s, steps[0], x)) + Refreshes(Do(s, steps[0]), steps[1..], x)
  }

  /** Refreshes that found `x` enriched. */
  ghost function Rearmings(s: State, steps: seq<Step>, x: string): nat
    requires Runs(s, steps)
    decreases steps
  {
    if steps == [] then 0
    else One(IsRefresh(s, steps[0], x) && IsEnriched(s, x)) + Rearmings(Do(s, steps[0]), steps[1..], x)
  }

  /** Enrichments are paid for one by one: by the first fetch or by a refresh of an enriched edition. */
  lemma {:induction false} RefetchConservation(s: State, steps: seq<Step>, x: string)
    requires Inv(s) && Runs(s, steps)
    ensures Enrichments(s, steps, x) + One(IsEnriched(s, x))
         == Rearmings(s, steps, x) + One(IsEnriched(After(s, steps), x))
    ensures Rearmings(s, steps, x) <= Refreshes(s, steps, x)
    decreases steps
  {
    if steps != [] {
      StatusMovesInv(s, steps[0], x);
      InvStep(s, steps[0]);
      RefetchConservation(Do(s, steps[0]), steps[1..], x);
    }
  }

  /** So there is at most one enrichment per refresh, plus one if `x` is enriched at the end. */
  lemma RefetchBound(s: State, steps: seq<Step>, x: string)
    requires Reachable(s) && Runs(s, steps)
    ensures Enrichments(s, steps, x) + One(IsEnriched(s, x))
         == Rearmings(s, steps, x) + One(IsEnriched(After(s, steps), x))
    ensures Rearmings(s, steps, x) <= Refreshes(s, steps, x)
  {
    ReachableInv(s);
    RefetchConservation(s, steps, x);
  }

  /** Without a refresh an enriched edition stays enriched and is never saved again. */
  lemma EnrichedIsStable(s: State, steps: seq<Step>, x: string)
    requires Reachable(s) && Runs(s, steps) && IsEnriched(s, x) && Refreshes(s, steps, x) == 0
    ensures IsEnriched(After(s, steps), x) && Enrichments(s, steps, x) == 0
  {
    RefetchBound(s, steps, x);
  }

  // ---- freshness of a refresh ----

  /** Somewhere in the run `x` is enriched from a Lookup that began before instant `c`. */
  ghost predicate EverStale(s: State, steps: seq<Step>, x: string, c: nat)
    requires Runs(s, steps)
    decreases steps
  {
    steps != [] &&
      (|| (IsEnrichment(s, steps[0], x) && WorkerAt(s, steps[0].w).since < c)
       || EverStale(Do(s, steps[0]), steps[1..], x, c))
  }

  lemma {:induction false} FreshRun(s: State, steps: seq<Step>, x: string, c: nat)
    requires Runs(s, steps) && c <= s.clock
    requires forall w :: InWindow(WorkerAt(s, w), x) ==> WorkerAt(s, w).since >= c
    ensures !EverStale(s, steps, x, c)
    decreases steps
  {
    if steps != [] {
      var a := steps[0];
      var s' := Do(s, a);
      if a.PutMetadata? { assert InWindow(WorkerAt(s, a.w), WorkerAt(s, a.w).isbn); }
      forall w | InWindow(WorkerAt(s', w), x) ensures WorkerAt(s', w).since >= c {
        assert InWindow(WorkerAt(s, w), x) ==> WorkerAt(s, w).since >= c;
      }
      FreshRun(s', steps[1..], x, c);
    }
  }

  /** The rest of a worker's own steps, as long as everything it asks for succeeds. */
  lemma {:induction false} StaleRun(s: State, w: nat, x: string, c: nat, rank: nat) returns (steps: seq<Step>)
    requires InWindow(WorkerAt(s, w), x) && WorkerAt(s, w).since < c
    requires rank == match WorkerAt(s, w) case LookingUp(_, _) => 3 case FetchingCover(_, _, _) => 2 case SavingCover(_, _, _, _) => 1 case _ => 0
    ensures Runs(s, steps) && EverStale(s, steps, x, c)
    decreases rank
  {
    var a := match WorkerAt(s, w)
      case LookingUp(_, _) => EndLookup(w, Some(Metadata("", "", "", "", "", 0)))
      case FetchingCover(_, _, _) => EndFetch(w, None)
      case SavingCover(_, _, _, _) => PutCover(w, true)
      case _ => PutMetadata(w, true, 0);
    var rest: seq<Step> := [];
    if rank > 0 {
      rest := StaleRun(Do(s, a), w, x, c, match rank case 3 => 2 case 2 => 0 case _ => 0);
    }
    steps := [a] + rest;
    assert steps[1..] == rest;
  }

  ghost predicate NobodyLookingUp(s: State, x: string) {
    forall w :: !InWindow(WorkerAt(s, w), x)
  }

  /** Every continuation enriches `x` only from Lookups begun at `c` or later. */
  ghost predicate AlwaysFresh(s: State, x: string, c: nat) {
    forall steps :: Runs(s, steps) ==> !EverStale(s, steps, x, c)
  }

  lemma RefreshAbsorbed(s: State, a: Step, x: string, w: nat)
    requires Inv(s) && IsRefresh(s, a, x) && InWindow(WorkerAt(s, w), x)
    ensures !AlwaysFresh(Do(s, a), x, s.clock)
  {
    var rank := match WorkerAt(s, w) case LookingUp(_, _) => 3 case FetchingCover(_, _, _) => 2 case SavingCover(_, _, _, _) => 1 case _ => 0;
    assert WorkerAt(Do(s, a), w) == WorkerAt(s, w);
    var steps := StaleRun(Do(s, a), w, x, s.clock, rank);
  }

  /** No continuation saves an answer older than the refresh exactly when no worker is between the
      start of its Lookup of `x` and its save; otherwise some continuation lets that worker's older
      answer absorb the refresh. That a Lookup follows at all is a different matter: `Refetch`. */
  lemma RefreshFreshness(s: State, a: Step, x: string)
    requires Reachable(s) && IsRefresh(s, a, x)
    ensures AlwaysFresh(Do(s, a), x, s.clock) <==> NobodyLookingUp(s, x)
  {
    ReachableInv(s);
    var s' := Do(s, a);
    if NobodyLookingUp(s, x) {
      forall steps | Runs(s', steps) ensures !EverStale(s', steps, x, s.clock) {
        forall w ensures !InWindow(WorkerAt(s', w), x) { assert WorkerAt(s', w) == WorkerAt(s, w); }
        FreshRun(s', steps, x, s.clock);
      }
    } else {
      var w :| InWindow(WorkerAt(s, w), x);
      RefreshAbsorbed(s, a, x, w);
    }
  }

  /** After a refresh `x` can only be enriched by an actual save, and, when no worker was in the
      window, only by one whose Lookup began after the refresh. */
  lemma RefreshThenEnriched(s: State, a: Step, x: string, steps: seq<Step>)
    requires Reachable(s) && IsRefresh(s, a, x) && Runs(Do(s, a), steps)
    requires NobodyLookingUp(s, x)
    requires IsEnriched(After(Do(s, a), steps), x)
    ensures Enrichments(Do(s, a), steps, x) >= 1 && !EverStale(Do(s, a), steps, x, s.clock)
  {
    ReachableInv(s);
    StatusMovesInv(s, a, x);
    InvStep(s, a);
    RefetchConservation(Do(s, a), steps, x);
    RefreshFreshness(s, a, x);
  }

  // ---- covers ----

  lemma {:induction false} CoversStay(s: State, steps: seq<Step>)
    requires Runs(s, steps)
    ensures s.store.covers.Keys <= After(s, steps).store.covers.Keys
    ensures s.store.editions.Keys <= After(s, steps).store.editions.Keys
    decreases steps
  {
    if steps != [] {
      RowsStay(s, steps[0]);
      CoversStay(Do(s, steps[0]), steps[1..]);
    }
  }

  ghost predicate CoverVisible(s: State, x: string) {
    forall user, id :: Owns(s.store, user, id) && s.store.books[id].isbn == x ==>
      Get(s.store, user, id).value.hasCover && CoverForBook(s.store, user, id).Some?
  }

  /** Once a worker has saved a cover for `x`, every view of every book of `x` shows it, in every
      state of every continuation. */
  lemma CoverVisibleForEver(s: State, w: nat, steps: seq<Step>)
    requires Reachable(s) && Enabled(s, PutCover(w, true)) && Runs(Do(s, PutCover(w, true)), steps)
    ensures CoverVisible(After(Do(s, PutCover(w, true)), steps), WorkerAt(s, w).isbn)
  {
    ReachableInv(s);
    WorkerHasRow(s, w);
    var s' := Do(s, PutCover(w, true));
    InvStep(s, PutCover(w, true));
    CoversStay(s', steps);
    InvRun(s', steps);
    var x := WorkerAt(s, w).isbn;
    assert x in s'.store.covers;
    assert x in After(s', steps).store.covers;
  }

  /** Cover first: when a `process` that saved its cover flips `x` to enriched, every view already
      shows the cover. The flag is set exactly for the ISBNs with a stored cover. */
  lemma CoverBeforeEnriched(s: State, a: Step, x: string)
    requires Reachable(s)
    requires IsEnrichment(s, a, x) && WorkerAt(s, a.w).covered
    ensures CoverVisible(s, x) && CoverVisible(Do(s, a), x)
    ensures CoversConsistent(s.store) && CoversConsistent(Do(s, a).store)
  {
    ReachableInv(s);
    InvStep(s, a);
    WorkerHasRow(s, a.w);
    RowsStay(s, a);
    assert x in s.store.covers;
  }

  predicate Idles(steps: seq<Step>, w: nat) {
    forall a :: a in steps && WorkerStep(a) ==> a.w != w
  }

  lemma {:induction false} KeepsStage(s: State, w: nat, steps: seq<Step>)
    requires Runs(s, steps) && Idles(steps, w)
    ensures WorkerAt(After(s, steps), w) == WorkerAt(s, w)
    decreases steps
  {
    if steps != [] {
      assert steps[0] in steps;
      KeepsStage(Do(s, steps[0]), w, steps[1..]);
    }
  }

  /** However long a worker pauses after saving a cover, its next write can only be the metadata; when it
      takes effect the cover has been visible all along. */
  lemma CoverThenEnriched(s: State, w: nat, steps: seq<Step>, e: State, now: int)
    requires Reachable(s) && Enabled(s, PutCover(w, true)) && Idles(steps, w)
    requires Runs(Do(s, PutCover(w, true)), steps) && e == After(Do(s, PutCover(w, true)), steps)
    ensures IsEnrichment(e, PutMetadata(w, true, now), WorkerAt(s, w).isbn) && WorkerAt(e, w).covered
    ensures CoverVisible(e, WorkerAt(s, w).isbn) && CoverVisible(Do(e, PutMetadata(w, true, now)), WorkerAt(s, w).isbn)
  {
    CoverRemembered(s, w, steps);
    CoverBeforeEnriched(e, PutMetadata(w, true, now), WorkerAt(s, w).isbn);
  }

  lemma CoverRemembered(s: State, w: nat, steps: seq<Step>)
    requires Reachable(s) && Enabled(s, PutCover(w, true)) && Runs(Do(s, PutCover(w, true)), steps) && Idles(steps, w)
    ensures var e := After(Do(s, PutCover(w, true)), steps);
            Reachable(e) && WorkerAt(e, w) == SavingMetadata(WorkerAt(s, w).isbn, WorkerAt(s, w).since, WorkerAt(s, w).meta, true)
  {
    KeepsStage(Do(s, PutCover(w, true)), w, steps);
    ReachableStep(s, PutCover(w, true));
    ReachableRun(Do(s, PutCover(w, true)), steps);
  }

  /** From the moment a worker's metadata are saved, every view of the ISBN reads "enriched" and shows
      them, under the names the book has itself or else those found. */
  lemma SavedReadsEnriched(s: State, w: nat, now: int, user: string, id: string)
    requires Reachable(s) && Enabled(s, PutMetadata(w, true, now))
    requires Owns(s.store, user, id) && s.store.books[id].isbn == WorkerAt(s, w).isbn
    ensures var s', m := Do(s, PutMetadata(w, true, now)), WorkerAt(s, w).meta;
            && Get(s'.store, user, id).Some?
            && var v, b := Get(s'.store, user, id).value, s.store.books[id];
            && v.enrichmentStatus == "enriched" && v.enrichedAt == Some(now)
            && v.title == (if b.title != "" then b.title else m.title)
            && v.author == (if b.author != "" then b.author else m.author)
            && v.description == m.description && v.publisher == m.publisher
            && v.publishedDate == m.publishedDate && v.pageCount == m.pageCount
            && Get(s.store, user, id).Some? && v.hasCover == Get(s.store, user, id).value.hasCover
  {
    ReachableInv(s);
    WorkerHasRow(s, w);
    ViewExactly(Do(s, PutMetadata(w, true, now)).store, user, id);
  }

  /** Likewise a recorded failure reads "failed" and takes nothing away. */
  lemma FailureReadsFailed(s: State, w: nat, now: int, user: string, id: string)
    requires Reachable(s) && Enabled(s, PutFailed(w, true, now))
    requires Owns(s.store, user, id) && s.store.books[id].isbn == WorkerAt(s, w).isbn
    ensures Get(s.store, user, id).Some?
    ensures Get(Do(s, PutFailed(w, true, now)).store, user, id)
         == Some(Get(s.store, user, id).value.(enrichmentStatus := "failed"))
  {
    var x := WorkerAt(s, w).isbn;
    assert x in s.store.editions && x != "" by {
      ReachableInv(s);
      WorkerHasRow(s, w);
    }
    FailureSeen(s.store, x, now, user, id);
  }

  lemma FailureSeen(s: Store, x: string, now: int, user: string, id: string)
    requires Owns(s, user, id) && s.books[id].isbn == x && x in s.editions && x != ""
    ensures Get(SaveEnrichment(s, x, None, Failed, now), user, id)
         == Some(Get(s, user, id).value.(enrichmentStatus := "failed"))
  {
  }

  /** A refresh reads "pending" and takes nothing away. */
  lemma RefreshReadsPending(s: State, a: Step, x: string, user: string, id: string)
    requires Reachable(s) && IsRefresh(s, a, x) && Owns(s.store, user, id) && s.store.books[id].isbn == x
    ensures Get(s.store, user, id).Some?
    ensures Get(Do(s, a).store, user, id) == Some(Get(s.store, user, id).value.(enrichmentStatus := "pending"))
  {
    ReachableInv(s);
    assert CallerRows(s.store, CallerAt(s, a.t));
  }

  /** A saved cover is served as it is, and it is the only change that a reader sees. */
  lemma SavedCoverIsServed(s: State, w: nat, user: string, id: string)
    requires Reachable(s) && Enabled(s, PutCover(w, true))
    requires Owns(s.store, user, id) && s.store.books[id].isbn == WorkerAt(s, w).isbn
    ensures CoverForBook(Do(s, PutCover(w, true)).store, user, id) == Some(WorkerAt(s, w).cover)
    ensures Get(s.store, user, id).Some?
    ensures Get(Do(s, PutCover(w, true)).store, user, id) == Some(Get(s.store, user, id).value.(hasCover := true))
  {
    ReachableInv(s);
    WorkerHasRow(s, w);
  }

  // ---- the sweep ----

  /** What a caller still has to enqueue. */
  function Todo(c: Caller): seq<string> {
    if c.Entering? then [c.isbn] + c.rest else []
  }

  /** A sweep sets out to enqueue exactly the listing; an unfinished `x` is on it if and only if
      fewer than 100 unfinished ISBNs sort below it, whatever was dropped before. */
  lemma SweepOffers(s: State, x: string)
    requires Enabled(s, Sweep) && x in NeedsWork(s.store)
    ensures Todo(CallerAt(Do(s, Sweep), Reconciler)) == PendingEnrichment(s.store, 100)
    ensures x in Todo(CallerAt(Do(s, Sweep), Reconciler)) <==> |Below(NeedsWork(s.store), x)| < 100
  {
    var q := PendingEnrichment(s.store, SWEEP_LIMIT);
    if q != [] { assert [q[0]] + q[1..] == q; }
    SweptIff(s.store, x, SWEEP_LIMIT);
  }

  /** Once an edition row exists, it is in every later state either enriched or still listed. */
  lemma NothingForgotten(s: State, steps: seq<Step>, x: string)
    requires Runs(s, steps) && x in s.store.editions
    ensures IsEnriched(After(s, steps), x) <==> x !in PendingEnrichment(After(s, steps).store, 0)
  {
    CoversStay(s, steps);
    SweepListing(After(s, steps).store, 1);
  }

  /** A committed Ensure or Refresh of `x`. */
  predicate RequestsRow(s: State, a: Step, x: string) {
    Enabled(s, a) && (a.Ensure? || a.Refresh?) && a.committed && CallerAt(s, a.t).isbn == x
  }

  ghost predicate NeverRequested(s: State, steps: seq<Step>, x: string)
    requires Runs(s, steps)
    decreases steps
  {
    steps != [] ==> !RequestsRow(s, steps[0], x) && NeverRequested(Do(s, steps[0]), steps[1..], x)
  }

  /** The gap in that: a row appears only through a committed ensure or refresh, so when those fail
      the ISBN of a stored book is listed by no sweep. */
  lemma {:induction false} UnrequestedIsNeverListed(s: State, steps: seq<Step>, x: string)
    requires Inv(s) && Runs(s, steps) && x !in s.store.editions && NeverRequested(s, steps, x)
    ensures x !in After(s, steps).store.editions && x !in PendingEnrichment(After(s, steps).store, 0)
    decreases steps
  {
    if steps != [] {
      if WorkerStep(steps[0]) { WorkerHasRow(s, steps[0].w); }
      InvStep(s, steps[0]);
      UnrequestedIsNeverListed(Do(s, steps[0]), steps[1..], x);
    }
  }
}
