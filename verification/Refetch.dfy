/** Whether a request, a refresh above all, is followed by a Lookup: exactly which states still have
    one ahead of them, and which must begin it. */
module Refetch {
  import opened Catalog
  import opened Protocol
  import opened Enrichment
  import opened Progress
  import opened Schedule

  /** The run begins a Lookup of `x`. */
  ghost predicate LooksUp(s: State, steps: seq<Step>, x: string)
    decreases steps
  {
    steps != [] && Enabled(s, steps[0]) &&
      (|| (steps[0].BeginLookup? && WorkerAt(s, steps[0].w).isbn == x)
       || LooksUp(Do(s, steps[0]), steps[1..], x))
  }

  // ---- where a Lookup can still come from ----

  /** The caller is still on its way to the queue with `x`. */
  predicate Brings(c: Caller, x: string) {
    || ((c.Ensuring? || c.Refreshing? || c.Entering? || c.Marked?) && c.isbn == x)
    || ((c.Entering? || c.Marked? || c.Dropping?) && x in c.rest)
  }

  /** The worker has `x` and has not begun its Lookup. */
  predicate AboutToLookUp(p: Stage, x: string) {
    (p.Dequeued? || p.Checked?) && p.isbn == x
  }

  /** Accepted for good: queued, or with a worker that has not begun its Lookup. */
  ghost predicate Accepted(s: State, x: string) {
    x in s.queue || exists w :: AboutToLookUp(WorkerAt(s, w), x)
  }

  ghost predicate Ahead(s: State, x: string) {
    Accepted(s, x) || exists t :: Brings(CallerAt(s, t), x)
  }

  lemma NotAheadStep(s: State, a: Step, x: string)
    requires Enabled(s, a) && Internal(a) && !Ahead(s, x)
    ensures !Ahead(Do(s, a), x)
    ensures !(a.BeginLookup? && WorkerAt(s, a.w).isbn == x)
  {
    var s' := Do(s, a);
    if a.BeginLookup? { assert !AboutToLookUp(WorkerAt(s, a.w), x); }
    forall w ensures !AboutToLookUp(WorkerAt(s', w), x) {
      assert !AboutToLookUp(WorkerAt(s, w), x);
    }
    forall t ensures !Brings(CallerAt(s', t), x) {
      assert !Brings(CallerAt(s, t), x);
    }
    if a.Offer? { assert !Brings(CallerAt(s, a.t), x); }
  }

  lemma {:induction false} NeverLooksUp(s: State, steps: seq<Step>, e: State, x: string)
    requires Leads(Serving, s, steps, e) && !Ahead(s, x)
    ensures !LooksUp(s, steps, x) && !Ahead(e, x)
    decreases steps
  {
    if steps != [] {
      NotAheadStep(s, steps[0], x);
      NeverLooksUp(Do(s, steps[0]), steps[1..], e, x);
    }
  }

  // ---- leading the protocol to a Lookup without touching the store ----

  function GivingUp(w: nat, p: Stage): Step {
    match p
    case Dequeued(_) => ReadStatus(w, false)
    case Checked(_) => BeginLookup(w)
    case LookingUp(_, _) => EndLookup(w, None)
    case FetchingCover(_, _, _) => EndFetch(w, None)
    case SavingCover(_, _, _, _) => PutCover(w, false)
    case SavingMetadata(_, _, _, _) => PutMetadata(w, false, 0)
    case Failing(_) => PutFailed(w, false, 0)
    case _ => Release(w)
  }

  /** A worker can get through with what it has, if every store call fails without effect. */
  lemma {:induction false} Finish(s: State, w: nat) returns (e: State)
    requires !WorkerAt(s, w).Stopped?
    ensures Reaches(Serving, s, e) && WorkerAt(e, w).Waiting?
    ensures e.store == s.store && e.queue == s.queue && e.callers == s.callers && e.capacity == s.capacity
    ensures e.inFlight == if WorkerAt(s, w).Waiting? then s.inFlight else s.inFlight - {WorkerAt(s, w).isbn}
    decreases WorkerWork(WorkerAt(s, w))
  {
    if WorkerAt(s, w).Waiting? {
      e := s;
      Stay(Serving, s);
    } else {
      var a := GivingUp(w, WorkerAt(s, w));
      Move(Serving, s, a);
      e := Finish(Do(s, a), w);
      Then(Serving, s, Do(s, a), e);
    }
  }

  /** Some worker can be brought to the point of looking `x` up. */
  ghost predicate Arrives(s: State, x: string) {
    exists e, w :: Reaches(Serving, s, e) && WorkerAt(e, w) == Checked(x)
  }

  lemma ArrivesThen(s: State, m: State, x: string)
    requires Reaches(Serving, s, m) && Arrives(m, x)
    ensures Arrives(s, x)
  {
    var e, w :| Reaches(Serving, m, e) && WorkerAt(e, w) == Checked(x);
    Then(Serving, s, m, e);
  }

  lemma FromWorker(s: State, w: nat, x: string)
    requires AboutToLookUp(WorkerAt(s, w), x) && StatusOf(s.store, x) != Some(Enriched)
    ensures Arrives(s, x)
  {
    Stay(Serving, s);
    if WorkerAt(s, w).Dequeued? {
      var e := Extend(Serving, s, s, ReadStatus(w, true));
      assert WorkerAt(e, w) == Checked(x);
    }
  }

  /** One ISBN is taken off the queue and given up. */
  lemma Skip(s: State, w: nat) returns (e: State)
    requires WorkerAt(s, w).Waiting? && s.queue != []
    ensures Reaches(Serving, s, e) && WorkerAt(e, w).Waiting?
    ensures e.store == s.store && e.queue == s.queue[1..] && e.callers == s.callers && e.capacity == s.capacity
  {
    Move(Serving, s, Dequeue(w));
    e := Finish(Do(s, Dequeue(w)), w);
    Then(Serving, s, Do(s, Dequeue(w)), e);
  }

  lemma {:induction false} FromQueue(s: State, w: nat, x: string)
    requires x in s.queue && WorkerAt(s, w).Waiting? && StatusOf(s.store, x) != Some(Enriched)
    ensures Arrives(s, x)
    decreases |s.queue|
  {
    if s.queue[0] == x {
      Move(Serving, s, Dequeue(w));
      FromWorker(Do(s, Dequeue(w)), w, x);
      ArrivesThen(s, Do(s, Dequeue(w)), x);
    } else {
      var e := Skip(s, w);
      FromQueue(e, w, x);
      ArrivesThen(s, e, x);
    }
  }

  lemma {:induction false} Flush(s: State, w: nat) returns (e: State)
    requires WorkerAt(s, w).Waiting?
    ensures Reaches(Serving, s, e) && WorkerAt(e, w).Waiting? && e.queue == []
    ensures e.store == s.store && e.callers == s.callers && e.capacity == s.capacity
    decreases |s.queue|
  {
    if s.queue == [] {
      e := s;
      Stay(Serving, s);
    } else {
      var m := Skip(s, w);
      e := Flush(m, w);
      Then(Serving, s, m, e);
    }
  }

  /** What the constructions below start from: `w` is running and `x` wants doing. */
  ghost predicate Ready(s: State, w: nat, x: string) {
    Inv(s) && !WorkerAt(s, w).Stopped? && x in NeedsWork(s.store)
  }

  /** A caller that has marked its ISBN can always be brought to send it. */
  lemma SendMarked(s: State, w: nat, t: Tid, x: string) returns (e: State)
    requires Ready(s, w, x) && CallerAt(s, t).Marked?
    ensures Reaches(Serving, s, e) && Ready(e, w, x) && WorkerAt(e, w).Waiting?
    ensures e.store == s.store && e.queue == [CallerAt(s, t).isbn] && CallerAt(e, t) == NextOf(CallerAt(s, t).rest)
  {
    var m := Finish(s, w);
    var f := Flush(m, w);
    Then(Serving, s, m, f);
    InvReaches(Serving, s, f);
    e := Extend(Serving, s, f, Offer(t));
    InvStep(f, Offer(t));
  }

  lemma FromMarked(s: State, w: nat, t: Tid, x: string)
    requires Ready(s, w, x) && CallerAt(s, t).Marked? && CallerAt(s, t).isbn == x
    ensures Arrives(s, x)
  {
    var e := SendMarked(s, w, t, x);
    FromQueue(e, w, x);
    ArrivesThen(s, e, x);
  }

  lemma FromFreeEntering(s: State, w: nat, t: Tid, x: string)
    requires Ready(s, w, x) && CallerAt(s, t).Entering? && CallerAt(s, t).isbn == x && x !in s.inFlight
    ensures Arrives(s, x)
  {
    var m := Do(s, Mark(t));
    Move(Serving, s, Mark(t));
    InvStep(s, Mark(t));
    FromMarked(m, w, t, x);
    ArrivesThen(s, m, x);
  }

  /** Whoever holds `x` either looks it up or can be brought to let go of it. */
  lemma FromEntering(s: State, w: nat, t: Tid, x: string)
    requires Ready(s, w, x) && CallerAt(s, t).Entering? && CallerAt(s, t).isbn == x
    ensures Arrives(s, x)
  {
    if x !in s.inFlight {
      FromFreeEntering(s, w, t, x);
    } else {
      var o :| OwnedBy(s, o);
      match o[x]
      case InQueue =>
        var e := Finish(s, w);
        FromQueue(e, w, x);
        ArrivesThen(s, e, x);
      case ByCaller(u) =>
        assert Holds(CallerAt(s, u), x);
        if CallerAt(s, u).Marked? {
          FromMarked(s, w, u, x);
        } else {
          var m := Do(s, Unmark(u));
          Move(Serving, s, Unmark(u));
          InvStep(s, Unmark(u));
          FromFreeEntering(m, w, t, x);
          ArrivesThen(s, m, x);
        }
      case ByWorker(v) =>
        assert Works(WorkerAt(s, v), x);
        if AboutToLookUp(WorkerAt(s, v), x) {
          FromWorker(s, v, x);
        } else {
          var m := Finish(s, v);
          InvReaches(Serving, s, m);
          FromFreeEntering(m, v, t, x);
          ArrivesThen(s, m, x);
        }
    }
  }

  /** A caller can be brought past the ISBN it is at. */
  lemma Advance(s: State, w: nat, t: Tid, x: string) returns (e: State)
    requires Ready(s, w, x)
    requires var c := CallerAt(s, t); c.Entering? || c.Marked? || c.Dropping?
    ensures Reaches(Serving, s, e) && Ready(e, w, x) && CallerAt(e, t) == NextOf(CallerAt(s, t).rest)
  {
    e := s;
    Stay(Serving, s);
    if CallerAt(e, t).Entering? {
      InvStep(s, Mark(t));
      e := Extend(Serving, s, s, Mark(t));
      if CallerAt(e, t) == NextOf(CallerAt(s, t).rest) { return; }
    }
    if CallerAt(e, t).Marked? {
      var m := e;
      e := SendMarked(m, w, t, x);
      Then(Serving, s, m, e);
    } else {
      InvStep(e, Unmark(t));
      e := Extend(Serving, s, e, Unmark(t));
    }
  }

  lemma {:induction false} FromRest(s: State, w: nat, t: Tid, x: string)
    requires Ready(s, w, x)
    requires var c := CallerAt(s, t); (c.Entering? || c.Marked? || c.Dropping?) && x in c.rest
    ensures Arrives(s, x)
    decreases |CallerAt(s, t).rest|
  {
    var rest := CallerAt(s, t).rest;
    var e := Advance(s, w, t, x);
    if rest[0] == x { FromEntering(e, w, t, x); } else { FromRest(e, w, t, x); }
    ArrivesThen(s, e, x);
  }

  lemma FromRequest(s: State, w: nat, t: Tid, x: string)
    requires Ready(s, w, x)
    requires var c := CallerAt(s, t); (c.Ensuring? || c.Refreshing?) && c.isbn == x
    ensures Arrives(s, x)
  {
    var a := if CallerAt(s, t).Ensuring? then Ensure(t, true, true) else Refresh(t, true, true);
    Move(Serving, s, a);
    InvStep(s, a);
    FromEntering(Do(s, a), w, t, x);
    ArrivesThen(s, Do(s, a), x);
  }

  lemma AheadArrives(s: State, w: nat, x: string)
    requires Ready(s, w, x) && Ahead(s, x)
    ensures Arrives(s, x)
  {
    if x in s.queue {
      var e := Finish(s, w);
      FromQueue(e, w, x);
      ArrivesThen(s, e, x);
    } else if v :| AboutToLookUp(WorkerAt(s, v), x) {
      FromWorker(s, v, x);
    } else {
      var t :| Brings(CallerAt(s, t), x);
      var c := CallerAt(s, t);
      if c.Ensuring? || c.Refreshing? { FromRequest(s, w, t, x); }
      else if c.Entering? && c.isbn == x { FromEntering(s, w, t, x); }
      else if c.Marked? && c.isbn == x { FromMarked(s, w, t, x); }
      else { FromRest(s, w, t, x); }
    }
  }

  lemma {:induction false} LooksUpAtEnd(s: State, steps: seq<Step>, m: State, w: nat, x: string)
    requires Leads(Serving, s, steps, m) && WorkerAt(m, w) == Checked(x)
    ensures LooksUp(s, steps + [BeginLookup(w)], x)
    decreases steps
  {
    var all := steps + [BeginLookup(w)];
    if steps != [] {
      assert all[0] == steps[0] && all[1..] == steps[1..] + [BeginLookup(w)];
      LooksUpAtEnd(Do(s, steps[0]), steps[1..], m, w, x);
    }
  }

  ghost predicate CanBeLookedUp(s: State, x: string) {
    exists steps, e :: Leads(Serving, s, steps, e) && LooksUp(s, steps, x)
  }

  /** From any reachable state with a running worker, the work accepted so far can still lead to a
      Lookup of an unfinished `x` if and only if `x` is queued, or a worker has it and has not begun
      its Lookup, or a caller is still bringing it. When a refresh has gone through Enqueue and none
      of these holds, it is lost: it was coalesced with a worker past the point of looking up, or
      dropped, and only a later sweep or request helps. */
  lemma LookupAheadIff(s: State, w: nat, x: string)
    requires Reachable(s) && !WorkerAt(s, w).Stopped? && x in NeedsWork(s.store)
    ensures CanBeLookedUp(s, x) <==> Ahead(s, x)
  {
    ReachableInv(s);
    if Ahead(s, x) {
      AheadArrives(s, w, x);
      var m, v :| Reaches(Serving, s, m) && WorkerAt(m, v) == Checked(x);
      var steps :| Leads(Serving, s, steps, m);
      LooksUpAtEnd(s, steps, m, v, x);
      OneStep(Serving, m, BeginLookup(v));
      LeadsConcat(Serving, s, steps, m, [BeginLookup(v)], Do(m, BeginLookup(v)));
    } else if CanBeLookedUp(s, x) {
      var steps, e :| Leads(Serving, s, steps, e) && LooksUp(s, steps, x);
      NeverLooksUp(s, steps, e, x);
    }
  }

  /** A refresh that reaches its Mark while nobody else brings `x` comes to nothing exactly when `x`
      is in flight and yet neither queued nor with a worker that has still to begin its Lookup. */
  lemma CoalescedRefreshIff(s: State, w: nat, t: Tid, x: string)
    requires Reachable(s) && !WorkerAt(s, w).Stopped? && x in NeedsWork(s.store)
    requires CallerAt(s, t) == Entering(x, []) && forall u :: u != t ==> !Brings(CallerAt(s, u), x)
    ensures CanBeLookedUp(Do(s, Mark(t)), x) <==> x !in s.inFlight || Accepted(s, x)
  {
    ReachableInv(s);
    ReachableStep(s, Mark(t));
    LookupAheadIff(Do(s, Mark(t)), w, x);
    MarkedOrCoalesced(s, t, x);
  }

  /** A worker whose status read fails gives its ISBN up: a Lookup of it can follow exactly when some
      caller is still bringing it. */
  lemma UnreadIsGivenUp(s: State, w: nat, x: string)
    requires Reachable(s) && WorkerAt(s, w) == Dequeued(x) && x in NeedsWork(s.store)
    ensures Do(s, ReadStatus(w, false)).store == s.store
    ensures CanBeLookedUp(Do(s, ReadStatus(w, false)), x) <==> exists t :: Brings(CallerAt(s, t), x)
  {
    var s' := Do(s, ReadStatus(w, false));
    ReachableStep(s, ReadStatus(w, false));
    LookupAheadIff(s', w, x);
    MutualExclusion(s);
    forall v ensures !AboutToLookUp(WorkerAt(s', v), x) {
      assert WorkerAt(s', v) == if v == w then Returned(x) else WorkerAt(s, v);
      if AboutToLookUp(WorkerAt(s', v), x) {
        assert Works(WorkerAt(s, v), x) && Works(WorkerAt(s, w), x);
      }
    }
    forall t ensures CallerAt(s', t) == CallerAt(s, t) {}
  }

  lemma MarkedOrCoalesced(s: State, t: Tid, x: string)
    requires x != "" && CallerAt(s, t) == Entering(x, []) && forall u :: u != t ==> !Brings(CallerAt(s, u), x)
    ensures Ahead(Do(s, Mark(t)), x) <==> x !in s.inFlight || Accepted(s, x)
  {
    var s' := Do(s, Mark(t));
    forall v ensures WorkerAt(s', v) == WorkerAt(s, v) {}
    if x !in s.inFlight {
      assert Brings(CallerAt(s', t), x);
    } else {
      forall u ensures !Brings(CallerAt(s', u), x) {
        assert u != t ==> !Brings(CallerAt(s, u), x);
      }
    }
  }

  // ---- what must be looked up ----

  /** Every status read of the run is answered. */
  predicate StatusKnown(steps: seq<Step>) {
    forall i :: 0 <= i < |steps| && steps[i].ReadStatus? ==> steps[i].acked
  }

  lemma OnlyEnrichmentFinishes(s: State, a: Step, x: string)
    requires Enabled(s, a) && x in NeedsWork(s.store) && !IsEnrichment(s, a, x)
    ensures x in NeedsWork(Do(s, a).store)
  {
  }

  lemma AwaitedByHolder(s: State, o: map<string, Place>, w: nat, x: string)
    requires OwnedBy(s, o) && Accepted(s, x) && Works(WorkerAt(s, w), x)
    ensures AboutToLookUp(WorkerAt(s, w), x)
  {
    assert o[x] == ByWorker(w);
    if x !in s.queue {
      var v :| AboutToLookUp(WorkerAt(s, v), x);
      OneWorkerPerIsbn(s, o, w, v, x);
    }
  }

  /** Nobody else can enrich an `x` that still awaits its Lookup. */
  lemma AcceptedNotEnriched(s: State, a: Step, x: string)
    requires Inv(s) && Enabled(s, a) && Accepted(s, x)
    ensures !IsEnrichment(s, a, x)
  {
    if IsEnrichment(s, a, x) {
      var o :| OwnedBy(s, o);
      AwaitedByHolder(s, o, a.w, x);
    }
  }

  lemma AcceptedByWorker(s: State, a: Step, w: nat, x: string)
    requires Enabled(s, a) && Internal(a) && (a.ReadStatus? ==> a.acked)
    requires AboutToLookUp(WorkerAt(s, w), x) && x in NeedsWork(s.store)
    requires !(a.BeginLookup? && WorkerAt(s, a.w).isbn == x)
    ensures AboutToLookUp(WorkerAt(Do(s, a), w), x)
  {
  }

  lemma AcceptedStep(s: State, a: Step, x: string)
    requires Inv(s) && Enabled(s, a) && Internal(a) && (a.ReadStatus? ==> a.acked)
    requires Accepted(s, x) && x in NeedsWork(s.store)
    requires !(a.BeginLookup? && WorkerAt(s, a.w).isbn == x)
    ensures Accepted(Do(s, a), x) && x in NeedsWork(Do(s, a).store)
  {
    AcceptedNotEnriched(s, a, x);
    OnlyEnrichmentFinishes(s, a, x);
    if x !in s.queue {
      var w :| AboutToLookUp(WorkerAt(s, w), x);
      AcceptedByWorker(s, a, w, x);
    } else if a.Dequeue? && s.queue[0] == x {
      assert AboutToLookUp(WorkerAt(Do(s, a), a.w), x);
    }
  }

  /** Once an unfinished `x` is in the queue, however the goroutines interleave and whichever writes
      fail, a Lookup of it has begun by the time the accepted work is done. */
  lemma {:induction false} QueuedIsLookedUp(s: State, steps: seq<Step>, e: State, w: nat, x: string)
    requires Reachable(s) && Accepted(s, x) && x in NeedsWork(s.store)
    requires Leads(Serving, s, steps, e) && StatusKnown(steps)
    requires Quiescent(e) && !WorkerAt(e, w).Stopped?
    ensures LooksUp(s, steps, x)
    decreases steps
  {
    if steps == [] {
      WorkerCanMove(s, w);
      var v :| AboutToLookUp(WorkerAt(s, v), x);
      WorkerCanMove(s, v);
    } else {
      ReachableInv(s);
      ReachableStep(s, steps[0]);
      if !(steps[0].BeginLookup? && WorkerAt(s, steps[0].w).isbn == x) {
        AcceptedStep(s, steps[0], x);
        QueuedIsLookedUp(Do(s, steps[0]), steps[1..], e, w, x);
      }
    }
  }

  // ---- the two halves together ----

  ghost predicate Running(s: State) { exists w :: !WorkerAt(s, w).Stopped? }

  /** However the accepted work is brought to an end with every status read answered and a worker left
      running, a Lookup of `x` is begun on the way. */
  ghost predicate MustBeLookedUp(s: State, x: string) {
    forall steps, e :: Leads(Serving, s, steps, e) && StatusKnown(steps) && Quiescent(e) && Running(e) ==>
      LooksUp(s, steps, x)
  }

  /** There is such an end: nobody has to stop, and no status read has to fail. */
  lemma {:induction false} RunsOut(s: State, w: nat) returns (steps: seq<Step>, e: State)
    requires !WorkerAt(s, w).Stopped?
    ensures Leads(Serving, s, steps, e) && StatusKnown(steps) && Quiescent(e) && !WorkerAt(e, w).Stopped?
    decreases Work(s)
  {
    if Quiescent(s) {
      steps, e := [], s;
    } else {
      var a :| Useful(s, a);
      var b := if a.ReadStatus? then ReadStatus(a.w, true) else a;
      if CallerStep(b) { CallerWorkStep(s, b); } else { WorkerWorkStep(s, b); }
      var rest;
      rest, e := RunsOut(Do(s, b), w);
      steps := [b] + rest;
      assert steps[1..] == rest;
    }
  }

  /** "So the worker re-fetches", exactly. Once nobody is bringing an unfinished `x` any more, that it is
      queued or with a worker before its Lookup decides everything: then every way of finishing the
      accepted work looks it up, and otherwise none does. */
  lemma RefetchIff(s: State, w: nat, x: string)
    requires Reachable(s) && !WorkerAt(s, w).Stopped? && x in NeedsWork(s.store)
    requires forall t :: !Brings(CallerAt(s, t), x)
    ensures Accepted(s, x) <==> CanBeLookedUp(s, x)
    ensures Accepted(s, x) <==> MustBeLookedUp(s, x)
  {
    LookupAheadIff(s, w, x);
    if Accepted(s, x) {
      forall steps, e | Leads(Serving, s, steps, e) && StatusKnown(steps) && Quiescent(e) && Running(e)
        ensures LooksUp(s, steps, x)
      {
        var v :| !WorkerAt(e, v).Stopped?;
        QueuedIsLookedUp(s, steps, e, v, x);
      }
    } else {
      var steps, e := RunsOut(s, w);
      NeverLooksUp(s, steps, e, x);
    }
  }
}
