/** What the reconciler delivers however the goroutines interleave: after one sweep, and after rounds
    of a sweep and any way of finishing the work it started. */
module Delivery {
  import opened Order
  import opened Catalog
  import opened Protocol
  import opened Enrichment
  import opened Progress
  import opened Schedule
  import opened Refetch
  import opened Starvation
  import W = Workers

  // ---- what a sweep has listed and the queue has room for is looked up ----

  /** What a caller has still to send. */
  function Unsent(c: Caller): seq<string> {
    if c.Entering? || c.Marked? then [c.isbn] + c.rest else []
  }

  /** The reconciler alone is enqueuing; `x` is the `j`-th it will send, and there is room for it. */
  ghost predicate OnItsWay(s: State, x: string, j: nat) {
    var c := CallerAt(s, Reconciler);
    && (forall t :: t != Reconciler ==> CallerAt(s, t).Idle?)
    && (c.Entering? || c.Marked?) && NoDuplicates(Unsent(c)) && "" !in Unsent(c)
    && j < |Unsent(c)| && Unsent(c)[j] == x && |s.queue| + j < s.capacity
    && (x in s.inFlight ==> j == 0 && c.Marked?)
  }

  /** The rest of a list that is being sent. */
  lemma RestUnsent(c: Caller)
    requires (c.Entering? || c.Marked?) && NoDuplicates(Unsent(c))
    ensures Unsent(NextOf(c.rest)) == Unsent(c)[1..] == c.rest
    ensures NoDuplicates(c.rest) && c.isbn !in c.rest
  {
    NoDuplicatesTail(Unsent(c));
    assert Unsent(c)[1..] == c.rest;
    if c.rest != [] { assert [c.rest[0]] + c.rest[1..] == c.rest; }
  }

  /** A step brings `x` one place nearer, or into the queue, or leaves it where it is. */
  lemma OnItsWayByCaller(s: State, a: Step, x: string, j: nat)
    requires OnItsWay(s, x, j) && Enabled(s, a) && Internal(a) && CallerStep(a)
    ensures x in Do(s, a).queue || OnItsWay(Do(s, a), x, j) || (j > 0 && OnItsWay(Do(s, a), x, j - 1))
  {
    var c, s' := CallerAt(s, Reconciler), Do(s, a);
    assert Thread(a) == Reconciler;
    RestUnsent(c);
    forall t | t != Reconciler ensures CallerAt(s', t).Idle? { assert CallerAt(s, t).Idle?; }
  }

  lemma OnItsWayByWorker(s: State, a: Step, x: string, j: nat)
    requires OnItsWay(s, x, j) && Enabled(s, a) && WorkerStep(a)
    ensures OnItsWay(Do(s, a), x, j)
  {
    forall t | t != Reconciler ensures CallerAt(Do(s, a), t).Idle? { assert CallerAt(s, t).Idle?; }
  }

  /** An `x` that is still to be sent is with no worker. */
  lemma OnItsWayNotWorked(s: State, o: map<string, Place>, x: string, j: nat, w: nat)
    requires OwnedBy(s, o) && OnItsWay(s, x, j)
    ensures !Works(WorkerAt(s, w), x)
  {
    assert Works(WorkerAt(s, w), x) <==> x in o && o[x] == ByWorker(w);
    if x in s.inFlight { assert Holds(CallerAt(s, Reconciler), x); }
  }

  lemma OnItsWayNotEnriched(s: State, a: Step, x: string, j: nat)
    requires Inv(s) && OnItsWay(s, x, j) && Enabled(s, a)
    ensures !IsEnrichment(s, a, x)
  {
    var o :| OwnedBy(s, o);
    if a.PutMetadata? { OnItsWayNotWorked(s, o, x, j, a.w); }
  }

  ghost predicate Coming(s: State, x: string) {
    Accepted(s, x) || exists j :: OnItsWay(s, x, j)
  }

  lemma ComingStep(s: State, a: Step, x: string)
    requires Inv(s) && Enabled(s, a) && Internal(a) && (a.ReadStatus? ==> a.acked)
    requires Coming(s, x) && x in NeedsWork(s.store)
    requires !(a.BeginLookup? && WorkerAt(s, a.w).isbn == x)
    ensures Coming(Do(s, a), x) && x in NeedsWork(Do(s, a).store)
  {
    if Accepted(s, x) {
      AcceptedStep(s, a, x);
    } else {
      var j :| OnItsWay(s, x, j);
      OnItsWayNotEnriched(s, a, x, j);
      OnlyEnrichmentFinishes(s, a, x);
      if CallerStep(a) { OnItsWayByCaller(s, a, x, j); } else { OnItsWayByWorker(s, a, x, j); }
    }
  }

  lemma {:induction false} ComingIsLookedUp(s: State, steps: seq<Step>, e: State, x: string)
    requires Reachable(s) && Coming(s, x) && x in NeedsWork(s.store)
    requires Leads(Serving, s, steps, e) && StatusKnown(steps) && Quiescent(e) && Running(e)
    ensures LooksUp(s, steps, x)
    decreases steps
  {
    if steps == [] {
      CallerCanMove(s, Reconciler);
      var w :| !WorkerAt(s, w).Stopped?;
      QueuedIsLookedUp(s, steps, e, w, x);
    } else if !(steps[0].BeginLookup? && WorkerAt(s, steps[0].w).isbn == x) {
      ReachableInv(s);
      ReachableStep(s, steps[0]);
      ComingStep(s, steps[0], x);
      ComingIsLookedUp(Do(s, steps[0]), steps[1..], e, x);
    }
  }

  /** Where a sweep puts the ISBNs that the queue has room for. */
  lemma SweptIsOnItsWay(s: State, x: string, j: nat)
    requires Reachable(s) && Quiescent(s) && Running(s)
    requires var q := PendingEnrichment(s.store, SWEEP_LIMIT); j < |q| && j < s.capacity && q[j] == x
    ensures Enabled(s, Sweep) && OnItsWay(Do(s, Sweep), x, j)
  {
    var w :| !WorkerAt(s, w).Stopped?;
    ReachableInv(s);
    NothingLeftInFlight(s, w);
    var q, s' := PendingEnrichment(s.store, SWEEP_LIMIT), Do(s, Sweep);
    W.ListedPlainly(s.store, SWEEP_LIMIT);
    assert Unsent(CallerAt(s', Reconciler)) == q;
    forall t | t != Reconciler ensures CallerAt(s', t).Idle? { assert CallerAt(s, t).Idle?; }
  }

  lemma BatchIsListed(s: Store, capacity: nat, x: string) returns (j: nat)
    requires x in W.Batch(s, capacity)
    ensures var q := PendingEnrichment(s, SWEEP_LIMIT); j < |q| && j < capacity && q[j] == x
    ensures x in NeedsWork(s)
  {
    var batch := W.Batch(s, capacity);
    j :| j < |batch| && batch[j] == x;
    assert x in Listing(NeedsWork(s));
  }

  /** From rest, a sweep has each of the first min(100, queue size) unfinished ISBNs looked up, however
      the goroutines interleave, whichever writes fail, provided the status reads are answered. */
  lemma SweptIsLookedUp(s: State, steps: seq<Step>, e: State, x: string)
    requires Reachable(s) && Quiescent(s) && Running(s) && x in W.Batch(s.store, s.capacity)
    requires Enabled(s, Sweep) && Leads(Serving, Do(s, Sweep), steps, e) && StatusKnown(steps)
    requires Quiescent(e) && Running(e)
    ensures LooksUp(Do(s, Sweep), steps, x)
  {
    var j := BatchIsListed(s.store, s.capacity, x);
    SweptIsOnItsWay(s, x, j);
    ReachableStep(s, Sweep);
    ComingIsLookedUp(Do(s, Sweep), steps, e, x);
  }

  // ---- what is looked up and found ends up enriched ----

  lemma {:induction false} AnsweringIsServing(p: W.Provider, s: State, steps: seq<Step>, e: State)
    requires Leads(Answering(p), s, steps, e)
    ensures Leads(Serving, s, steps, e) && StatusKnown(steps)
    decreases steps
  {
    if steps != [] {
      AnsweringIsServing(p, Do(s, steps[0]), steps[1..], e);
      assert forall i :: 0 < i < |steps| ==> steps[i] == steps[1..][i - 1];
    }
  }

  /** Looked up and found, or enriched already. */
  ghost predicate Landing(s: State, y: string) {
    IsEnriched(s, y) || exists w :: InWindow(WorkerAt(s, w), y)
  }

  lemma EnrichedStep(s: State, a: Step, p: W.Provider, y: string)
    requires Inv(s) && Heeds(s, p) && Enabled(s, a) && IsEnriched(s, y)
    ensures IsEnriched(Do(s, a), y)
  {
    StatusMovesInv(s, a, y);
  }

  lemma WindowStep(s: State, a: Step, p: W.Provider, w: nat, y: string)
    requires Enabled(s, a) && Admits(Answering(p), s, a) && p.lookup(y).Some? && InWindow(WorkerAt(s, w), y)
    ensures InWindow(WorkerAt(Do(s, a), w), y) || IsEnriched(Do(s, a), y)
  {
  }

  lemma {:induction false} LandingEnds(p: W.Provider, s: State, steps: seq<Step>, e: State, y: string)
    requires Inv(s) && Heeds(s, p) && Landing(s, y) && p.lookup(y).Some?
    requires Leads(Answering(p), s, steps, e) && Quiescent(e)
    ensures IsEnriched(e, y)
    decreases steps
  {
    if steps == [] {
      if w :| InWindow(WorkerAt(s, w), y) { WorkerCanMove(s, w); }
    } else {
      var a := steps[0];
      if IsEnriched(s, y) {
        EnrichedStep(s, a, p, y);
      } else {
        var w :| InWindow(WorkerAt(s, w), y);
        WindowStep(s, a, p, w, y);
      }
      InvStep(s, a);
      HeedsStep(s, a, p);
      LandingEnds(p, Do(s, a), steps[1..], e, y);
    }
  }

  lemma {:induction false} LookedUpIsEnriched(p: W.Provider, s: State, steps: seq<Step>, e: State, y: string)
    requires Inv(s) && Heeds(s, p) && LooksUp(s, steps, y) && p.lookup(y).Some?
    requires Leads(Answering(p), s, steps, e) && Quiescent(e)
    ensures IsEnriched(e, y)
    decreases steps
  {
    var a, s' := steps[0], Do(s, steps[0]);
    InvStep(s, a);
    HeedsStep(s, a, p);
    if a.BeginLookup? && WorkerAt(s, a.w).isbn == y {
      assert InWindow(WorkerAt(s', a.w), y);
      LandingEnds(p, s', steps[1..], e, y);
    } else {
      LookedUpIsEnriched(p, s', steps[1..], e, y);
    }
  }

  // ---- what else a run without requests does to the catalogue ----

  lemma RowsFixed(s: State, a: Step, p: W.Provider)
    requires Inv(s) && Heeds(s, p) && Enabled(s, a)
    ensures Do(s, a).store.editions.Keys == s.store.editions.Keys
  {
    if WorkerStep(a) { WorkerHasRow(s, a.w); }
  }

  lemma WorkShrinks(s: State, a: Step, p: W.Provider)
    requires Inv(s) && Heeds(s, p) && Enabled(s, a)
    ensures NeedsWork(Do(s, a).store) <= NeedsWork(s.store)
  {
    RowsFixed(s, a, p);
    forall y | y in NeedsWork(Do(s, a).store) ensures y in NeedsWork(s.store) {
      if IsEnriched(s, y) { EnrichedStep(s, a, p, y); }
    }
  }

  lemma {:induction false} WorkShrinksOver(p: W.Provider, s: State, steps: seq<Step>, e: State)
    requires Inv(s) && Heeds(s, p) && Leads(Answering(p), s, steps, e)
    ensures Inv(e) && e.capacity == s.capacity && e.store.editions.Keys == s.store.editions.Keys
    ensures NeedsWork(e.store) <= NeedsWork(s.store)
    ensures forall y :: y in NeedsWork(s.store) && p.lookup(y).None? ==> y in NeedsWork(e.store)
    decreases steps
  {
    if steps != [] {
      var a := steps[0];
      InvStep(s, a);
      HeedsStep(s, a, p);
      RowsFixed(s, a, p);
      WorkShrinks(s, a, p);
      forall y | y in NeedsWork(s.store) && p.lookup(y).None? ensures y in NeedsWork(Do(s, a).store) {
        UnfoundStep(s, a, p, y);
      }
      WorkShrinksOver(p, Do(s, a), steps[1..], e);
    }
  }

  // ---- rounds: a sweep, then any way of finishing what it started ----

  ghost predicate AtPeace(s: State) { Reachable(s) && Quiescent(s) && Running(s) }

  ghost predicate RoundRun(p: W.Provider, s: State, e: State) {
    Enabled(s, Sweep) && Quiescent(e) && Running(e) && Reaches(Answering(p), Do(s, Sweep), e)
  }

  lemma PeaceKept(p: W.Provider, s: State, e: State)
    requires AtPeace(s) && RoundRun(p, s, e)
    ensures AtPeace(e) && Inv(Do(s, Sweep)) && Heeds(Do(s, Sweep), p)
  {
    var w :| !WorkerAt(s, w).Stopped?;
    AtRest(s, w, p, "");
    ReachableStep(s, Sweep);
    ReachableReaches(Answering(p), Do(s, Sweep), e);
    ReachableInv(Do(s, Sweep));
    HeedsStep(s, Sweep, p);
  }

  /** A round loses no row, takes nothing back and finishes nothing that the source never finds. */
  lemma RoundKeeps(p: W.Provider, s: State, e: State)
    requires AtPeace(s) && RoundRun(p, s, e)
    ensures AtPeace(e) && e.capacity == s.capacity && e.store.editions.Keys == s.store.editions.Keys
    ensures NeedsWork(e.store) <= NeedsWork(s.store)
    ensures forall y :: y in NeedsWork(s.store) && p.lookup(y).None? ==> y in NeedsWork(e.store)
  {
    var steps :| Leads(Answering(p), Do(s, Sweep), steps, e);
    PeaceKept(p, s, e);
    WorkShrinksOver(p, Do(s, Sweep), steps, e);
  }

  /** Whatever the interleaving, a round finishes at least what a sequential round finishes. */
  lemma RoundFinishes(p: W.Provider, s: State, e: State)
    requires AtPeace(s) && RoundRun(p, s, e)
    ensures NeedsWork(e.store) <= NeedsWork(W.Round(s.store, s.capacity, p, 0))
  {
    var s' := Do(s, Sweep);
    var steps :| Leads(Answering(p), s', steps, e);
    PeaceKept(p, s, e);
    RoundKeeps(p, s, e);
    AnsweringIsServing(p, s', steps, e);
    W.RoundEffect(s.store, s.capacity, p, 0);
    forall y | y in W.Found(W.Batch(s.store, s.capacity), p) ensures y !in NeedsWork(e.store) {
      SweptIsLookedUp(s, steps, e, y);
      LookedUpIsEnriched(p, s', steps, e, y);
    }
  }

  /** What keeps `x` from being starved by rounds. */
  ghost predicate Deliverable(p: W.Provider, s: State, x: string) {
    p.lookup(x).Some? && |W.Blockers(s.store, p, x)| < W.Width(s.capacity)
  }

  /** A round either reaches `x` or finishes something below it. */
  lemma RoundAdvances(p: W.Provider, s: State, e: State, x: string)
    requires AtPeace(s) && RoundRun(p, s, e) && x in NeedsWork(s.store) && Deliverable(p, s, x)
    ensures x in NeedsWork(e.store) ==>
              |Below(NeedsWork(e.store), x)| < |Below(NeedsWork(s.store), x)| && Deliverable(p, e, x)
  {
    RoundKeeps(p, s, e);
    RoundFinishes(p, s, e);
    W.RoundEffect(s.store, s.capacity, p, 0);
    if x in NeedsWork(e.store) {
      assert x !in W.Found(W.Batch(s.store, s.capacity), p);
      W.QueueAdvances(s.store, s.capacity, p, 0, x);
      SubsetSize(Below(NeedsWork(e.store), x), Below(NeedsWork(W.Round(s.store, s.capacity, p, 0)), x));
      assert W.Blockers(e.store, p, x) == W.Blockers(s.store, p, x);
    }
  }

  ghost predicate RoundAt(p: W.Provider, states: seq<State>, i: nat)
    requires i + 1 < |states|
  {
    RoundRun(p, states[i], states[i + 1])
  }

  /** The states between `n` rounds from `s`, the first and the last included. */
  ghost predicate RoundsFrom(p: W.Provider, s: State, n: nat, states: seq<State>) {
    |states| == n + 1 && states[0] == s && AtPeace(s) && forall i: nat :: i < n ==> RoundAt(p, states, i)
  }

  lemma {:induction false} PeaceAlong(p: W.Provider, s: State, n: nat, states: seq<State>, i: nat)
    requires RoundsFrom(p, s, n, states) && i <= n
    ensures AtPeace(states[i])
    decreases i
  {
    if i > 0 {
      PeaceAlong(p, s, n, states, i - 1);
      assert RoundAt(p, states, i - 1);
      RoundKeeps(p, states[i - 1], states[i]);
    }
  }

  lemma StepKeeps(p: W.Provider, s: State, n: nat, states: seq<State>, i: nat)
    requires RoundsFrom(p, s, n, states) && i < n
    ensures states[i + 1].capacity == states[i].capacity
    ensures states[i + 1].store.editions.Keys == states[i].store.editions.Keys
    ensures NeedsWork(states[i + 1].store) <= NeedsWork(states[i].store)
  {
    PeaceAlong(p, s, n, states, i);
    assert RoundAt(p, states, i);
    RoundKeeps(p, states[i], states[i + 1]);
  }

  lemma StepAdvances(p: W.Provider, s: State, n: nat, states: seq<State>, i: nat, x: string)
    requires RoundsFrom(p, s, n, states) && i < n
    requires x in NeedsWork(states[i].store) && Deliverable(p, states[i], x)
    ensures x in NeedsWork(states[i + 1].store) ==>
              && |Below(NeedsWork(states[i + 1].store), x)| < |Below(NeedsWork(states[i].store), x)|
              && Deliverable(p, states[i + 1], x)
  {
    PeaceAlong(p, s, n, states, i);
    assert RoundAt(p, states, i);
    RoundAdvances(p, states[i], states[i + 1], x);
  }

  /** `x` is reached after at most as many rounds as there are unfinished ISBNs below it, and one. */
  lemma {:induction false} RoundsDeliver(p: W.Provider, s: State, n: nat, states: seq<State>, i: nat, x: string)
    requires RoundsFrom(p, s, n, states) && i <= n && x in NeedsWork(s.store) && Deliverable(p, s, x)
    ensures x in states[i].store.editions
    ensures x in NeedsWork(states[i].store) ==>
              i + |Below(NeedsWork(states[i].store), x)| <= |Below(NeedsWork(s.store), x)| && Deliverable(p, states[i], x)
    decreases i
  {
    if i > 0 {
      RoundsDeliver(p, s, n, states, i - 1, x);
      StepKeeps(p, s, n, states, i - 1);
      if x in NeedsWork(states[i - 1].store) { StepAdvances(p, s, n, states, i - 1, x); }
    }
  }

  // ---- sequential rounds are among them ----

  lemma {:induction false} IdleStays(r: Rule, s: State, steps: seq<Step>, e: State, t: Tid)
    requires Leads(r, s, steps, e) && !r.Sweeping? && CallerAt(s, t).Idle?
    ensures CallerAt(e, t).Idle?
    decreases steps
  {
    if steps != [] { IdleStays(r, Do(s, steps[0]), steps[1..], e, t); }
  }

  lemma RestedIsQuiescent(s: State, w: nat)
    requires Inv(s) && Rested(s, w) && forall t :: CallerAt(s, t).Idle?
    ensures Quiescent(s)
  {
    forall a ensures !Useful(s, a) {
      if Useful(s, a) && WorkerStep(a) { WorkerHasRow(s, a.w); }
    }
  }

  lemma SequentialRound(s: State, w: nat, p: W.Provider) returns (e: State)
    requires AtPeace(s) && !WorkerAt(s, w).Stopped?
    ensures RoundRun(p, s, e) && !WorkerAt(e, w).Stopped? && e.store == W.Round(s.store, s.capacity, p, 0)
  {
    AtRest(s, w, p, "");
    NothingLeftInFlight(s, w);
    e := SentAndDrained(Answering(p), s, w, 0);
    var s' := Do(s, Sweep);
    var steps :| Leads(Answering(p), s', steps, e);
    forall t ensures CallerAt(e, t).Idle? {
      assert t != Reconciler ==> CallerAt(s', t) == CallerAt(s, t);
      if t != Reconciler { IdleStays(Answering(p), s', steps, e, t); }
    }
    ReachableStep(s, Sweep);
    ReachableReaches(Answering(p), s', e);
    ReachableInv(e);
    RestedIsQuiescent(e, w);
  }

  lemma OneMore(p: W.Provider, s: State, m: State, n: nat, rest: seq<State>)
    requires AtPeace(s) && RoundRun(p, s, m) && RoundsFrom(p, m, n, rest)
    ensures RoundsFrom(p, s, n + 1, [s] + rest)
  {
    var states := [s] + rest;
    forall i: nat | i < n + 1 ensures RoundAt(p, states, i) {
      if i > 0 { assert RoundAt(p, rest, i - 1); }
    }
  }

  lemma {:induction false} SequentialRounds(s: State, w: nat, p: W.Provider, n: nat) returns (states: seq<State>)
    requires AtPeace(s) && !WorkerAt(s, w).Stopped?
    ensures RoundsFrom(p, s, n, states) && states[n].store == W.Rounds(s.store, s.capacity, p, 0, n)
    decreases n
  {
    if n == 0 {
      states := [s];
    } else {
      var m := SequentialRound(s, w, p);
      RoundKeeps(p, s, m);
      var rest := SequentialRounds(m, w, p, n - 1);
      OneMore(p, s, m, n - 1, rest);
      states := [s] + rest;
    }
  }

  // ---- the exact conditions ----

  /** However the goroutines interleave, `x` is enriched after `n` rounds. */
  ghost predicate AlwaysEnriched(p: W.Provider, s: State, n: nat, x: string) {
    forall states: seq<State> :: RoundsFrom(p, s, n, states) ==> IsEnriched(states[n], x)
  }

  /** "Nothing is permanently lost", as a guarantee. From rest, while no request arrives, status reads
      are answered and metadata is saved: there is a number of rounds after which an unfinished `x` is
      enriched in every interleaving if and only if the source finds it and fewer than
      min(100, queue size) unfinished ISBNs that the source never finds sort below it; and then one
      round more than there are unfinished ISBNs below it suffices. */
  lemma DeliveredIff(s: State, p: W.Provider, x: string)
    requires AtPeace(s) && x in NeedsWork(s.store)
    ensures (exists n :: AlwaysEnriched(p, s, n, x))
       <==> p.lookup(x).Some? && |W.Blockers(s.store, p, x)| < W.Min(100, s.capacity)
    ensures p.lookup(x).Some? && |W.Blockers(s.store, p, x)| < W.Min(100, s.capacity) ==>
              forall n :: n > |Below(NeedsWork(s.store), x)| ==> AlwaysEnriched(p, s, n, x)
  {
    if Deliverable(p, s, x) {
      forall n: nat | n > |Below(NeedsWork(s.store), x)| ensures AlwaysEnriched(p, s, n, x) {
        Delivered(s, p, n, x);
      }
      assert AlwaysEnriched(p, s, |Below(NeedsWork(s.store), x)| + 1, x);
    } else {
      forall n: nat ensures !AlwaysEnriched(p, s, n, x) { Undelivered(s, p, n, x); }
    }
  }

  lemma Delivered(s: State, p: W.Provider, n: nat, x: string)
    requires x in NeedsWork(s.store) && Deliverable(p, s, x) && n > |Below(NeedsWork(s.store), x)|
    ensures AlwaysEnriched(p, s, n, x)
  {
    forall states: seq<State> | RoundsFrom(p, s, n, states) ensures IsEnriched(states[n], x) {
      RoundsDeliver(p, s, n, states, n, x);
    }
  }

  lemma Undelivered(s: State, p: W.Provider, n: nat, x: string)
    requires AtPeace(s) && x in NeedsWork(s.store) && !Deliverable(p, s, x)
    ensures !AlwaysEnriched(p, s, n, x)
  {
    var w :| !WorkerAt(s, w).Stopped?;
    var states := SequentialRounds(s, w, p, n);
    W.StarvedRounds(s.store, s.capacity, p, 0, x, n);
  }

  lemma RoundDrains(p: W.Provider, s: State, e: State)
    requires AtPeace(s) && RoundRun(p, s, e) && W.FindsAll(p)
    ensures |NeedsWork(e.store)| <= |NeedsWork(s.store)| - W.Min(|NeedsWork(s.store)|, W.Width(s.capacity))
  {
    RoundFinishes(p, s, e);
    W.RoundShrinks(s.store, s.capacity, p, 0);
    SubsetSize(NeedsWork(e.store), NeedsWork(W.Round(s.store, s.capacity, p, 0)));
  }

  lemma StepDrains(p: W.Provider, s: State, n: nat, states: seq<State>, i: nat)
    requires RoundsFrom(p, s, n, states) && i < n && W.FindsAll(p)
    ensures var left := |NeedsWork(states[i].store)|;
            |NeedsWork(states[i + 1].store)| <= left - W.Min(left, W.Width(states[i].capacity))
  {
    PeaceAlong(p, s, n, states, i);
    assert RoundAt(p, states, i);
    RoundDrains(p, states[i], states[i + 1]);
  }

  lemma TakenMore(n: nat, k: nat)
    ensures W.Taken(n + 1, k) == k + W.Taken(n, k)
  {
  }

  lemma {:induction false} RoundsDrain(p: W.Provider, s: State, n: nat, states: seq<State>, i: nat)
    requires RoundsFrom(p, s, n, states) && i <= n && W.FindsAll(p)
    ensures states[i].capacity == s.capacity
    ensures |NeedsWork(states[i].store)| <= |NeedsWork(s.store)| - W.Min(|NeedsWork(s.store)|, W.Taken(i, W.Width(s.capacity)))
    decreases i
  {
    if i > 0 {
      RoundsDrain(p, s, n, states, i - 1);
      StepKeeps(p, s, n, states, i - 1);
      StepDrains(p, s, n, states, i - 1);
      TakenMore(i - 1, W.Width(s.capacity));
    }
  }

  ghost predicate AlwaysDrained(p: W.Provider, s: State, n: nat) {
    forall states: seq<State> :: RoundsFrom(p, s, n, states) ==> NeedsWork(states[n].store) == {}
  }

  /** With a source that finds everything, n rounds finish the catalogue in every interleaving exactly
      when they finish it sequentially: no interleaving is worse. */
  lemma DrainedIff(s: State, p: W.Provider, n: nat)
    requires AtPeace(s) && W.FindsAll(p)
    ensures s.capacity >= 1
    ensures AlwaysDrained(p, s, n) <==> n >= (|NeedsWork(s.store)| + W.Width(s.capacity) - 1) / W.Width(s.capacity)
  {
    ReachableInv(s);
    W.CeilDiv(|NeedsWork(s.store)|, W.Width(s.capacity), n);
    if W.Taken(n, W.Width(s.capacity)) >= |NeedsWork(s.store)| {
      forall states: seq<State> | RoundsFrom(p, s, n, states) ensures NeedsWork(states[n].store) == {} {
        RoundsDrain(p, s, n, states, n);
      }
    } else {
      var w :| !WorkerAt(s, w).Stopped?;
      var states := SequentialRounds(s, w, p, n);
      W.RoundsLeft(s.store, s.capacity, p, 0, n);
    }
  }
}
