/** The enrichment worker as a transition system. HTTP callers and one reconciler enqueue in two
    steps (mark in flight, then a non-blocking send or a drop); workers dequeue and run `process`
    one store or provider call at a time. Every interleaving of these steps is a run. */
module Protocol {
  import opened Order
  import opened Catalog

  const SWEEP_LIMIT := 100

  /** The goroutines that call Enqueue. */
  datatype Tid = Http(n: nat) | Reconciler

  /** Where such a goroutine stands; `rest` is what the reconciler still has to enqueue. */
  datatype Caller =
    | Idle
    | Ensuring(isbn: string)
    | Refreshing(isbn: string)
    | Entering(isbn: string, rest: seq<string>)
    | Marked(isbn: string, rest: seq<string>)
    | Dropping(isbn: string, rest: seq<string>)

  /** Where a worker goroutine stands; `since` is the instant its Lookup began. */
  datatype Stage =
    | Waiting
    | Stopped
    | Dequeued(isbn: string)
    | Checked(isbn: string)
    | LookingUp(isbn: string, since: nat)
    | FetchingCover(isbn: string, since: nat, meta: Metadata)
    | SavingCover(isbn: string, since: nat, meta: Metadata, cover: Cover)
    | SavingMetadata(isbn: string, since: nat, meta: Metadata, covered: bool)
    | Failing(isbn: string)
    | Returned(isbn: string)

  datatype State = State(
    capacity: nat, store: Store, queue: seq<string>, inFlight: set<string>,
    callers: map<Tid, Caller>, workers: map<nat, Stage>, clock: nat)

  /** One atomic action. `committed` says whether a store write took effect and `acked` whether it
      returned without an error; an error may hide a write that did take effect. */
  datatype Step =
    | WriteBooks(books: map<string, Book>)
    | CallEnqueue(t: Tid, isbn: string)
    | CallRefresh(t: Tid, isbn: string)
    | Ensure(t: Tid, committed: bool, acked: bool)
    | Refresh(t: Tid, committed: bool, acked: bool)
    | Sweep
    | Mark(t: Tid)
    | Offer(t: Tid)
    | Unmark(t: Tid)
    | Dequeue(w: nat)
    | Stop(w: nat)
    | ReadStatus(w: nat, acked: bool)
    | BeginLookup(w: nat)
    | EndLookup(w: nat, found: Option<Metadata>)
    | EndFetch(w: nat, image: Option<Cover>)
    | PutCover(w: nat, committed: bool)
    | PutMetadata(w: nat, committed: bool, now: int)
    | PutFailed(w: nat, committed: bool, now: int)
    | Release(w: nat)

  function CallerAt(s: State, t: Tid): Caller {
    if t in s.callers then s.callers[t] else Idle
  }

  function WorkerAt(s: State, w: nat): Stage {
    if w in s.workers then s.workers[w] else Stopped
  }

  /** What a caller does once it is through with one ISBN. */
  function NextOf(rest: seq<string>): Caller {
    if rest == [] then Idle else Entering(rest[0], rest[1..])
  }

  predicate Enabled(s: State, a: Step) {
    match a
    case WriteBooks(_) => true
    case CallEnqueue(t, _) => t.Http? && CallerAt(s, t).Idle?
    case CallRefresh(t, _) => t.Http? && CallerAt(s, t).Idle?
    case Ensure(t, committed, acked) => CallerAt(s, t).Ensuring? && (acked ==> committed)
    case Refresh(t, committed, acked) => CallerAt(s, t).Refreshing? && (acked ==> committed)
    case Sweep => CallerAt(s, Reconciler).Idle?
    case Mark(t) => CallerAt(s, t).Entering?
    case Offer(t) => CallerAt(s, t).Marked?
    case Unmark(t) => CallerAt(s, t).Dropping?
    case Dequeue(w) => WorkerAt(s, w).Waiting? && s.queue != []
    case Stop(w) => WorkerAt(s, w).Waiting?
    case ReadStatus(w, _) => WorkerAt(s, w).Dequeued?
    case BeginLookup(w) => WorkerAt(s, w).Checked?
    case EndLookup(w, _) => WorkerAt(s, w).LookingUp?
    case EndFetch(w, _) => WorkerAt(s, w).FetchingCover?
    case PutCover(w, _) => WorkerAt(s, w).SavingCover?
    case PutMetadata(w, _, _) => WorkerAt(s, w).SavingMetadata?
    case PutFailed(w, _, _) => WorkerAt(s, w).Failing?
    case Release(w) => WorkerAt(s, w).Returned?
  }

  /** Steps that move a caller: its next position. */
  ghost function CallerAfter(s: State, a: Step): Caller
    requires Enabled(s, a) && CallerStep(a)
  {
    var c := CallerAt(s, Thread(a));
    match a
    case CallEnqueue(_, isbn) => if isbn == "" then Idle else Ensuring(isbn)
    case CallRefresh(_, isbn) => if isbn == "" then Idle else Refreshing(isbn)
    case Ensure(_, _, acked) => if acked then Entering(c.isbn, []) else Idle
    case Refresh(_, _, acked) => if acked then Entering(c.isbn, []) else Idle
    case Sweep => NextOf(PendingEnrichment(s.store, SWEEP_LIMIT))
    case Mark(_) => if c.isbn == "" || c.isbn in s.inFlight then NextOf(c.rest) else Marked(c.isbn, c.rest)
    case Offer(_) => if |s.queue| < s.capacity then NextOf(c.rest) else Dropping(c.isbn, c.rest)
    case Unmark(_) => NextOf(c.rest)
  }

  predicate CallerStep(a: Step) {
    a.CallEnqueue? || a.CallRefresh? || a.Ensure? || a.Refresh? || a.Sweep? || a.Mark? || a.Offer? || a.Unmark?
  }

  function Thread(a: Step): Tid
    requires CallerStep(a)
  {
    if a.Sweep? then Reconciler else a.t
  }

  /** Steps that move a worker: its next position. */
  function WorkerAfter(s: State, a: Step): Stage
    requires Enabled(s, a) && WorkerStep(a)
  {
    var p := WorkerAt(s, a.w);
    match a
    case Dequeue(_) => Dequeued(s.queue[0])
    case Stop(_) => Stopped
    case ReadStatus(_, acked) =>
      if !acked || StatusOf(s.store, p.isbn) == Some(Enriched) then Returned(p.isbn) else Checked(p.isbn)
    case BeginLookup(_) => LookingUp(p.isbn, s.clock)
    case EndLookup(_, found) =>
      if found.None? then Failing(p.isbn) else FetchingCover(p.isbn, p.since, found.value)
    case EndFetch(_, image) =>
      if image.None? then SavingMetadata(p.isbn, p.since, p.meta, false)
      else SavingCover(p.isbn, p.since, p.meta, image.value)
    case PutCover(_, committed) => SavingMetadata(p.isbn, p.since, p.meta, committed)
    case PutMetadata(_, _, _) => Returned(p.isbn)
    case PutFailed(_, _, _) => Returned(p.isbn)
    case Release(_) => Waiting
  }

  predicate WorkerStep(a: Step) {
    !CallerStep(a) && !a.WriteBooks?
  }

  function StoreAfter(s: State, a: Step): Store
    requires Enabled(s, a)
  {
    match a
    case WriteBooks(books) => s.store.(books := books)
    case Ensure(t, true, _) => EnsureEdition(s.store, CallerAt(s, t).isbn)
    case Refresh(t, true, _) => MarkEditionPending(s.store, CallerAt(s, t).isbn)
    case PutCover(w, true) => SaveCover(s.store, WorkerAt(s, w).isbn, WorkerAt(s, w).cover)
    case PutMetadata(w, true, now) =>
      SaveEnrichment(s.store, WorkerAt(s, w).isbn, Some(WorkerAt(s, w).meta), Enriched, now)
    case PutFailed(w, true, now) => SaveEnrichment(s.store, WorkerAt(s, w).isbn, None, Failed, now)
    case _ => s.store
  }

  function QueueAfter(s: State, a: Step): seq<string>
    requires Enabled(s, a)
  {
    match a
    case Offer(t) => if |s.queue| < s.capacity then s.queue + [CallerAt(s, t).isbn] else s.queue
    case Dequeue(_) => s.queue[1..]
    case _ => s.queue
  }

  function InFlightAfter(s: State, a: Step): set<string>
    requires Enabled(s, a)
  {
    match a
    case Mark(t) => if CallerAt(s, t).isbn == "" then s.inFlight else s.inFlight + {CallerAt(s, t).isbn}
    case Unmark(t) => s.inFlight - {CallerAt(s, t).isbn}
    case Release(w) => s.inFlight - {WorkerAt(s, w).isbn}
    case _ => s.inFlight
  }

  ghost function Do(s: State, a: Step): State
    requires Enabled(s, a)
  {
    State(s.capacity, StoreAfter(s, a), QueueAfter(s, a), InFlightAfter(s, a),
          if CallerStep(a) then s.callers[Thread(a) := CallerAfter(s, a)] else s.callers,
          if WorkerStep(a) then s.workers[a.w := WorkerAfter(s, a)] else s.workers,
          s.clock + 1)
  }

  ghost predicate Runs(s: State, steps: seq<Step>)
    decreases steps
  {
    steps != [] ==> Enabled(s, steps[0]) && Runs(Do(s, steps[0]), steps[1..])
  }

  ghost function After(s: State, steps: seq<Step>): State
    requires Runs(s, steps)
    decreases steps
  {
    if steps == [] then s else After(Do(s, steps[0]), steps[1..])
  }

  /** A fresh process over whatever store an earlier one left behind. */
  ghost predicate Init(s: State) {
    && s.capacity >= 1 && s.queue == [] && s.inFlight == {} && s.callers == map[]
    && (forall w :: w in s.workers ==> s.workers[w].Waiting?)
    && CoversConsistent(s.store) && "" !in s.store.editions
  }

  ghost predicate Reachable(s: State) {
    exists s0, steps :: Init(s0) && Runs(s0, steps) && s == After(s0, steps)
  }

  // ---- who holds an ISBN ----

  /** Between mark and send or drop. */
  predicate Holds(c: Caller, x: string) {
    (c.Marked? || c.Dropping?) && c.isbn == x
  }

  /** From dequeue to unmark. */
  predicate Works(p: Stage, x: string) {
    !p.Waiting? && !p.Stopped? && p.isbn == x
  }

  /** Past the status check and not yet through with the store. */
  predicate PastCheck(p: Stage) {
    p.Checked? || p.LookingUp? || p.FetchingCover? || p.SavingCover? || p.SavingMetadata? || p.Failing?
  }

  /** Lookup has begun and may still lead to an enrichment. */
  predicate InWindow(p: Stage, x: string) {
    (p.LookingUp? || p.FetchingCover? || p.SavingCover? || p.SavingMetadata?) && p.isbn == x
  }

  datatype Place = ByCaller(t: Tid) | InQueue | ByWorker(w: nat)

  ghost predicate HeldByCallers(s: State, o: map<string, Place>) {
    forall t, x :: Holds(CallerAt(s, t), x) <==> x in o && o[x] == ByCaller(t)
  }

  ghost predicate HeldByWorkers(s: State, o: map<string, Place>) {
    forall w, x :: Works(WorkerAt(s, w), x) <==> x in o && o[x] == ByWorker(w)
  }

  ghost predicate HeldInQueue(s: State, o: map<string, Place>) {
    NoDuplicates(s.queue) && forall x :: x in s.queue <==> x in o && o[x] == InQueue
  }

  /** Every ISBN in flight has exactly one place. */
  ghost predicate OwnedBy(s: State, o: map<string, Place>) {
    o.Keys == s.inFlight && HeldByCallers(s, o) && HeldByWorkers(s, o) && HeldInQueue(s, o)
  }

  function NextOwner(s: State, a: Step, o: map<string, Place>): map<string, Place>
    requires Enabled(s, a)
  {
    match a
    case Mark(t) =>
      var x := CallerAt(s, t).isbn;
      if x == "" || x in s.inFlight then o else o[x := ByCaller(t)]
    case Offer(t) => if |s.queue| < s.capacity then o[CallerAt(s, t).isbn := InQueue] else o
    case Unmark(t) => o - {CallerAt(s, t).isbn}
    case Dequeue(w) => o[s.queue[0] := ByWorker(w)]
    case Release(w) => o - {WorkerAt(s, w).isbn}
    case _ => o
  }

  /** A worker's step gives no caller anything and takes nothing from one. */
  lemma HoldsBesideWorker(s: State, a: Step, o: map<string, Place>, t: Tid, x: string)
    requires OwnedBy(s, o) && Enabled(s, a) && WorkerStep(a)
    ensures (x in o && o[x] == ByCaller(t)) <==> x in NextOwner(s, a, o) && NextOwner(s, a, o)[x] == ByCaller(t)
  {
    if a.Dequeue? {
      assert s.queue[0] in s.queue;
    } else if a.Release? {
      assert Works(WorkerAt(s, a.w), WorkerAt(s, a.w).isbn);
    }
  }

  /** Neither does another caller's. */
  lemma HoldsBesideCaller(s: State, a: Step, o: map<string, Place>, t: Tid, x: string)
    requires OwnedBy(s, o) && Enabled(s, a) && CallerStep(a) && Thread(a) != t
    ensures (x in o && o[x] == ByCaller(t)) <==> x in NextOwner(s, a, o) && NextOwner(s, a, o)[x] == ByCaller(t)
  {
    if a.Offer? || a.Unmark? {
      var y := CallerAt(s, a.t).isbn;
      assert Holds(CallerAt(s, a.t), y);
      assert o[y] == ByCaller(a.t);
    }
  }

  lemma HoldsMover(s: State, a: Step, o: map<string, Place>, x: string)
    requires OwnedBy(s, o) && Enabled(s, a) && CallerStep(a)
    ensures var t := Thread(a);
            Holds(CallerAfter(s, a), x) <==> x in NextOwner(s, a, o) && NextOwner(s, a, o)[x] == ByCaller(t)
  {
    assert Holds(CallerAt(s, Thread(a)), x) <==> x in o && o[x] == ByCaller(Thread(a));
  }

  lemma HoldsStep(s: State, a: Step, o: map<string, Place>, t: Tid, x: string)
    requires OwnedBy(s, o) && Enabled(s, a)
    ensures Holds(CallerAt(Do(s, a), t), x) <==> x in NextOwner(s, a, o) && NextOwner(s, a, o)[x] == ByCaller(t)
  {
    assert Holds(CallerAt(s, t), x) <==> x in o && o[x] == ByCaller(t);
    if WorkerStep(a) {
      HoldsBesideWorker(s, a, o, t, x);
    } else if CallerStep(a) {
      if Thread(a) == t { HoldsMover(s, a, o, x); } else { HoldsBesideCaller(s, a, o, t, x); }
    }
  }

  lemma CallersStep(s: State, a: Step, o: map<string, Place>)
    requires OwnedBy(s, o) && Enabled(s, a)
    ensures HeldByCallers(Do(s, a), NextOwner(s, a, o))
  {
    var s', o' := Do(s, a), NextOwner(s, a, o);
    forall t, x ensures Holds(CallerAt(s', t), x) <==> x in o' && o'[x] == ByCaller(t) {
      HoldsStep(s, a, o, t, x);
    }
  }

  lemma WorksStep(s: State, a: Step, o: map<string, Place>, w: nat, x: string)
    requires OwnedBy(s, o) && Enabled(s, a)
    ensures Works(WorkerAt(Do(s, a), w), x) <==> x in NextOwner(s, a, o) && NextOwner(s, a, o)[x] == ByWorker(w)
  {
    assert Works(WorkerAt(s, w), x) <==> x in o && o[x] == ByWorker(w);
  }

  lemma WorkersStep(s: State, a: Step, o: map<string, Place>)
    requires OwnedBy(s, o) && Enabled(s, a)
    ensures HeldByWorkers(Do(s, a), NextOwner(s, a, o))
  {
    var s', o' := Do(s, a), NextOwner(s, a, o);
    forall w, x ensures Works(WorkerAt(s', w), x) <==> x in o' && o'[x] == ByWorker(w) {
      WorksStep(s, a, o, w, x);
    }
  }

  lemma OfferStep(s: State, a: Step, o: map<string, Place>)
    requires OwnedBy(s, o) && Enabled(s, a) && a.Offer?
    ensures HeldInQueue(Do(s, a), NextOwner(s, a, o))
  {
    var x := CallerAt(s, a.t).isbn;
    assert Holds(CallerAt(s, a.t), x);
    NoDuplicatesAppend(s.queue, x);
  }

  lemma DequeueStep(s: State, a: Step, o: map<string, Place>)
    requires OwnedBy(s, o) && Enabled(s, a) && a.Dequeue?
    ensures HeldInQueue(Do(s, a), NextOwner(s, a, o))
  {
    NoDuplicatesTail(s.queue);
  }

  lemma QueueStep(s: State, a: Step, o: map<string, Place>)
    requires OwnedBy(s, o) && Enabled(s, a)
    ensures HeldInQueue(Do(s, a), NextOwner(s, a, o))
  {
    if a.Offer? { OfferStep(s, a, o); } else if a.Dequeue? { DequeueStep(s, a, o); }
  }

  lemma OwnershipStep(s: State, a: Step, o: map<string, Place>)
    requires OwnedBy(s, o) && Enabled(s, a)
    ensures OwnedBy(Do(s, a), NextOwner(s, a, o))
  {
    CallersStep(s, a, o);
    WorkersStep(s, a, o);
    QueueStep(s, a, o);
    assert NextOwner(s, a, o).Keys == InFlightAfter(s, a);
  }
}
