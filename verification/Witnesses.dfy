/** Runs behind the exact conditions: for every ISBN, refreshes that come to nothing and one that an
    older Lookup may absorb; and an ISBN that no interleaving ever gets enriched. */
module Witnesses {
  import opened Order
  import opened Catalog
  import opened Protocol
  import opened Enrichment
  import opened Progress
  import opened Schedule
  import opened Refetch
  import opened Starvation
  import Isbn
  import W = Workers

  const META := Metadata("Title", "Author", "", "", "", 0)

  const ALICE := Http(0)

  // ---- refreshes ----

  ghost function Fresh(): State {
    State(1, Store(map[], map[], map[]), [], {}, map[], map[0 := Waiting], 0)
  }

  /** What the runs below look like while worker 0 has `x`: nothing else is queued or in flight. */
  ghost predicate Busy(x: string, s: State, caller: Caller, worker: Stage, status: Status) {
    && s.queue == [] && s.inFlight == {x} && s.capacity == 1
    && s.callers == map[ALICE := caller] && s.workers == map[0 := worker] && !worker.Stopped?
    && StatusOf(s.store, x) == Some(status)
  }

  lemma Called(x: string) returns (s: State)
    requires x != ""
    ensures Reachable(s) && s == Fresh().(callers := map[ALICE := Ensuring(x)], clock := 1)
  {
    s := Fresh();
    assert Runs(s, []) && After(s, []) == s;
    ReachableStep(s, CallEnqueue(ALICE, x));
    s := Do(s, CallEnqueue(ALICE, x));
  }

  lemma Ensured(x: string) returns (s: State)
    requires x != ""
    ensures Reachable(s) && StatusOf(s.store, x) == Some(Pending)
    ensures s == Fresh().(store := s.store, callers := map[ALICE := Entering(x, [])], clock := 2)
  {
    s := Called(x);
    ReachableStep(s, Ensure(ALICE, true, true));
    s := Do(s, Ensure(ALICE, true, true));
  }

  lemma MarkedOnce(x: string) returns (s: State)
    requires x != ""
    ensures Reachable(s) && StatusOf(s.store, x) == Some(Pending)
    ensures s == Fresh().(store := s.store, inFlight := {x}, callers := map[ALICE := Marked(x, [])], clock := 3)
  {
    s := Ensured(x);
    ReachableStep(s, Mark(ALICE));
    s := Do(s, Mark(ALICE));
  }

  lemma Sent(x: string) returns (s: State)
    requires x != ""
    ensures Reachable(s) && StatusOf(s.store, x) == Some(Pending)
    ensures s == Fresh().(store := s.store, queue := [x], inFlight := {x}, callers := map[ALICE := Idle], clock := 4)
  {
    s := MarkedOnce(x);
    ReachableStep(s, Offer(ALICE));
    s := Do(s, Offer(ALICE));
  }

  lemma Enqueued(x: string) returns (s: State)
    requires x != ""
    ensures Reachable(s) && Busy(x, s, Idle, Dequeued(x), Pending)
  {
    s := Sent(x);
    ReachableStep(s, Dequeue(0));
    s := Do(s, Dequeue(0));
  }

  /** One step of `process`. */
  lemma Worked(x: string, s: State, a: Step, status: Status) returns (e: State)
    requires Reachable(s) && Busy(x, s, Idle, WorkerAt(s, 0), status) && Enabled(s, a)
    requires WorkerStep(a) && a.w == 0 && !a.Dequeue? && !a.Stop? && !a.Release?
    ensures Reachable(e) && e == Do(s, a)
    ensures Busy(x, e, Idle, WorkerAfter(s, a), StatusOf(StoreAfter(s, a), x).value)
  {
    e := Do(s, a);
    ReachableStep(s, a);
  }

  lemma UnderLookup(x: string) returns (s: State, since: nat)
    requires x != ""
    ensures Reachable(s) && Busy(x, s, Idle, LookingUp(x, since), Pending)
  {
    s := Enqueued(x);
    s := Worked(x, s, ReadStatus(0, true), Pending);
    since := s.clock;
    s := Worked(x, s, BeginLookup(0), Pending);
  }

  lemma FoundPlain(x: string) returns (s: State, since: nat)
    requires x != ""
    ensures Reachable(s) && Busy(x, s, Idle, SavingMetadata(x, since, META, false), Pending)
  {
    s, since := UnderLookup(x);
    s := Worked(x, s, EndLookup(0, Some(META)), Pending);
    s := Worked(x, s, EndFetch(0, None), Pending);
  }

  lemma Saved(x: string) returns (s: State)
    requires x != ""
    ensures Reachable(s) && Busy(x, s, Idle, Returned(x), Enriched)
  {
    var since;
    s, since := FoundPlain(x);
    s := Worked(x, s, PutMetadata(0, true, 5), Pending);
  }

  lemma NotFound(x: string) returns (s: State)
    requires x != ""
    ensures Reachable(s) && Busy(x, s, Idle, Failing(x), Pending)
  {
    var since;
    s, since := UnderLookup(x);
    s := Worked(x, s, EndLookup(0, None), Pending);
  }

  /** A caller asks for a refresh while worker 0 has `x`. */
  lemma Asked(x: string, s: State, p: Stage, status: Status) returns (e: State)
    requires x != "" && Reachable(s) && Busy(x, s, Idle, p, status)
    ensures Reachable(e) && Busy(x, e, Refreshing(x), p, status)
    ensures IsRefresh(e, Refresh(ALICE, true, true), x)
  {
    ReachableStep(s, CallRefresh(ALICE, x));
    e := Do(s, CallRefresh(ALICE, x));
  }

  /** A refresh that the caller sees through, and that an older Lookup may yet absorb. */
  lemma RefreshDuringLookup(x: string) returns (s: State)
    requires Isbn.Shape(x)
    ensures Reachable(s) && IsRefresh(s, Refresh(ALICE, true, true), x) && !NobodyLookingUp(s, x)
  {
    var m, since := UnderLookup(x);
    s := Asked(x, m, LookingUp(x, since), Pending);
    assert InWindow(WorkerAt(s, 0), x);
  }

  lemma {:induction false} NoLookup(s: State, steps: seq<Step>, x: string)
    requires forall i :: 0 <= i < |steps| ==> !steps[i].BeginLookup?
    ensures !LooksUp(s, steps, x)
    decreases steps
  {
    if steps != [] && Enabled(s, steps[0]) { NoLookup(Do(s, steps[0]), steps[1..], x); }
  }

  /** The run leaves every caller idle and nothing queued or in flight, without a Lookup of `x` in it or
      ahead of it. */
  ghost predicate Lost(x: string, s: State, steps: seq<Step>, e: State, status: Status) {
    && Leads(Serving, s, steps, e) && !LooksUp(s, steps, x)
    && StatusOf(e.store, x) == Some(status)
    && Quiescent(e) && WorkerAt(e, 0).Waiting? && !CanBeLookedUp(e, x)
  }

  lemma Ended(x: string, s: State, steps: seq<Step>, e: State, status: Status)
    requires Reachable(s) && Leads(Serving, s, steps, e) && status != Enriched
    requires forall i :: 0 <= i < |steps| ==> !steps[i].BeginLookup?
    requires e.queue == [] && e.callers == map[ALICE := Idle] && e.workers == map[0 := Waiting]
    requires StatusOf(e.store, x) == Some(status)
    ensures Lost(x, s, steps, e, status)
  {
    ReachableReaches(Serving, s, e);
    NoLookup(s, steps, x);
    NothingAhead(x, e);
  }

  lemma NothingAhead(x: string, e: State)
    requires Reachable(e) && e.queue == [] && e.callers == map[ALICE := Idle] && e.workers == map[0 := Waiting]
    requires x in NeedsWork(e.store)
    ensures Quiescent(e) && !CanBeLookedUp(e, x)
  {
    LookupAheadIff(e, 0, x);
  }

  lemma RefreshMarks(x: string, s: State, p: Stage, status: Status) returns (e: State)
    requires Reachable(s) && Busy(x, s, Refreshing(x), p, status)
    ensures e == Do(s, Refresh(ALICE, true, true)) && Reachable(e) && Busy(x, e, Entering(x, []), p, Pending)
  {
    e := Do(s, Refresh(ALICE, true, true));
    ReachableStep(s, Refresh(ALICE, true, true));
  }

  /** A refresh by a caller whose Mark then finds `x` in flight with worker 0. */
  lemma Coalesced(x: string, idle: State, p: Stage, status: Status) returns (s: State, m: State, e: State)
    requires Reachable(idle) && Busy(x, idle, Idle, p, status) && (p.Returned? || p.Failing?) && p.isbn == x && x != ""
    ensures Reachable(s) && Busy(x, s, Refreshing(x), p, status) && IsRefresh(s, Refresh(ALICE, true, true), x)
    ensures m == Do(s, Refresh(ALICE, true, true)) && Reachable(m)
    ensures Leads(Serving, m, [Mark(ALICE)], e) && Busy(x, e, Idle, p, Pending)
  {
    s := Asked(x, idle, p, status);
    m := RefreshMarks(x, s, p, status);
    e := MarkedInVain(x, m, p);
  }

  lemma MarkedInVain(x: string, s: State, p: Stage) returns (e: State)
    requires Busy(x, s, Entering(x, []), p, Pending)
    ensures Leads(Serving, s, [Mark(ALICE)], e) && Busy(x, e, Idle, p, Pending)
  {
    OneStep(Serving, s, Mark(ALICE));
    e := Do(s, Mark(ALICE));
  }

  lemma NotLookedUp(x: string, s: State, c: Caller, p: Stage, status: Status)
    requires Busy(x, s, c, p, status) && (p.Returned? || p.Failing?)
    ensures NobodyLookingUp(s, x) && (status == Enriched ==> IsEnriched(s, x))
  {
  }

  lemma Freed(x: string, s: State, steps: seq<Step>, f: State, status: Status) returns (all: seq<Step>, e: State)
    requires Reachable(s) && Leads(Serving, s, steps, f) && forall i :: 0 <= i < |steps| ==> !steps[i].BeginLookup?
    requires Busy(x, f, Idle, Returned(x), status) && status != Enriched
    ensures Lost(x, s, all, e, status)
  {
    OneStep(Serving, f, Release(0));
    e := Do(f, Release(0));
    all := steps + [Release(0)];
    LeadsConcat(Serving, s, steps, f, [Release(0)], e);
    Ended(x, s, all, e, status);
  }

  /** The refresh arrives when the worker has saved but not yet unmarked `x`. The edition ends
      pending although the refresh was acknowledged and nobody was looking `x` up. */
  lemma RefreshLostToFinishedWorker(x: string) returns (s: State, steps: seq<Step>, e: State)
    requires Isbn.Shape(x)
    ensures Reachable(s) && IsRefresh(s, Refresh(ALICE, true, true), x) && NobodyLookingUp(s, x) && IsEnriched(s, x)
    ensures Lost(x, Do(s, Refresh(ALICE, true, true)), steps, e, Pending)
  {
    var saved := Saved(x);
    var m, f;
    s, m, f := Coalesced(x, saved, Returned(x), Enriched);
    NotLookedUp(x, s, Refreshing(x), Returned(x), Enriched);
    steps, e := Freed(x, m, [Mark(ALICE)], f, Pending);
  }

  lemma FailureSaved(x: string, s: State)
    requires Busy(x, s, Idle, Failing(x), Pending)
    ensures Enabled(s, PutFailed(0, true, 6)) && Busy(x, Do(s, PutFailed(0, true, 6)), Idle, Returned(x), Failed)
  {
  }

  lemma Overwritten(x: string, s: State, steps: seq<Step>, f: State) returns (all: seq<Step>, e: State)
    requires Leads(Serving, s, steps, f) && Busy(x, f, Idle, Failing(x), Pending)
    ensures all == steps + [PutFailed(0, true, 6)]
    ensures Leads(Serving, s, all, e) && Busy(x, e, Idle, Returned(x), Failed)
  {
    FailureSaved(x, f);
    OneStep(Serving, f, PutFailed(0, true, 6));
    e := Do(f, PutFailed(0, true, 6));
    all := steps + [PutFailed(0, true, 6)];
    LeadsConcat(Serving, s, steps, f, [PutFailed(0, true, 6)], e);
  }

  /** The refresh arrives when the worker is about to record a failed Lookup. The edition ends failed:
      the older failure overwrites the refresh. */
  lemma RefreshLostToOlderFailure(x: string) returns (s: State, steps: seq<Step>, e: State)
    requires Isbn.Shape(x)
    ensures Reachable(s) && IsRefresh(s, Refresh(ALICE, true, true), x) && NobodyLookingUp(s, x)
    ensures Lost(x, Do(s, Refresh(ALICE, true, true)), steps, e, Failed)
  {
    var failing := NotFound(x);
    var m, f;
    s, m, f := Coalesced(x, failing, Failing(x), Pending);
    NotLookedUp(x, s, Refreshing(x), Failing(x), Pending);
    var more, g := Overwritten(x, m, [Mark(ALICE)], f);
    steps, e := Freed(x, m, more, g, Failed);
  }

  // ---- starvation ----

  function DigitChar(k: nat): char
    requires k < 10
  {
    ('0' as int + k) as char
  }

  /** A hundred different ISBNs. */
  function Code(n: nat): string
    requires n < 100
  {
    "97800000000" + [DigitChar(n / 10), DigitChar(n % 10)]
  }

  /** An ISBN above all of them. */
  const TARGET := "9791032305569"

  lemma CodesDiffer(m: nat, n: nat)
    requires m < n < 100
    ensures Code(m) != Code(n)
  {
    assert Code(m)[11] == DigitChar(m / 10) && Code(n)[11] == DigitChar(n / 10);
    assert Code(m)[12] == DigitChar(m % 10) && Code(n)[12] == DigitChar(n % 10);
  }

  lemma CodeIsShaped(n: nat)
    requires n < 100
    ensures Isbn.Shape(Code(n))
  {
    assert Isbn.AllDigits("97800000000");
  }

  lemma CodeIsBelow(n: nat)
    requires n < 100
    ensures Leq(Code(n), TARGET) && Code(n) != TARGET
  {
    var a, b := Code(n), TARGET;
    assert a[2] == '8' && b[2] == '9';
    assert a[1..][0] == b[1..][0] == '7';
    assert Leq(a[1..][1..], b[1..][1..]) by { assert a[1..][1..][0] == '8' && b[1..][1..][0] == '9'; }
    assert Leq(a[1..], b[1..]);
  }

  /** The first `n` of the codes. */
  lemma {:induction false} Tower(n: nat) returns (tower: set<string>)
    requires n <= 100
    ensures |tower| == n
    ensures forall y :: y in tower ==> exists m: nat :: m < n && y == Code(m)
  {
    if n == 0 {
      tower := {};
    } else {
      var lower := Tower(n - 1);
      tower := lower + {Code(n - 1)};
      forall y | y in lower ensures y != Code(n - 1) {
        var m: nat :| m < n - 1 && y == Code(m);
        CodesDiffer(m, n - 1);
      }
    }
  }

  /** A hundred ISBNs below the target. */
  lemma Hundred() returns (tower: set<string>)
    ensures |tower| == SWEEP_LIMIT && TARGET !in tower && "" !in tower
    ensures forall y :: y in tower ==> Isbn.Shape(y) && Leq(y, TARGET) && y != TARGET
  {
    tower := Tower(SWEEP_LIMIT);
    forall y | y in tower ensures Isbn.Shape(y) && Leq(y, TARGET) && y != TARGET {
      var m: nat :| m < SWEEP_LIMIT && y == Code(m);
      CodeIsShaped(m);
      CodeIsBelow(m);
    }
  }

  lemma TowerBelow(rows: map<string, Edition>, tower: set<string>, x: string)
    requires rows.Keys == tower + {x} && forall y :: y in tower ==> Leq(y, x) && y != x
    requires forall y :: y in rows ==> rows[y].status == Pending
    ensures Below(NeedsWork(Store(map[], rows, map[])), x) == tower
  {
  }

  lemma AllIdle(capacity: nat, rows: map<string, Edition>) returns (s: State)
    requires capacity >= 1 && "" !in rows && forall y :: y in rows ==> !rows[y].hasCover
    ensures Init(s) && s.capacity == capacity && s.store == Store(map[], rows, map[])
    ensures Reachable(s) && Quiescent(s) && !WorkerAt(s, 0).Stopped?
  {
    s := State(capacity, Store(map[], rows, map[]), [], {}, map[], map[0 := Waiting], 0);
    assert Runs(s, []) && After(s, []) == s;
  }

  /** A source that knows only `x`. */
  function Only(x: string): W.Provider {
    W.Provider(y => if y == x then Some(META) else None, _ => None)
  }

  lemma TowerBlocks(store: Store, tower: set<string>, x: string)
    requires Below(NeedsWork(store), x) == tower && x !in tower
    ensures W.Blockers(store, Only(x), x) == tower
  {
  }

  lemma Starves(capacity: nat, tower: set<string>, x: string) returns (s: State)
    requires capacity >= 1 && x != "" && "" !in tower && |tower| >= SWEEP_LIMIT
    requires forall y :: y in tower ==> Leq(y, x) && y != x
    ensures Init(s) && s.capacity == capacity && Quiescent(s) && !WorkerAt(s, 0).Stopped?
    ensures s.store.editions.Keys == tower + {x} && x in NeedsWork(s.store) && Only(x).lookup(x).Some?
    ensures !CanBeEnriched(s, Only(x), x)
  {
    var rows := map y | y in tower + {x} :: BLANK_EDITION;
    s := AllIdle(capacity, rows);
    TowerBelow(rows, tower, x);
    TowerBlocks(s.store, tower, x);
    SweepsEnrichIff(s, 0, Only(x), x);
  }

  /** Whatever the size of the queue: 100 pending ISBNs that the source does not know, all of them such
      as the endpoints accept, keep one that it does know from ever being enriched. */
  lemma StarvationExists(capacity: nat) returns (s: State)
    requires capacity >= 1
    ensures Init(s) && s.capacity == capacity && Quiescent(s) && !WorkerAt(s, 0).Stopped?
    ensures |s.store.editions.Keys| == 101 && forall y :: y in s.store.editions ==> Isbn.Shape(y)
    ensures TARGET in NeedsWork(s.store) && Only(TARGET).lookup(TARGET).Some? && !CanBeEnriched(s, Only(TARGET), TARGET)
  {
    var tower := Hundred();
    s := Starves(capacity, tower, TARGET);
    assert Isbn.AllDigits(TARGET);
  }
}
