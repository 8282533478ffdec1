/** Work already accepted always comes to an end, and nothing is left in flight. */
module Progress {
  import opened Catalog
  import opened Protocol
  import opened Enrichment

  ghost function Sum<K>(m: map<K, nat>): nat {
    if m == map[] then 0
    else
      var k :| k in m;
      m[k] + Sum(m - {k})
  }

  lemma {:induction false} SumWithout<K>(m: map<K, nat>, k: K)
    requires k in m
    ensures Sum(m) == m[k] + Sum(m - {k})
    decreases |m|
  {
    var j :| j in m && Sum(m) == m[j] + Sum(m - {j});
    if j != k {
      assert (m - {j}).Keys == m.Keys - {j} && (m - {k}).Keys == m.Keys - {k};
      SumWithout(m - {j}, k);
      SumWithout(m - {k}, j);
      assert m - {j} - {k} == m - {k} - {j};
    }
  }

  lemma SumUpdate<K>(m: map<K, nat>, k: K, v: nat)
    ensures Sum(m[k := v]) + (if k in m then m[k] else 0) == Sum(m) + v
  {
    SumWithout(m[k := v], k);
    assert m[k := v] - {k} == m - {k};
    if k in m { SumWithout(m, k); } else { assert m - {k} == m; }
  }

  /** An upper bound on the steps a caller or worker has ahead of it. */
  function CallerWork(c: Caller): nat {
    match c
    case Idle => 0
    case Ensuring(_) => 12
    case Refreshing(_) => 12
    case Entering(_, rest) => 11 + 11 * |rest|
    case Marked(_, rest) => 10 + 11 * |rest|
    case Dropping(_, rest) => 9 + 11 * |rest|
  }

  function WorkerWork(p: Stage): nat {
    match p
    case Stopped => 0
    case Waiting => 1
    case Returned(_) => 2
    case Failing(_) => 3
    case SavingMetadata(_, _, _, _) => 3
    case SavingCover(_, _, _, _) => 4
    case FetchingCover(_, _, _) => 5
    case LookingUp(_, _) => 6
    case Checked(_) => 7
    case Dequeued(_) => 8
  }

  function CallerWorks(callers: map<Tid, Caller>): map<Tid, nat> {
    map t | t in callers :: CallerWork(callers[t])
  }

  function WorkerWorks(workers: map<nat, Stage>): map<nat, nat> {
    map w | w in workers :: WorkerWork(workers[w])
  }

  ghost function Work(s: State): nat {
    Sum(CallerWorks(s.callers)) + 8 * |s.queue| + Sum(WorkerWorks(s.workers))
  }

  /** Everything but the arrival of new requests and new sweeps. */
  predicate Internal(a: Step) {
    !a.WriteBooks? && !a.CallEnqueue? && !a.CallRefresh? && !a.Sweep?
  }

  lemma CallerWorkStep(s: State, a: Step)
    requires Enabled(s, a) && Internal(a) && CallerStep(a)
    ensures Work(Do(s, a)) < Work(s)
  {
    var v := CallerWork(CallerAfter(s, a));
    SumUpdate(CallerWorks(s.callers), a.t, v);
    assert CallerWorks(Do(s, a).callers) == CallerWorks(s.callers)[a.t := v];
  }

  /** A dequeue turns 8 units of queued work into a worker's; every other step has the worker's shrink. */
  lemma WorkerWorkShrinks(s: State, a: Step)
    requires Enabled(s, a) && WorkerStep(a)
    ensures WorkerWork(WorkerAfter(s, a)) < WorkerWork(WorkerAt(s, a.w)) + if a.Dequeue? then 8 else 0
    ensures |QueueAfter(s, a)| == |s.queue| - if a.Dequeue? then 1 else 0
    ensures a.w in s.workers
  {
  }

  lemma WorkerWorkStep(s: State, a: Step)
    requires Enabled(s, a) && WorkerStep(a)
    ensures Work(Do(s, a)) < Work(s)
  {
    var v := WorkerWork(WorkerAfter(s, a));
    WorkerWorkShrinks(s, a);
    SumUpdate(WorkerWorks(s.workers), a.w, v);
    assert WorkerWorks(Do(s, a).workers) == WorkerWorks(s.workers)[a.w := v];
  }

  /** However the goroutines interleave, accepted work takes a bounded number of steps. */
  lemma {:induction false} AcceptedWorkEnds(s: State, steps: seq<Step>)
    requires Runs(s, steps) && forall i :: 0 <= i < |steps| ==> Internal(steps[i])
    ensures |steps| + Work(After(s, steps)) <= Work(s)
    decreases steps
  {
    if steps != [] {
      if CallerStep(steps[0]) { CallerWorkStep(s, steps[0]); } else { WorkerWorkStep(s, steps[0]); }
      AcceptedWorkEnds(Do(s, steps[0]), steps[1..]);
    }
  }

  predicate Useful(s: State, a: Step) {
    Internal(a) && !a.Stop? && Enabled(s, a)
  }

  /** Nothing can happen any more except shutting down or new work arriving. */
  ghost predicate Quiescent(s: State) {
    forall a :: !Useful(s, a)
  }

  lemma CallerCanMove(s: State, t: Tid)
    ensures CallerAt(s, t).Idle? || exists a :: Useful(s, a)
  {
    match CallerAt(s, t)
    case Idle =>
    case Ensuring(_) => assert Useful(s, Ensure(t, true, true));
    case Refreshing(_) => assert Useful(s, Refresh(t, true, true));
    case Entering(_, _) => assert Useful(s, Mark(t));
    case Marked(_, _) => assert Useful(s, Offer(t));
    case Dropping(_, _) => assert Useful(s, Unmark(t));
  }

  lemma WorkerCanMove(s: State, w: nat)
    ensures WorkerAt(s, w).Stopped? || (WorkerAt(s, w).Waiting? && s.queue == []) || exists a :: Useful(s, a)
  {
    match WorkerAt(s, w)
    case Stopped =>
    case Waiting => if s.queue != [] { assert Useful(s, Dequeue(w)); }
    case Dequeued(_) => assert Useful(s, ReadStatus(w, true));
    case Checked(_) => assert Useful(s, BeginLookup(w));
    case LookingUp(_, _) => assert Useful(s, EndLookup(w, None));
    case FetchingCover(_, _, _) => assert Useful(s, EndFetch(w, None));
    case SavingCover(_, _, _, _) => assert Useful(s, PutCover(w, true));
    case SavingMetadata(_, _, _, _) => assert Useful(s, PutMetadata(w, true, 0));
    case Failing(_) => assert Useful(s, PutFailed(w, true, 0));
    case Returned(_) => assert Useful(s, Release(w));
  }

  /** Once the accepted work is done and a worker is still running, nothing is left in flight, so
      every ISBN can be enqueued again. */
  lemma NothingLeftInFlight(s: State, w: nat)
    requires Reachable(s) && Quiescent(s) && !WorkerAt(s, w).Stopped?
    ensures s.inFlight == {} && s.queue == [] && forall t :: CallerAt(s, t).Idle?
  {
    MutualExclusion(s);
    WorkerCanMove(s, w);
    forall t ensures CallerAt(s, t).Idle? { CallerCanMove(s, t); }
    forall x ensures !HeldSomewhere(s, x) {
      forall v ensures !Works(WorkerAt(s, v), x) { WorkerCanMove(s, v); }
    }
  }
}
