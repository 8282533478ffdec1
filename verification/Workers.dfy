/** The worker object run without interleaving: what one call of each method computes, how many
    rounds of sweep and drain finish the catalogue, and which editions are starved. */
module Workers {
  import opened Order
  import opened Catalog
  import opened MemoryStores
  import P = Protocol

  const DEFAULT_WORKERS := 2

  const DEFAULT_QUEUE_SIZE := 128

  /** Fifteen minutes, in microseconds. */
  const DEFAULT_SWEEP_EVERY := 15 * 60 * 1_000_000

  /** Values that are not positive stand for the defaults. */
  datatype Options = Options(workers: int, queueSize: int, sweepEvery: int)

  function OrDefault(given: int, fallback: int): int { if given <= 0 then fallback else given }

  /** What the upstream source answers for each ISBN; `None` covers "not found" and errors. */
  datatype Provider = Provider(lookup: string -> Option<Metadata>, cover: string -> Option<Cover>)

  datatype Jobs = Jobs(queue: seq<string>, inFlight: set<string>)

  function EnqueueJobs(j: Jobs, capacity: nat, isbn: string): Jobs {
    if isbn == "" || isbn in j.inFlight || |j.queue| >= capacity then j
    else Jobs(j.queue + [isbn], j.inFlight + {isbn})
  }

  function EnqueueAll(j: Jobs, capacity: nat, isbns: seq<string>): Jobs
    decreases isbns
  {
    if isbns == [] then j else EnqueueAll(EnqueueJobs(j, capacity, isbns[0]), capacity, isbns[1..])
  }

  function Processed(s: Store, isbn: string, p: Provider, now: int): Store {
    if StatusOf(s, isbn) == Some(Enriched) then s
    else
      match p.lookup(isbn)
      case None => SaveEnrichment(s, isbn, None, Failed, now)
      case Some(m) =>
        var s' := if p.cover(isbn).Some? then SaveCover(s, isbn, p.cover(isbn).value) else s;
        SaveEnrichment(s', isbn, Some(m), Enriched, now)
  }

  function ProcessedAll(s: Store, isbns: seq<string>, p: Provider, now: int): Store
    decreases isbns
  {
    if isbns == [] then s else ProcessedAll(Processed(s, isbns[0], p, now), isbns[1..], p, now)
  }

  class Worker {
    const store: MemoryStore
    const capacity: nat
    const workers: int
    const sweepEvery: int
    var queue: seq<string>
    /** The keys of the in-flight map, all of which map to true. */
    var inFlight: set<string>

    ghost predicate Valid()
      reads this, store, store.Repr
    {
      store.Valid() && this !in store.Repr && capacity >= 1
    }

    ghost function CurrentJobs(): Jobs
      reads this
    { Jobs(queue, inFlight) }

    constructor (store: MemoryStore, opts: Options)
      requires store.Valid()
      ensures Valid() && this.store == store && CurrentJobs() == Jobs([], {})
      ensures capacity == if opts.queueSize <= 0 then 128 else opts.queueSize
      ensures workers == if opts.workers <= 0 then 2 else opts.workers
      ensures sweepEvery == if opts.sweepEvery <= 0 then 900_000_000 else opts.sweepEvery
      ensures workers > 0 && sweepEvery > 0
    {
      this.store := store;
      workers := OrDefault(opts.workers, DEFAULT_WORKERS);
      capacity := OrDefault(opts.queueSize, DEFAULT_QUEUE_SIZE);
      sweepEvery := OrDefault(opts.sweepEvery, DEFAULT_SWEEP_EVERY);
      queue, inFlight := [], {};
    }

    /** False when the ISBN was in flight already. */
    method MarkInFlight(isbn: string) returns (ok: bool)
      modifies this`inFlight
      ensures ok == (isbn !in old(inFlight))
      ensures inFlight == old(inFlight) + {isbn}
    {
      if isbn in inFlight {
        return false;
      }
      inFlight := inFlight + {isbn};
      return true;
    }

    method UnmarkInFlight(isbn: string)
      modifies this`inFlight
      ensures inFlight == old(inFlight) - {isbn}
    {
      inFlight := inFlight - {isbn};
    }

    method Enqueue(isbn: string)
      modifies this
      ensures CurrentJobs() == EnqueueJobs(old(CurrentJobs()), capacity, isbn)
    {
      if isbn == "" {
        return;
      }
      var ok := MarkInFlight(isbn);
      if !ok {
        return;
      }
      if |queue| < capacity {
        queue := queue + [isbn];
      } else {
        UnmarkInFlight(isbn);
      }
    }

    method Process(isbn: string, p: Provider, now: int)
      requires Valid()
      modifies store.Repr
      ensures Valid() && fresh(store.Repr - old(store.Repr))
      ensures store.Model() == Processed(old(store.Model()), isbn, p, now)
    {
      var status := store.EditionStatus(isbn);
      if status == Some(Enriched) {
        return;
      }
      var meta := p.lookup(isbn);
      if meta.None? {
        store.SaveEnrichment(isbn, None, Failed, now);
        return;
      }
      var cover := p.cover(isbn);
      if cover.Some? {
        var c := new CoverRef(cover.value);
        store.SaveCover(isbn, c);
      }
      store.SaveEnrichment(isbn, meta, Enriched, now);
    }

    method EnqueueEach(isbns: seq<string>)
      modifies this
      ensures CurrentJobs() == EnqueueAll(old(CurrentJobs()), capacity, isbns)
    {
      var i := 0;
      while i < |isbns|
        invariant 0 <= i <= |isbns|
        invariant EnqueueAll(CurrentJobs(), capacity, isbns[i..])
               == EnqueueAll(old(CurrentJobs()), capacity, isbns)
      {
        assert isbns[i..][0] == isbns[i] && isbns[i..][1..] == isbns[i + 1..];
        Enqueue(isbns[i]);
        i := i + 1;
      }
    }

    method Reconcile()
      requires Valid()
      modifies this
      ensures Valid() && store.Model() == old(store.Model())
      ensures CurrentJobs() == EnqueueAll(old(CurrentJobs()), capacity, PendingEnrichment(store.Model(), P.SWEEP_LIMIT))
    {
      var isbns := store.PendingEnrichment(P.SWEEP_LIMIT);
      EnqueueEach(isbns);
    }

    /** One turn of a worker goroutine: take an ISBN, process it, unmark it. */
    method ProcessNext(p: Provider, now: int)
      requires Valid() && queue != []
      modifies this, store.Repr
      ensures Valid() && fresh(store.Repr - old(store.Repr))
      ensures store.Model() == Processed(old(store.Model()), old(queue)[0], p, now)
      ensures CurrentJobs() == Jobs(old(queue)[1..], old(inFlight) - {old(queue)[0]})
    {
      var isbn := queue[0];
      queue := queue[1..];
      Process(isbn, p, now);
      UnmarkInFlight(isbn);
    }

    /** A worker goroutine's loop, until it finds the queue empty. */
    method Drain(p: Provider, now: int)
      requires Valid()
      modifies this, store.Repr
      ensures Valid() && fresh(store.Repr - old(store.Repr))
      ensures store.Model() == ProcessedAll(old(store.Model()), old(queue), p, now)
      ensures CurrentJobs() == Jobs([], old(inFlight) - Elems(old(queue)))
    {
      ghost var start := Elems(queue);
      while queue != []
        invariant Valid() && fresh(store.Repr - old(store.Repr))
        invariant ProcessedAll(store.Model(), queue, p, now) == ProcessedAll(old(store.Model()), old(queue), p, now)
        invariant inFlight - Elems(queue) == old(inFlight) - start
        decreases |queue|
      {
        ElemsCons(queue);
        ProcessNext(p, now);
      }
    }

    /** One round: a sweep into the empty queue, then the drain. */
    method SweepAndDrain(p: Provider, now: int)
      requires Valid() && CurrentJobs() == Jobs([], {}) && "" !in store.Model().editions
      modifies this, store.Repr
      ensures Valid() && fresh(store.Repr - old(store.Repr)) && CurrentJobs() == Jobs([], {})
      ensures store.Model() == Round(old(store.Model()), capacity, p, now)
    {
      SweepFillsQueue(store.Model(), capacity);
      Reconcile();
      Drain(p, now);
    }
  }

  // ---- one sweep ----

  function Min(a: nat, b: nat): nat { if a <= b then a else b }

  /** How many editions one round can take. */
  function Width(capacity: nat): nat { Min(P.SWEEP_LIMIT, capacity) }

  /** What one sweep into an empty queue enqueues; the rest of the listing is dropped. */
  ghost function Batch(s: Store, capacity: nat): seq<string> {
    var q := Listing(NeedsWork(s));
    q[..Min(|q|, Width(capacity))]
  }

  ghost function Round(s: Store, capacity: nat, p: Provider, now: int): Store {
    ProcessedAll(s, Batch(s, capacity), p, now)
  }

  ghost function Rounds(s: Store, capacity: nat, p: Provider, now: int, r: nat): Store
    decreases r
  {
    if r == 0 then s else Rounds(Round(s, capacity, p, now), capacity, p, now, r - 1)
  }

  lemma {:induction false} EnqueueAllRoom(j: Jobs, capacity: nat, q: seq<string>)
    requires Elems(j.queue) == j.inFlight && |j.queue| <= capacity
    requires NoDuplicates(q) && "" !in q && Elems(q) !! j.inFlight
    ensures var n := Min(|q|, capacity - |j.queue|);
            EnqueueAll(j, capacity, q) == Jobs(j.queue + q[..n], j.inFlight + Elems(q[..n]))
    decreases q
  {
    if q != [] {
      var j' := EnqueueJobs(j, capacity, q[0]);
      NoDuplicatesTail(q);
      var n := Min(|q|, capacity - |j.queue|);
      assert q[0] in Elems(q);
      forall x | x in q[1..] ensures x in Elems(q) {}
      EnqueueAllRoom(j', capacity, q[1..]);
      if n > 0 {
        assert q[..n] == [q[0]] + q[1..][..n - 1];
        assert j.queue + q[..n] == j'.queue + q[1..][..n - 1];
      } else {
        assert q[1..][..0] == q[..0] == [];
      }
    }
  }

  lemma PrefixOfPrefix(q: seq<string>, a: nat, b: nat)
    requires a > 0
    ensures Truncated(q, a)[..Min(|Truncated(q, a)|, b)] == q[..Min(|q|, Min(a, b))]
  {
  }

  lemma ListedPlainly(s: Store, limit: nat)
    requires "" !in s.editions && limit > 0
    ensures NoDuplicates(PendingEnrichment(s, limit)) && "" !in PendingEnrichment(s, limit)
  {
    var q := Listing(NeedsWork(s));
    forall x | x in PendingEnrichment(s, limit) ensures x != "" { assert x in q; }
  }

  lemma SweepFillsQueue(s: Store, capacity: nat)
    requires "" !in s.editions
    ensures EnqueueAll(Jobs([], {}), capacity, PendingEnrichment(s, P.SWEEP_LIMIT))
         == Jobs(Batch(s, capacity), Elems(Batch(s, capacity)))
  {
    var q := PendingEnrichment(s, P.SWEEP_LIMIT);
    ListedPlainly(s, P.SWEEP_LIMIT);
    PrefixOfPrefix(Listing(NeedsWork(s)), P.SWEEP_LIMIT, capacity);
    FillEmptyQueue(capacity, q);
  }

  lemma FillEmptyQueue(capacity: nat, q: seq<string>)
    requires NoDuplicates(q) && "" !in q
    ensures var batch := q[..Min(|q|, capacity)];
            EnqueueAll(Jobs([], {}), capacity, q) == Jobs(batch, Elems(batch))
  {
    EnqueueAllRoom(Jobs([], {}), capacity, q);
    var batch := q[..Min(|q|, capacity)];
    assert [] + batch == batch && {} + Elems(batch) == Elems(batch);
  }

  /** Whatever is queued or in flight already, a sweep that finds a free slot for each listed ISBN
      leaves every one of them in flight. */
  lemma {:induction false} SweepWithRoom(j: Jobs, capacity: nat, q: seq<string>)
    requires |j.queue| + |q| <= capacity && "" !in q
    ensures Elems(q) <= EnqueueAll(j, capacity, q).inFlight
    ensures j.inFlight <= EnqueueAll(j, capacity, q).inFlight
    decreases q
  {
    if q != [] {
      SweepWithRoom(EnqueueJobs(j, capacity, q[0]), capacity, q[1..]);
      assert Elems(q) == {q[0]} + Elems(q[1..]) by { assert q == [q[0]] + q[1..]; }
    }
  }

  // ---- what a round does to the unfinished editions ----

  ghost function Found(q: seq<string>, p: Provider): set<string> {
    set x | x in q && p.lookup(x).Some?
  }

  lemma ProcessEffect(s: Store, x: string, p: Provider, now: int)
    requires x in NeedsWork(s)
    ensures NeedsWork(Processed(s, x, p, now)) == if p.lookup(x).Some? then NeedsWork(s) - {x} else NeedsWork(s)
    ensures Processed(s, x, p, now).editions.Keys == s.editions.Keys
  {
  }

  lemma {:induction false} ProcessAllEffect(s: Store, q: seq<string>, p: Provider, now: int)
    requires NoDuplicates(q) && Elems(q) <= NeedsWork(s)
    ensures NeedsWork(ProcessedAll(s, q, p, now)) == NeedsWork(s) - Found(q, p)
    ensures ProcessedAll(s, q, p, now).editions.Keys == s.editions.Keys
    decreases q
  {
    if q != [] {
      assert q[0] in Elems(q);
      NoDuplicatesTail(q);
      ProcessEffect(s, q[0], p, now);
      forall x | x in q[1..] ensures x in Elems(q) {}
      ProcessAllEffect(Processed(s, q[0], p, now), q[1..], p, now);
      assert Found(q, p) == Found([q[0]], p) + Found(q[1..], p) by { assert q == [q[0]] + q[1..]; }
    }
  }

  lemma RoundEffect(s: Store, capacity: nat, p: Provider, now: int)
    ensures NeedsWork(Round(s, capacity, p, now)) == NeedsWork(s) - Found(Batch(s, capacity), p)
    ensures Round(s, capacity, p, now).editions.Keys == s.editions.Keys
    ensures Ascending(Batch(s, capacity)) && Elems(Batch(s, capacity)) <= NeedsWork(s)
  {
    var q := Listing(NeedsWork(s));
    var n := Min(|q|, Width(capacity));
    ElemsSplit(q, n);
    assert Elems(q) == NeedsWork(s);
    ProcessAllEffect(s, q[..n], p, now);
  }

  // ---- a provider that finds everything: the exact number of rounds ----

  ghost predicate FindsAll(p: Provider) {
    forall x :: p.lookup(x).Some?
  }

  lemma RoundShrinks(s: Store, capacity: nat, p: Provider, now: int)
    requires FindsAll(p)
    ensures var n := |NeedsWork(s)|;
            |NeedsWork(Round(s, capacity, p, now))| == n - Min(n, Width(capacity))
  {
    var batch := Batch(s, capacity);
    RoundEffect(s, capacity, p, now);
    assert Found(batch, p) == Elems(batch);
    AscendingSize(batch);
  }

  /** What `r` rounds of width `k` can take. */
  function Taken(r: nat, k: nat): nat { if r == 0 then 0 else k + Taken(r - 1, k) }

  lemma {:induction false} TakenIsProduct(r: nat, k: nat)
    ensures Taken(r, k) == r * k
  {
    if r > 0 { TakenIsProduct(r - 1, k); }
  }

  /** How much is left after `r` rounds. */
  lemma {:induction false} RoundsLeft(s: Store, capacity: nat, p: Provider, now: int, r: nat)
    requires FindsAll(p)
    ensures var n, done := |NeedsWork(s)|, Taken(r, Width(capacity));
            |NeedsWork(Rounds(s, capacity, p, now, r))| == n - Min(n, done)
    ensures NeedsWork(Rounds(s, capacity, p, now, r)) == {} <==> Taken(r, Width(capacity)) >= |NeedsWork(s)|
    decreases r
  {
    if r > 0 {
      RoundShrinks(s, capacity, p, now);
      RoundsLeft(Round(s, capacity, p, now), capacity, p, now, r - 1);
    }
  }

  lemma MulMonotone(a: int, b: int, k: nat)
    requires a <= b
    ensures a * k <= b * k
  {
    assert (b - a) * k >= 0;
  }

  lemma DivBounds(m: nat, k: nat)
    requires k >= 1
    ensures m / k >= 0 && (m / k) * k <= m < (m / k) * k + k
  {
  }

  lemma CeilDiv(n: nat, k: nat, r: nat)
    requires k >= 1
    ensures Taken(r, k) >= n <==> r >= (n + k - 1) / k
  {
    var c := (n + k - 1) / k;
    TakenIsProduct(r, k);
    DivBounds(n + k - 1, k);
    if r >= c {
      MulMonotone(c, r, k);
    } else {
      MulMonotone(r, c - 1, k);
      assert (c - 1) * k == c * k - k;
    }
  }

  /** With a source that finds every ISBN, n unfinished editions take exactly
      ceil(n / min(100, queue size)) sequential rounds, however many entries each sweep drops. */
  lemma DrainRounds(s: Store, capacity: nat, p: Provider, now: int, r: nat)
    requires capacity >= 1 && FindsAll(p)
    ensures var n, k := |NeedsWork(s)|, Width(capacity);
            NeedsWork(Rounds(s, capacity, p, now, r)) == {} <==> r >= (n + k - 1) / k
  {
    RoundsLeft(s, capacity, p, now, r);
    CeilDiv(|NeedsWork(s)|, Width(capacity), r);
  }

  // ---- any provider: who is starved ----

  /** Unfinished ISBNs below `x` that the source never finds; they stay in every listing. */
  ghost function Blockers(s: Store, p: Provider, x: string): set<string> {
    set y | y in Below(NeedsWork(s), x) && p.lookup(y).None?
  }

  lemma BatchHas(s: Store, capacity: nat, x: string)
    requires x in NeedsWork(s)
    ensures x in Batch(s, capacity) <==> |Below(NeedsWork(s), x)| < Width(capacity)
  {
    ListedWithin(NeedsWork(s), x, Width(capacity));
  }

  lemma BlockersStay(s: Store, capacity: nat, p: Provider, now: int, x: string)
    ensures Blockers(Round(s, capacity, p, now), p, x) == Blockers(s, p, x)
  {
    RoundEffect(s, capacity, p, now);
  }

  /** Beyond the reach of sequential rounds: never found, or behind too many that never are. */
  ghost predicate Starved(s: Store, capacity: nat, p: Provider, x: string) {
    x in NeedsWork(s) && (p.lookup(x).None? || |Blockers(s, p, x)| >= Width(capacity))
  }

  lemma StarvedRound(s: Store, capacity: nat, p: Provider, now: int, x: string)
    requires Starved(s, capacity, p, x)
    ensures Starved(Round(s, capacity, p, now), capacity, p, x)
  {
    RoundEffect(s, capacity, p, now);
    BlockersStay(s, capacity, p, now, x);
    if p.lookup(x).Some? {
      SubsetSize(Blockers(s, p, x), Below(NeedsWork(s), x));
      BatchHas(s, capacity, x);
    }
  }

  lemma {:induction false} StarvedRounds(s: Store, capacity: nat, p: Provider, now: int, x: string, r: nat)
    requires Starved(s, capacity, p, x)
    ensures Starved(Rounds(s, capacity, p, now, r), capacity, p, x)
    decreases r
  {
    if r > 0 {
      StarvedRound(s, capacity, p, now, x);
      StarvedRounds(Round(s, capacity, p, now), capacity, p, now, x, r - 1);
    }
  }

  /** A batch that does not reach `x` is full and lies below it. */
  lemma BatchBelow(s: Store, capacity: nat, x: string)
    requires x in NeedsWork(s) && x !in Batch(s, capacity)
    ensures Elems(Batch(s, capacity)) <= Below(NeedsWork(s), x)
    ensures |Elems(Batch(s, capacity))| == Width(capacity)
  {
    BatchHas(s, capacity, x);
    SubsetSize(Below(NeedsWork(s), x), NeedsWork(s));
    PrefixBelow(Listing(NeedsWork(s)), NeedsWork(s), Width(capacity), x);
  }

  /** So it finishes something below `x`. */
  lemma QueueAdvances(s: Store, capacity: nat, p: Provider, now: int, x: string)
    requires x in NeedsWork(s) && x !in Batch(s, capacity) && |Blockers(s, p, x)| < Width(capacity)
    ensures |Below(NeedsWork(Round(s, capacity, p, now)), x)| < |Below(NeedsWork(s), x)|
  {
    var w, w', batch := NeedsWork(s), NeedsWork(Round(s, capacity, p, now)), Batch(s, capacity);
    RoundEffect(s, capacity, p, now);
    BatchBelow(s, capacity, x);
    if Elems(batch) <= Blockers(s, p, x) { SubsetSize(Elems(batch), Blockers(s, p, x)); }
    var y :| y in Elems(batch) && y !in Blockers(s, p, x);
    assert y in Found(batch, p);
    assert y in Below(w, x) && y !in Below(w', x);
    SubsetSize(Below(w', x), Below(w, x));
  }

  lemma {:induction false} ReachedEventually(s: Store, capacity: nat, p: Provider, now: int, x: string) returns (r: nat)
    requires x in NeedsWork(s) && p.lookup(x).Some? && |Blockers(s, p, x)| < Width(capacity)
    ensures x !in NeedsWork(Rounds(s, capacity, p, now, r))
    decreases |Below(NeedsWork(s), x)|
  {
    var s' := Round(s, capacity, p, now);
    RoundEffect(s, capacity, p, now);
    var more: nat := 0;
    if x in Batch(s, capacity) {
      assert x in Found(Batch(s, capacity), p);
    } else {
      QueueAdvances(s, capacity, p, now, x);
      BlockersStay(s, capacity, p, now, x);
      more := ReachedEventually(s', capacity, p, now, x);
    }
    r := more + 1;
    assert Rounds(s, capacity, p, now, r) == Rounds(s', capacity, p, now, more);
  }

  /** What sequential rounds can do: sweeping and draining in turn for ever enriches an unfinished `x`
      if and only if the source finds it and fewer than min(100, queue size) unfinished ISBNs that the
      source never finds sort below it. */
  lemma EnrichedEventuallyIff(s: Store, capacity: nat, p: Provider, now: int, x: string)
    requires x in NeedsWork(s)
    ensures (exists r: nat :: x !in NeedsWork(Rounds(s, capacity, p, now, r)))
       <==> p.lookup(x).Some? && |Blockers(s, p, x)| < Width(capacity)
  {
    if p.lookup(x).Some? && |Blockers(s, p, x)| < Width(capacity) {
      var r := ReachedEventually(s, capacity, p, now, x);
    } else {
      forall r: nat ensures x in NeedsWork(Rounds(s, capacity, p, now, r)) {
        StarvedRounds(s, capacity, p, now, x, r);
      }
    }
  }
}
