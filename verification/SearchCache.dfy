/** The bounded cache in front of the search provider, against an unbounded one. */
module SearchCaches {
  import opened Catalog
  import Order
  import Isbn
  import K = CacheKeys

  const MAX_SIZE := 256

  /** 60 seconds, in nanoseconds; an instant counts from Go's zero time. */
  const TTL := 60_000_000_000

  datatype Entry = Entry(hits: seq<Isbn.Hit>, expiresAt: int)

  type Entries = map<string, Entry>

  function Lookup(m: Entries, key: string, now: int): Option<seq<Isbn.Hit>> {
    if key !in m || now > m[key].expiresAt then None else Some(m[key].hits)
  }

  function Live(m: Entries, now: int): Entries {
    map k | k in m && now <= m[k].expiresAt :: m[k]
  }

  ghost predicate Oldest(m: Entries, v: string) {
    v in m && forall k :: k in m ==> m[v].expiresAt <= m[k].expiresAt
  }

  /** A store at instant `later` of a call that looked at the clock at `now`; among equally old
      entries the map's iteration order decides. */
  datatype Stored = Stored(key: string, hits: seq<Isbn.Hit>, now: int, later: int)

  function EntryOf(p: Stored): Entry { Entry(p.hits, p.later + TTL) }

  ghost predicate PutStep(m: Entries, p: Stored, m': Entries) {
    if |m| < MAX_SIZE then m' == m[p.key := EntryOf(p)]
    else
      var live := Live(m, p.now);
      if |live| < MAX_SIZE then m' == live[p.key := EntryOf(p)]
      else exists v :: Oldest(live, v) && m' == (live - {v})[p.key := EntryOf(p)]
  }

  /** The sentinels "" and the zero instant never name an entry. */
  predicate Sound(m: Entries) {
    "" !in m && forall k :: k in m ==> m[k].expiresAt > 0
  }

  /** The eviction loop's candidate among the keys no longer in `todo`; none yet if `at` is zero. */
  ghost predicate NearestSoFar(m: Entries, todo: set<string>, now: int, key: string, at: int) {
    && (at == 0 ==> key == "" && forall k :: k in m && k !in todo ==> now > m[k].expiresAt)
    && (at != 0 ==> key in m && key !in todo && now <= m[key].expiresAt == at)
    && (at != 0 ==> forall k :: k in m && k !in todo && now <= m[k].expiresAt ==> at <= m[k].expiresAt)
  }

  class ResultCache {
    var entries: Entries
    const lower: char -> char
    const space: char -> bool

    constructor (lower: char -> char, space: char -> bool)
      ensures entries == map[] && this.lower == lower && this.space == space
    {
      entries, this.lower, this.space := map[], lower, space;
    }

    method Get(query: string, limit: int, now: int) returns (hits: Option<seq<Isbn.Hit>>)
      ensures hits == Lookup(entries, K.Key(lower, space, query, limit), now)
    {
      var key := K.Key(lower, space, query, limit);
      if key !in entries || now > entries[key].expiresAt {
        return None;
      }
      return Some(entries[key].hits);
    }

    method Put(query: string, limit: int, hits: seq<Isbn.Hit>, now: int, later: int)
      requires Sound(entries) && 0 < now <= later
      modifies this`entries
      ensures PutStep(old(entries), Stored(K.Key(lower, space, query, limit), hits, now, later), entries)
      ensures Sound(entries)
    {
      if |entries| >= MAX_SIZE {
        Evict(now);
      }
      entries := entries[K.Key(lower, space, query, limit) := Entry(hits, later + TTL)];
    }

    /** Drops what has expired; if that makes no room, drops the entry nearest to expiry. */
    method Evict(now: int)
      requires Sound(entries) && |entries| >= MAX_SIZE
      modifies this`entries
      ensures var live := Live(old(entries), now);
              if |live| < MAX_SIZE then entries == live
              else exists v :: Oldest(live, v) && entries == live - {v}
    {
      ghost var m := entries;
      var todo := entries.Keys;
      var oldestKey, oldestAt := "", 0;
      while todo != {}
        invariant todo <= m.Keys
        invariant entries == map k | k in m && (k in todo || now <= m[k].expiresAt) :: m[k]
        invariant NearestSoFar(m, todo, now, oldestKey, oldestAt)
        decreases |todo|
      {
        var k :| k in todo;
        todo := todo - {k};
        var e := entries[k];
        if now > e.expiresAt {
          entries := entries - {k};
        } else if oldestAt == 0 || e.expiresAt < oldestAt {
          oldestKey, oldestAt := k, e.expiresAt;
        }
      }
      assert entries == Live(m, now);
      if |entries| >= MAX_SIZE && oldestKey != "" {
        assert Oldest(entries, oldestKey);
        entries := entries - {oldestKey};
      }
    }
  }

  // ---- the search endpoint ----

  datatype Answer = Hits(hits: seq<Isbn.Hit>) | TimedOut | Failed

  datatype Reply = Results(hits: seq<Isbn.Hit>) | Status(code: int)

  /** What the provider would answer and what the clock shows are parameters; `searcher` says whether
      search is configured. Nothing but a fresh answer is ever stored. */
  method Search(cache: ResultCache, user: string, searcher: bool, q: string, limit: int,
                answer: Answer, asked: int, now: int, later: int) returns (r: Reply)
    requires Sound(cache.entries) && 0 < now <= later
    modifies cache`entries
    ensures Sound(cache.entries)
    ensures var m, key := old(cache.entries), K.Key(cache.lower, cache.space, q, limit);
            if user == "" then r == Status(401) && cache.entries == m
            else if !searcher then r == Status(503) && cache.entries == m
            else if Lookup(m, key, asked).Some? then r == Results(Lookup(m, key, asked).value) && cache.entries == m
            else
              match answer
              case TimedOut => r == Status(504) && cache.entries == m
              case Failed => r == Status(502) && cache.entries == m
              case Hits(h) => r == Results(h) && PutStep(m, Stored(key, h, now, later), cache.entries)
  {
    if user == "" {
      return Status(401);
    }
    if !searcher {
      return Status(503);
    }
    var query := K.TrimSpace(cache.space, q);
    K.TrimAbsorbed(cache.lower, cache.space, q, limit);
    var cached := cache.Get(query, limit, asked);
    if cached.Some? {
      return Results(cached.value);
    }
    match answer
    case TimedOut => return Status(504);
    case Failed => return Status(502);
    case Hits(h) =>
      cache.Put(query, limit, h, now, later);
      return Results(h);
  }

  // ---- runs ----

  ghost predicate StepAt(puts: seq<Stored>, states: seq<Entries>, i: int) {
    0 <= i < |puts| && i + 1 < |states| && PutStep(states[i], puts[i], states[i + 1])
  }

  /** `states[i]` is the cache after the first `i` puts. */
  ghost predicate Trace(puts: seq<Stored>, states: seq<Entries>) {
    && |states| == |puts| + 1 && states[0] == map[]
    && (forall i :: 0 <= i < |puts| ==> StepAt(puts, states, i))
  }

  /** The clock never runs backwards; puts are serialised by the mutex. */
  ghost predicate ClockOk(puts: seq<Stored>) {
    && (forall i :: 0 <= i < |puts| ==> puts[i].now <= puts[i].later)
    && (forall i, j :: 0 <= i < j < |puts| ==> puts[i].later <= puts[j].now)
  }

  /** No two entries are stored at the same instant. */
  ghost predicate Ticks(puts: seq<Stored>) {
    forall i, j :: 0 <= i < j < |puts| ==> puts[i].later < puts[j].later
  }

  lemma LiveSize(m: Entries, now: int)
    ensures Live(m, now).Keys <= m.Keys && |Live(m, now)| <= |m|
    ensures |Live(m, now)| == |m| ==> Live(m, now) == m
  {
    Order.SubsetSize(Live(m, now).Keys, m.Keys);
  }

  lemma WithoutSize(m: Entries, v: string)
    requires v in m
    ensures |m - {v}| == |m| - 1
  {
  }

  lemma AddSize(m: Entries, k: string, e: Entry)
    ensures |m[k := e]| <= |m| + 1
  {
  }

  lemma PutBounded(m: Entries, p: Stored, m': Entries)
    requires |m| <= MAX_SIZE && PutStep(m, p, m')
    ensures |m'| <= MAX_SIZE
  {
    var live := Live(m, p.now);
    LiveSize(m, p.now);
    if |m| < MAX_SIZE {
      AddSize(m, p.key, EntryOf(p));
    } else if |live| < MAX_SIZE {
      AddSize(live, p.key, EntryOf(p));
    } else {
      var v :| Oldest(live, v) && m' == (live - {v})[p.key := EntryOf(p)];
      WithoutSize(live, v);
      AddSize(live - {v}, p.key, EntryOf(p));
    }
  }

  /** The cache never holds more than 256 entries. */
  lemma {:induction false} CacheBounded(puts: seq<Stored>, states: seq<Entries>, n: nat)
    requires Trace(puts, states) && n <= |puts|
    ensures |states[n]| <= 256
  {
    if n > 0 {
      CacheBounded(puts, states, n - 1);
      assert StepAt(puts, states, n - 1);
      PutBounded(states[n - 1], puts[n - 1], states[n]);
    }
  }

  /** A live entry is dropped only when nothing at all had expired, and then it has the smallest expiry. */
  lemma LiveEvictionIsOldest(puts: seq<Stored>, states: seq<Entries>, n: nat, k: string)
    requires Trace(puts, states) && n < |puts|
    requires k in states[n] && k !in states[n + 1] && puts[n].now <= states[n][k].expiresAt
    ensures Live(states[n], puts[n].now) == states[n] && Oldest(states[n], k)
  {
    CacheBounded(puts, states, n);
    assert StepAt(puts, states, n);
    LiveSize(states[n], puts[n].now);
  }

  // ---- against an unbounded cache ----

  /** The cache that never evicts. */
  function Ideal(puts: seq<Stored>): Entries {
    if puts == [] then map[]
    else Ideal(puts[..|puts| - 1])[puts[|puts| - 1].key := EntryOf(puts[|puts| - 1])]
  }

  lemma {:induction false} SubsetOfIdeal(puts: seq<Stored>, states: seq<Entries>, n: nat, k: string)
    requires Trace(puts, states) && n <= |puts| && k in states[n]
    ensures k in Ideal(puts[..n]) && states[n][k] == Ideal(puts[..n])[k]
  {
    assert n > 0;
    assert puts[..n][..n - 1] == puts[..n - 1] && puts[..n][n - 1] == puts[n - 1];
    assert StepAt(puts, states, n - 1);
    if k != puts[n - 1].key { SubsetOfIdeal(puts, states, n - 1, k); }
  }

  /** The last of the first `n` puts under `k`. */
  ghost predicate LatestPut(puts: seq<Stored>, n: nat, k: string, i: int) {
    0 <= i < n <= |puts| && puts[i].key == k && forall j :: i < j < n ==> puts[j].key != k
  }

  lemma {:induction false} IdealIsLatest(puts: seq<Stored>, n: nat, k: string)
    requires n <= |puts| && k in Ideal(puts[..n])
    ensures exists i :: LatestPut(puts, n, k, i) && Ideal(puts[..n])[k] == EntryOf(puts[i])
  {
    assert n > 0;
    assert puts[..n][..n - 1] == puts[..n - 1] && puts[..n][n - 1] == puts[n - 1];
    if k == puts[n - 1].key {
      assert LatestPut(puts, n, k, n - 1);
    } else {
      IdealIsLatest(puts, n - 1, k);
      var i :| LatestPut(puts, n - 1, k, i) && Ideal(puts[..n - 1])[k] == EntryOf(puts[i]);
      assert LatestPut(puts, n, k, i);
    }
  }

  /** A hit is what the unbounded cache would answer: the latest put under that key, made no more
      than 60 seconds ago. */
  lemma HitIsLatestPut(puts: seq<Stored>, states: seq<Entries>, n: nat, k: string, now: int)
    requires Trace(puts, states) && n <= |puts| && Lookup(states[n], k, now).Some?
    ensures Lookup(states[n], k, now) == Lookup(Ideal(puts[..n]), k, now)
    ensures exists i :: LatestPut(puts, n, k, i) && Lookup(states[n], k, now) == Some(puts[i].hits)
              && now <= puts[i].later + 60_000_000_000
  {
    SubsetOfIdeal(puts, states, n, k);
    IdealIsLatest(puts, n, k);
  }

  /** A search: what was typed, read as words and the gaps around them, and the limit. */
  datatype Query = Query(text: string, gaps: seq<string>, words: seq<string>, limit: int)

  predicate Reads(space: char -> bool, q: Query) { K.Spells(space, q.text, q.gaps, q.words) }

  /** The same words in the same order, up to case, and the same limit. */
  predicate Alike(lower: char -> char, q: Query, r: Query) {
    && q.limit == r.limit && |q.words| == |r.words|
    && forall k :: 0 <= k < |q.words| ==> K.SameButCase(lower, q.words[k], r.words[k])
  }

  /** A search that is answered from the cache gets the hits of the latest search for the same words
      and limit, made no more than 60 seconds ago. */
  lemma HitIsForSameWords(lower: char -> char, space: char -> bool, puts: seq<Stored>, queries: seq<Query>,
                          states: seq<Entries>, n: nat, q: Query, now: int)
    requires K.Folding(lower, space) && Trace(puts, states) && n <= |puts| == |queries| && Reads(space, q)
    requires forall i :: 0 <= i < |puts| ==>
               Reads(space, queries[i]) && puts[i].key == K.Key(lower, space, queries[i].text, queries[i].limit)
    requires Lookup(states[n], K.Key(lower, space, q.text, q.limit), now).Some?
    ensures exists i :: 0 <= i < n && Alike(lower, queries[i], q) && (forall j :: i < j < n ==> !Alike(lower, queries[j], q))
              && Lookup(states[n], K.Key(lower, space, q.text, q.limit), now) == Some(puts[i].hits)
              && now <= puts[i].later + 60_000_000_000
  {
    var key := K.Key(lower, space, q.text, q.limit);
    HitIsLatestPut(puts, states, n, key, now);
    var i :| LatestPut(puts, n, key, i) && Lookup(states[n], key, now) == Some(puts[i].hits) && now <= puts[i].later + TTL;
    forall j | 0 <= j < |puts| ensures puts[j].key == key <==> Alike(lower, queries[j], q) {
      var r := queries[j];
      K.KeysAreExact(lower, space, r.text, r.limit, q.text, q.limit, r.gaps, r.words, q.gaps, q.words);
    }
  }

  // ---- how long an entry survives ----

  /** The keys of entries expiring after `e`. */
  function Newer(m: Entries, e: int): set<string> {
    set k | k in m && m[k].expiresAt > e
  }

  lemma EntryIsPut(puts: seq<Stored>, states: seq<Entries>, n: nat, k: string) returns (i: nat)
    requires Trace(puts, states) && n <= |puts| && k in states[n]
    ensures LatestPut(puts, n, k, i) && states[n][k] == EntryOf(puts[i])
  {
    SubsetOfIdeal(puts, states, n, k);
    IdealIsLatest(puts, n, k);
    i :| LatestPut(puts, n, k, i) && Ideal(puts[..n])[k] == EntryOf(puts[i]);
  }

  /** Apart from the entry of put `i` itself, what is not newer than it is older. */
  lemma OthersDiffer(puts: seq<Stored>, states: seq<Entries>, n: nat, i: nat, k: string)
    requires Trace(puts, states) && Ticks(puts) && n <= |puts| && i < |puts|
    requires k in states[n] && k != puts[i].key
    ensures states[n][k].expiresAt != EntryOf(puts[i]).expiresAt
  {
    var j := EntryIsPut(puts, states, n, k);
    assert i < j || j < i;
  }

  /** At most one newer entry per put since. */
  lemma NewerStep(m: Entries, p: Stored, m': Entries, e: int)
    requires PutStep(m, p, m')
    ensures |Newer(m', e)| <= |Newer(m, e)| + 1
  {
    assert Newer(m', e) <= Newer(m, e) + {p.key};
    Order.SubsetSize(Newer(m', e), Newer(m, e) + {p.key});
  }

  lemma {:induction false} NewerBound(puts: seq<Stored>, states: seq<Entries>, i: nat, n: nat)
    requires Trace(puts, states) && Ticks(puts) && i < n <= |puts|
    ensures |Newer(states[n], EntryOf(puts[i]).expiresAt)| <= n - 1 - i
    decreases n
  {
    var e := EntryOf(puts[i]).expiresAt;
    if n == i + 1 {
      forall k | k in states[n] ensures states[n][k].expiresAt <= e {
        var j := EntryIsPut(puts, states, n, k);
        assert j <= i;
      }
      assert Newer(states[n], e) == {};
    } else {
      NewerBound(puts, states, i, n - 1);
      assert StepAt(puts, states, n - 1);
      NewerStep(states[n - 1], puts[n - 1], states[n], e);
    }
  }

  /** An entry that is evicted while live has 255 newer ones beside it. */
  lemma EvictedHasNewer(puts: seq<Stored>, states: seq<Entries>, i: nat, n: nat)
    requires Trace(puts, states) && Ticks(puts) && i < n < |puts|
    requires puts[i].key in states[n] && states[n][puts[i].key] == EntryOf(puts[i])
    requires puts[n].now <= EntryOf(puts[i]).expiresAt && puts[i].key !in states[n + 1]
    ensures |Newer(states[n], EntryOf(puts[i]).expiresAt)| >= MAX_SIZE - 1
  {
    var m, k, e := states[n], puts[i].key, EntryOf(puts[i]).expiresAt;
    LiveEvictionIsOldest(puts, states, n, k);
    assert StepAt(puts, states, n);
    forall x | x in m.Keys - {k} ensures x in Newer(m, e) {
      OthersDiffer(puts, states, n, i, x);
    }
    Order.SubsetSize(m.Keys - {k}, Newer(m, e));
    assert |m| >= MAX_SIZE;
    assert |m.Keys - {k}| == |m.Keys| - 1;
  }

  /** One more put, made before the entry of put `i` expires, drops that entry only to replace it. */
  lemma SurvivesStep(puts: seq<Stored>, states: seq<Entries>, i: nat, n: nat)
    requires Trace(puts, states) && Ticks(puts) && i < n < |puts| && n < i + MAX_SIZE
    requires puts[i].key in states[n] && states[n][puts[i].key] == EntryOf(puts[i])
    requires puts[n].now <= EntryOf(puts[i]).expiresAt && puts[n].key != puts[i].key
    ensures puts[i].key in states[n + 1] && states[n + 1][puts[i].key] == EntryOf(puts[i])
  {
    NewerBound(puts, states, i, n);
    if puts[i].key !in states[n + 1] {
      EvictedHasNewer(puts, states, i, n);
    }
    assert StepAt(puts, states, n);
  }

  lemma {:induction false} LastPutSurvives(puts: seq<Stored>, states: seq<Entries>, i: nat, n: nat)
    requires Trace(puts, states) && ClockOk(puts) && Ticks(puts)
    requires i < |puts| && LatestPut(puts, n, puts[i].key, i) && n <= i + MAX_SIZE
    requires puts[n - 1].now <= puts[i].later + TTL
    ensures puts[i].key in states[n] && states[n][puts[i].key] == EntryOf(puts[i])
    decreases n
  {
    if n == i + 1 {
      assert StepAt(puts, states, i);
    } else {
      assert puts[n - 2].now <= puts[n - 2].later <= puts[n - 1].now;
      LastPutSurvives(puts, states, i, n - 1);
      SurvivesStep(puts, states, i, n - 1);
    }
  }

  lemma {:induction false} LatestPutExists(puts: seq<Stored>, i: nat, n: nat) returns (j: nat)
    requires i < n <= |puts|
    ensures LatestPut(puts, n, puts[i].key, j) && i <= j
    decreases n
  {
    if puts[n - 1].key == puts[i].key { return n - 1; }
    j := LatestPutExists(puts, i, n - 1);
  }

  /** With a strictly increasing clock an entry survives at least the next 255 puts, until it expires:
      looking its key up finds the latest put under that key. */
  lemma EntrySurvives(puts: seq<Stored>, states: seq<Entries>, i: nat, n: nat, now: int)
    requires Trace(puts, states) && ClockOk(puts) && Ticks(puts)
    requires i < n <= |puts| && n <= i + 256 && puts[n - 1].later <= now <= puts[i].later + 60_000_000_000
    ensures exists j :: i <= j && LatestPut(puts, n, puts[i].key, j) && Lookup(states[n], puts[i].key, now) == Some(puts[j].hits)
    ensures Lookup(states[n], puts[i].key, now) == Lookup(Ideal(puts[..n]), puts[i].key, now)
  {
    var j := LatestPutExists(puts, i, n);
    assert puts[i].later <= puts[j].later by { if i < j { assert puts[i].later < puts[j].later; } }
    LastPutSurvives(puts, states, j, n);
    SubsetOfIdeal(puts, states, n, puts[i].key);
  }

  function KeysOf(puts: seq<Stored>): set<string> {
    if puts == [] then {} else KeysOf(puts[..|puts| - 1]) + {puts[|puts| - 1].key}
  }

  lemma {:induction false} KeyIsPut(puts: seq<Stored>, k: string)
    requires k in KeysOf(puts)
    ensures exists a :: 0 <= a < |puts| && puts[a].key == k
  {
    var front := puts[..|puts| - 1];
    if puts[|puts| - 1].key != k {
      KeyIsPut(front, k);
      var a :| 0 <= a < |front| && front[a].key == k;
      assert puts[a].key == k;
    }
  }

  lemma {:induction false} DistinctKeys(puts: seq<Stored>)
    requires forall i, j :: 0 <= i < j < |puts| ==> puts[i].key != puts[j].key
    ensures |KeysOf(puts)| == |puts|
  {
    if puts != [] {
      var front, last := puts[..|puts| - 1], puts[|puts| - 1];
      DistinctKeys(front);
      if last.key in KeysOf(front) { KeyIsPut(front, last.key); }
    }
  }

  /** The bound of 255 is exact: 256 further puts under new keys, with nothing expiring meanwhile,
      always drop the entry. */
  lemma SurvivalIsSharp(puts: seq<Stored>, states: seq<Entries>, i: nat)
    requires Trace(puts, states) && ClockOk(puts) && Ticks(puts) && i + 256 < |puts|
    requires forall a, b :: i <= a < b <= i + 256 ==> puts[a].key != puts[b].key
    requires puts[i + 256].now <= puts[i + 1].later + 60_000_000_000
    ensures puts[i].key !in states[i + 257]
  {
    var n := i + MAX_SIZE + 1;
    var later := puts[i + 1..n];
    DistinctKeys(later);
    forall k | k in KeysOf(later) ensures k in states[n] && k != puts[i].key {
      KeyIsPut(later, k);
      var a :| 0 <= a < |later| && later[a].key == k;
      var j := i + 1 + a;
      assert puts[j] == later[a];
      assert puts[i + 1].later <= puts[j].later;
      LastPutSurvives(puts, states, j, n);
    }
    CacheBounded(puts, states, n);
    Order.SubsetSize(KeysOf(later), states[n].Keys);
    assert states[n].Keys == KeysOf(later);
  }
}
