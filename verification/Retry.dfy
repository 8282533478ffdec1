/** The shared GET with retries: which response comes back, which bodies are closed, how long it waits. */
module Retry {

  class Body {
    var closed: bool
    constructor ()
      ensures !closed
    { closed := false; }

    method Close()
      modifies this
      ensures closed
    { closed := true; }
  }

  /** What one attempt meets: a request that cannot be built, a transport error, or a response. */
  datatype Attempt = BadRequest | NetworkError | Response(status: int, body: Body)

  datatype Result = Returned(status: int, body: Body) | RequestError | Cancelled | Exhausted

  predicate Transient(a: Attempt) {
    a.NetworkError? || (a.Response? && (a.status == 429 || a.status >= 500))
  }

  /** The bodies the attempts may hand out are open and belong to one attempt each. */
  ghost predicate Pristine(attempts: seq<Attempt>)
    reads set a | a in attempts && a.Response? :: a.body
  {
    && (forall i :: 0 <= i < |attempts| && attempts[i].Response? ==> !attempts[i].body.closed)
    && (forall i, j :: 0 <= i < j < |attempts| && attempts[i].Response? && attempts[j].Response? ==>
          attempts[i].body != attempts[j].body)
  }

  /** Milliseconds of backoff after `k` failed attempts. */
  function Backoff(k: nat): nat { if k == 0 then 0 else Backoff(k - 1) + k * k * 200 }

  lemma {:induction false} BackoffClosedForm(k: nat)
    ensures 6 * Backoff(k) == 200 * (k * (k + 1) * (2 * k + 1))
  {
    if k > 0 {
      BackoffClosedForm(k - 1);
      Cubic(k);
    }
  }

  lemma Cubic(k: int)
    ensures k * (k + 1) * (2 * k + 1) == (k - 1) * k * (2 * k - 1) + 6 * (k * k)
  {
    var square := k * k;
    assert k * (k + 1) == square + k;
    assert (k - 1) * k == square - k;
    Double(square, k);
    Double(k, k);
    assert (square + k) * (2 * k + 1) == 2 * (square * k) + 3 * square + k;
    assert (square - k) * (2 * k - 1) == 2 * (square * k) - 3 * square + k;
  }

  lemma Double(a: int, k: int)
    ensures a * (2 * k + 1) == 2 * (a * k) + a
    ensures a * (2 * k - 1) == 2 * (a * k) - a
  {
  }

  lemma {:induction false} BackoffGrows(k: nat, n: nat)
    requires k <= n
    ensures Backoff(k) <= Backoff(n)
  {
    if k < n { BackoffGrows(k, n - 1); }
  }

  /** Everything but the bodies: after `made` attempts the outcome is settled by the last of them. */
  predicate Settled(attempts: seq<Attempt>, done: seq<bool>, limit: nat, made: nat, r: Result)
    requires limit <= |attempts| && limit <= |done|
  {
    && made <= limit && (limit > 0 ==> made > 0)
    && (forall i :: 0 <= i < made - 1 ==> Transient(attempts[i]) && !done[i])
    && match r
       case Returned(status, body) => made > 0 && !Transient(attempts[made - 1]) && attempts[made - 1] == Response(status, body)
       case RequestError => made > 0 && attempts[made - 1].BadRequest?
       case Cancelled => 0 < made < limit && Transient(attempts[made - 1]) && done[made - 1]
       case Exhausted => made == limit && (made > 0 ==> Transient(attempts[made - 1]))
  }

  /** `attempts[i]` is what attempt i+1 would meet and `done[i]` whether the context ends during the
      wait after it; `slept` is the backoff waited out in full. */
  method GetWithRetry(attempts: seq<Attempt>, done: seq<bool>, limit: nat)
      returns (r: Result, made: nat, slept: nat)
    requires limit <= |attempts| && limit <= |done| && Pristine(attempts)
    modifies set a | a in attempts && a.Response? :: a.body
    ensures Settled(attempts, done, limit, made, r)
    ensures forall i :: 0 <= i < |attempts| && attempts[i].Response? ==>
              (attempts[i].body.closed <==> i < made && (attempts[i].status == 429 || attempts[i].status >= 500))
    ensures slept == Backoff(if made == 0 then 0 else made - 1)
  {
    made, slept := 0, 0;
    for attempt := 1 to limit + 1
      invariant made == attempt - 1
      invariant forall i :: 0 <= i < made ==> Transient(attempts[i])
      invariant forall i :: 0 <= i < made && i < limit - 1 ==> !done[i]
      invariant forall i :: 0 <= i < |attempts| && attempts[i].Response? ==>
                  (attempts[i].body.closed <==> i < made && Transient(attempts[i]))
      invariant slept == Backoff(if made == 0 then 0 else if made == limit then made - 1 else made)
    {
      var a := attempts[attempt - 1];
      made := attempt;
      match a {
        case BadRequest =>
          return RequestError, made, slept;
        case NetworkError =>
        case Response(status, body) =>
          if status == 429 || status >= 500 {
            body.Close();
          } else {
            return Returned(status, body), made, slept;
          }
      }
      if attempt < limit {
        if done[attempt - 1] {
          return Cancelled, made, slept;
        }
        slept := slept + attempt * attempt * 200;
      }
    }
    return Exhausted, made, slept;
  }

  /** What the contract gives any caller: at most `limit` attempts, a returned response is never 429
      or 5xx, the bodies left open among those obtained are exactly the returned one, and the backoff is
      bounded by 200 (n-1) n (2n-1) / 6 milliseconds. */
  lemma RetryBounds(attempts: seq<Attempt>, done: seq<bool>, limit: nat, made: nat, r: Result)
    requires limit <= |attempts| && limit <= |done| && Settled(attempts, done, limit, made, r)
    ensures made <= limit
    ensures r.Returned? ==> r.status != 429 && r.status < 500
    ensures forall i :: 0 <= i < made && attempts[i].Response? && !Transient(attempts[i]) ==>
              r == Returned(attempts[i].status, attempts[i].body) && i == made - 1
    ensures made > 0 ==> 6 * Backoff(made - 1) <= 200 * ((limit - 1) * limit * (2 * limit - 1))
    ensures limit == 3 && made > 0 ==> Backoff(made - 1) <= 1000
  {
    if made > 0 {
      BackoffClosedForm(limit - 1);
      BackoffGrows(made - 1, limit - 1);
    }
  }

  /** Worth another attempt: no response, a 429 or a 5xx. */
  predicate TryAgain(a: Attempt) {
    a == NetworkError || (a.Response? && (a.status == 429 || 500 <= a.status))
  }

  /** In plain terms: if the attempts before the `i`-th met no response, a 429 or a 5xx and no wait was
      cut short, the `i`-th settles the matter unless it is such a one itself with another to follow:
      any other response is returned, with its body, whatever its status. */
  lemma FirstAnswerCounts(attempts: seq<Attempt>, done: seq<bool>, limit: nat, made: nat, r: Result, i: nat)
    requires limit <= |attempts| && limit <= |done| && Settled(attempts, done, limit, made, r) && i < limit
    requires forall j :: 0 <= j < i ==> !done[j]
    requires forall j :: 0 <= j < i ==>
               attempts[j] == NetworkError
               || (attempts[j].Response? && (attempts[j].status == 429 || attempts[j].status >= 500))
    ensures var a := attempts[i];
            && (a.Response? && a.status != 429 && a.status < 500 ==> r == Returned(a.status, a.body) && made == i + 1)
            && (a == BadRequest ==> r == RequestError && made == i + 1)
            && (TryAgain(a) && i + 1 == limit ==> r == Exhausted && made == limit)
            && (TryAgain(a) && i + 1 < limit && done[i] ==> r == Cancelled && made == i + 1)
  {
    assert made > i;
    assert Transient(attempts[i]) <==> TryAgain(attempts[i]);
    if made > i + 1 { assert Transient(attempts[i]) && !done[i]; }
  }

  /** Conversely every attempt before the last one met no response, a 429 or a 5xx. */
  lemma OnlyFailuresAreRepeated(attempts: seq<Attempt>, done: seq<bool>, limit: nat, made: nat, r: Result)
    requires limit <= |attempts| && limit <= |done| && Settled(attempts, done, limit, made, r)
    ensures forall j :: 0 <= j < made - 1 ==>
              && !done[j]
              && (attempts[j] == NetworkError
                  || (attempts[j].Response? && (attempts[j].status == 429 || attempts[j].status >= 500)))
    ensures limit == 0 ==> r == Exhausted && made == 0
  {
    forall j | 0 <= j < made - 1
      ensures !done[j]
      ensures attempts[j] == NetworkError
              || (attempts[j].Response? && (attempts[j].status == 429 || attempts[j].status >= 500))
    {
      assert Transient(attempts[j]);
    }
  }

  /** The same attempts settle in one way only. */
  lemma SettledOnce(attempts: seq<Attempt>, done: seq<bool>, limit: nat, m: nat, r: Result, n: nat, q: Result)
    requires limit <= |attempts| && limit <= |done|
    requires Settled(attempts, done, limit, m, r) && Settled(attempts, done, limit, n, q)
    ensures m == n && r == q
  {
  }
}
