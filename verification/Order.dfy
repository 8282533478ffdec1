/** The order of `sort.Strings` and the sorted, duplicate-free listing of a set of keys. */
module Order {

  /** Go compares strings byte-wise; on UTF-8 that is the order of the code points. */
  predicate Leq(a: string, b: string) {
    a == [] || (b != [] && (a[0] < b[0] || (a[0] == b[0] && Leq(a[1..], b[1..]))))
  }

  lemma {:induction false} LeqTotal(a: string, b: string)
    ensures Leq(a, b) || Leq(b, a)
  {
    if a != [] && b != [] && a[0] == b[0] { LeqTotal(a[1..], b[1..]); }
  }

  lemma {:induction false} LeqTrans(a: string, b: string, c: string)
    requires Leq(a, b) && Leq(b, c)
    ensures Leq(a, c)
  {
    if a != [] && a[0] == b[0] == c[0] { LeqTrans(a[1..], b[1..], c[1..]); }
  }

  lemma {:induction false} LeqAntisym(a: string, b: string)
    requires Leq(a, b) && Leq(b, a)
    ensures a == b
  {
    if a != [] {
      LeqAntisym(a[1..], b[1..]);
      assert a == [a[0]] + a[1..] && b == [b[0]] + b[1..];
    }
  }

  /** `a` comes first: it is a prefix of `b`, or at the first place where they differ it has the smaller
      character. */
  lemma {:induction false} LeqIsLexicographic(a: string, b: string)
    ensures Leq(a, b) <==> exists i :: 0 <= i <= |a| && i <= |b| && a[..i] == b[..i] && (i == |a| || (i < |b| && a[i] < b[i]))
  {
    if a == [] {
      assert a[..0] == b[..0];
    } else if b != [] {
      if a[0] == b[0] {
        LeqIsLexicographic(a[1..], b[1..]);
        if Leq(a, b) {
          var i :| 0 <= i <= |a| - 1 && i <= |b| - 1 && a[1..][..i] == b[1..][..i]
                   && (i == |a| - 1 || (i < |b| - 1 && a[1..][i] < b[1..][i]));
          assert a[..i + 1] == [a[0]] + a[1..][..i] && b[..i + 1] == [b[0]] + b[1..][..i];
        }
        if i :| 0 <= i <= |a| && i <= |b| && a[..i] == b[..i] && (i == |a| || (i < |b| && a[i] < b[i])) {
          assert i > 0;
          assert a[1..][..i - 1] == a[..i][1..] && b[1..][..i - 1] == b[..i][1..];
        }
      } else {
        assert a[..0] == b[..0];
        if i :| 0 <= i <= |a| && i <= |b| && a[..i] == b[..i] && (i == |a| || (i < |b| && a[i] < b[i])) {
          if i > 0 { assert a[..i][0] == b[..i][0]; }
        }
      }
    }
  }

  /** Sorted and free of duplicates. */
  predicate Ascending(q: seq<string>) {
    forall i, j :: 0 <= i < j < |q| ==> q[i] != q[j] && Leq(q[i], q[j])
  }

  lemma LeastExists(s: set<string>)
    requires s != {}
    ensures exists m :: m in s && forall y :: y in s ==> Leq(m, y)
    decreases |s|
  {
    var x :| x in s;
    LeqTotal(x, x);
    if s != {x} {
      assert s == (s - {x}) + {x};
      LeastExists(s - {x});
      var m :| m in s - {x} && forall y :: y in s - {x} ==> Leq(m, y);
      LeqTotal(x, m);
      var least := if Leq(x, m) then x else m;
      forall y | y in s ensures Leq(least, y) {
        if y != x && Leq(x, m) { LeqTrans(x, m, y); }
      }
      assert least in s;
    }
  }

  ghost predicate IsListing(q: seq<string>, s: set<string>) {
    Ascending(q) && |q| == |s| && forall x :: x in q <==> x in s
  }

  lemma {:induction false} ListingExists(s: set<string>)
    ensures exists q :: IsListing(q, s)
    decreases |s|
  {
    if s == {} {
      assert IsListing([], s);
    } else {
      LeastExists(s);
      var m :| m in s && forall y :: y in s ==> Leq(m, y);
      ListingExists(s - {m});
      var rest :| IsListing(rest, s - {m});
      assert forall x :: x in s <==> x == m || x in s - {m};
      assert IsListing([m] + rest, s);
    }
  }

  /** The members of `s` in ascending order. */
  ghost function Listing(s: set<string>): (q: seq<string>)
    ensures Ascending(q)
    ensures forall x :: x in q <==> x in s
    ensures |q| == |s|
  {
    ListingExists(s);
    var q :| IsListing(q, s);
    q
  }

  lemma SubsetSize(a: set<string>, b: set<string>)
    requires a <= b
    ensures |a| <= |b|
    ensures a != b ==> |a| < |b|
  {
    assert b == a + (b - a);
    assert |b| == |a| + |b - a|;
  }

  function Elems(q: seq<string>): set<string> { set x | x in q }

  lemma ElemsCons(q: seq<string>)
    requires q != []
    ensures Elems(q) == {q[0]} + Elems(q[1..])
  {
    assert q == [q[0]] + q[1..];
  }

  lemma AscendingSize(q: seq<string>)
    requires Ascending(q)
    ensures |Elems(q)| == |q|
  {
    if q != [] {
      var front, last := q[..|q| - 1], q[|q| - 1];
      AscendingSize(front);
      assert Elems(q) == Elems(front) + {last};
      assert last !in Elems(front);
    }
  }

  lemma ElemsSplit(q: seq<string>, k: nat)
    requires Ascending(q) && k <= |q|
    ensures Ascending(q[..k]) && Ascending(q[k..])
    ensures Elems(q[..k]) !! Elems(q[k..])
    ensures Elems(q) == Elems(q[..k]) + Elems(q[k..])
  {
  }

  lemma HeadIsMember(q: seq<string>)
    ensures q != [] ==> q[0] in q
  {
  }

  lemma HeadIsLeast(q: seq<string>, x: string)
    requires Ascending(q) && x in q
    ensures Leq(q[0], x)
  {
    LeqTotal(x, x);
  }

  lemma TailMembers(q: seq<string>)
    requires Ascending(q) && q != []
    ensures Ascending(q[1..]) && forall x :: x in q[1..] <==> x in q && x != q[0]
  {
  }

  /** A sorted duplicate-free sequence is determined by its members. */
  lemma {:induction false} AscendingUnique(a: seq<string>, b: seq<string>)
    requires Ascending(a) && Ascending(b) && forall x :: x in a <==> x in b
    ensures a == b
    decreases |a|
  {
    if a == [] {
      HeadIsMember(b);
    } else {
      assert a[0] in a && a[0] in b && b[0] in b && b[0] in a;
      HeadIsLeast(a, b[0]);
      HeadIsLeast(b, a[0]);
      LeqAntisym(a[0], b[0]);
      TailMembers(a);
      TailMembers(b);
      AscendingUnique(a[1..], b[1..]);
      assert a == [a[0]] + a[1..] && b == [b[0]] + b[1..];
    }
  }

  lemma ListingUnique(q: seq<string>, s: set<string>)
    requires Ascending(q) && Elems(q) == s
    ensures q == Listing(s)
  {
    forall x ensures x in q <==> x in Listing(s) { assert x in q <==> x in Elems(q); }
    AscendingUnique(q, Listing(s));
  }

  function Below(s: set<string>, x: string): set<string> {
    set y | y in s && y != x && Leq(y, x)
  }

  lemma BelowIsPrefix(q: seq<string>, i: nat)
    requires Ascending(q) && i < |q|
    ensures Below(Elems(q), q[i]) == Elems(q[..i])
  {
    ElemsSplit(q, i);
    var b := q[i..];
    assert b[0] == q[i];
    forall y | y in Elems(q[..i]) ensures y in Below(Elems(q), q[i]) {
      var j :| 0 <= j < i && q[..i][j] == y;
      assert q[j] == y;
    }
    forall y | y in Elems(b) ensures y !in Below(Elems(q), q[i]) {
      var j :| 0 <= j < |b| && b[j] == y;
      if j > 0 && Leq(y, b[0]) { LeqAntisym(y, b[0]); }
    }
  }

  /** A prefix that does not reach `x` lies below it. */
  lemma PrefixBelow(q: seq<string>, s: set<string>, k: nat, x: string)
    requires Ascending(q) && (forall y :: y in q <==> y in s) && k <= |q| && x in q && x !in q[..k]
    ensures Elems(q[..k]) <= Below(s, x) && |Elems(q[..k])| == k
  {
    var i :| 0 <= i < |q| && q[i] == x;
    assert Elems(q) == s;
    BelowIsPrefix(q, i);
    assert q[..k] == q[..i][..k];
    AscendingSize(q[..k]);
  }

  /** The position of a member is the number of members below it. */
  lemma ListingRank(s: set<string>, x: string)
    requires x in s
    ensures |Below(s, x)| < |s| && Listing(s)[|Below(s, x)|] == x
  {
    var q := Listing(s);
    assert Elems(q) == s;
    var i :| 0 <= i < |q| && q[i] == x;
    BelowIsPrefix(q, i);
    ElemsSplit(q, i);
    AscendingSize(q[..i]);
  }

  /** A member is among the first `k` listed exactly when fewer than `k` members precede it. */
  lemma ListedWithin(s: set<string>, x: string, k: nat)
    requires x in s
    ensures x in Listing(s)[..if k <= |s| then k else |s|] <==> |Below(s, x)| < k
  {
    var q := Listing(s);
    var n := if k <= |s| then k else |s|;
    ListingRank(s, x);
    var r := |Below(s, x)|;
    if r < n { assert q[..n][r] == x; }
    if x in q[..n] {
      var i :| 0 <= i < n && q[..n][i] == x;
      assert q[i] == x;
      assert i == r;
    }
  }

  lemma ConsConcat<T>(a: seq<T>, b: seq<T>)
    ensures a == [] ==> a + b == b
    ensures a != [] ==> (a + b)[0] == a[0] && (a + b)[1..] == a[1..] + b
  {
  }

  // ---- insertion sort: the behaviour of sort.Strings and sort.Slice ----

  ghost predicate TotalPreorder<T(!new)>(le: (T, T) -> bool) {
    && (forall x, y :: le(x, y) || le(y, x))
    && (forall x, y, z :: le(x, y) && le(y, z) ==> le(x, z))
  }

  predicate SortedBy<T>(le: (T, T) -> bool, q: seq<T>) {
    forall i, j :: 0 <= i < j < |q| ==> le(q[i], q[j])
  }

  function Insert<T>(le: (T, T) -> bool, x: T, q: seq<T>): seq<T> {
    if q == [] then [x]
    else if le(x, q[0]) then [x] + q
    else [q[0]] + Insert(le, x, q[1..])
  }

  function SortBy<T>(le: (T, T) -> bool, q: seq<T>): seq<T> {
    if q == [] then [] else Insert(le, q[0], SortBy(le, q[1..]))
  }

  lemma {:induction false} InsertKeeps<T>(le: (T, T) -> bool, x: T, q: seq<T>)
    ensures multiset(Insert(le, x, q)) == multiset(q) + multiset{x}
  {
    if q != [] {
      assert q == [q[0]] + q[1..];
      InsertKeeps(le, x, q[1..]);
    }
  }

  lemma ConsSorted<T>(le: (T, T) -> bool, x: T, q: seq<T>)
    requires SortedBy(le, q) && forall y :: y in multiset(q) ==> le(x, y)
    ensures SortedBy(le, [x] + q)
  {
  }

  lemma {:induction false} InsertSorts<T(!new)>(le: (T, T) -> bool, x: T, q: seq<T>)
    requires TotalPreorder(le) && SortedBy(le, q)
    ensures SortedBy(le, Insert(le, x, q))
  {
    if q != [] {
      assert q == [q[0]] + q[1..];
      if le(x, q[0]) {
        ConsSorted(le, x, q);
      } else {
        InsertSorts(le, x, q[1..]);
        InsertKeeps(le, x, q[1..]);
        ConsSorted(le, q[0], Insert(le, x, q[1..]));
      }
    }
  }

  lemma {:induction false} SortByOk<T(!new)>(le: (T, T) -> bool, q: seq<T>)
    requires TotalPreorder(le)
    ensures SortedBy(le, SortBy(le, q))
    ensures multiset(SortBy(le, q)) == multiset(q)
  {
    if q != [] {
      SortByOk(le, q[1..]);
      InsertSorts(le, q[0], SortBy(le, q[1..]));
      InsertKeeps(le, q[0], SortBy(le, q[1..]));
      assert q == [q[0]] + q[1..];
    }
  }

  predicate NoDuplicates<T(==)>(q: seq<T>) {
    forall i, j :: 0 <= i < j < |q| ==> q[i] != q[j]
  }

  lemma NoDuplicatesAppend<T>(q: seq<T>, x: T)
    requires NoDuplicates(q) && x !in q
    ensures NoDuplicates(q + [x])
  {
  }

  lemma NoDuplicatesTail<T>(q: seq<T>)
    requires NoDuplicates(q) && q != []
    ensures NoDuplicates(q[1..]) && q[0] !in q[1..]
    ensures forall x :: x in q[1..] <==> x in q && x != q[0]
  {
  }

  // ---- sorting by a key: the positions in ascending order of their keys ----

  function KeyAt(keys: seq<int>, i: nat): int { if i < |keys| then keys[i] else 0 }

  function ByKey(keys: seq<int>): (nat, nat) -> bool {
    (i: nat, j: nat) => KeyAt(keys, i) <= KeyAt(keys, j)
  }

  function Positions(n: nat): seq<nat> { seq(n, (i: nat) => i) }

  function SortedIndices(keys: seq<int>): seq<nat> { SortBy(ByKey(keys), Positions(|keys|)) }

  ghost predicate IsPermutation(order: seq<nat>, n: nat) {
    |order| == n && NoDuplicates(order) && (forall i: nat :: i in order <==> i < n)
  }

  lemma SortedIndicesOk(keys: seq<int>)
    ensures var order := SortedIndices(keys);
            && IsPermutation(order, |keys|)
            && forall a, b :: 0 <= a < b < |order| ==> order[a] < |keys| && order[b] < |keys| && keys[order[a]] <= keys[order[b]]
  {
    var order, p := SortedIndices(keys), Positions(|keys|);
    SortByOk(ByKey(keys), p);
    NoDuplicatesMultiset(p);
    NoDuplicatesMultiset(order);
    assert |order| == |multiset(order)| == |multiset(p)| == |p|;
    forall i: nat ensures i in order <==> i < |keys| {
      assert i in order <==> i in multiset(order);
      assert i in p <==> i in multiset(p);
      if i < |keys| { assert p[i] == i; }
    }
    forall a, b | 0 <= a < b < |order|
      ensures order[a] < |keys| && order[b] < |keys| && keys[order[a]] <= keys[order[b]]
    {
      assert order[a] in order && order[b] in order;
      assert ByKey(keys)(order[a], order[b]);
    }
  }

  function Rearranged<T>(q: seq<T>, order: seq<nat>): (r: seq<T>)
    requires forall i :: 0 <= i < |order| ==> order[i] < |q|
    ensures |r| == |order| && forall i :: 0 <= i < |order| ==> r[i] == q[order[i]]
  {
    seq(|order|, i requires 0 <= i < |order| => q[order[i]])
  }

  lemma InRange(order: seq<nat>, n: nat)
    requires IsPermutation(order, n)
    ensures forall i :: 0 <= i < |order| ==> order[i] < n
  {
    forall i | 0 <= i < |order| ensures order[i] < n { assert order[i] in order; }
  }

  lemma RearrangedDistinct<T>(q: seq<T>, order: seq<nat>)
    requires NoDuplicates(q) && IsPermutation(order, |q|)
    ensures (forall i :: 0 <= i < |order| ==> order[i] < |q|) && NoDuplicates(Rearranged(q, order))
  {
    InRange(order, |q|);
  }

  lemma RearrangedEnumerates(q: seq<string>, order: seq<nat>, s: set<string>)
    requires Enumerates(q, s) && IsPermutation(order, |q|)
    ensures (forall i :: 0 <= i < |order| ==> order[i] < |q|) && Enumerates(Rearranged(q, order), s)
  {
    RearrangedDistinct(q, order);
    var r := Rearranged(q, order);
    forall x | x in s ensures x in r {
      var i: nat :| i < |q| && q[i] == x;
      assert i in order;
      var k :| 0 <= k < |order| && order[k] == i;
      assert r[k] == x;
    }
  }

  /** `q` visits each member of `s` once. */
  ghost predicate Enumerates(q: seq<string>, s: set<string>) {
    NoDuplicates(q) && forall x :: x in q <==> x in s
  }

  /** One turn of a loop over `todo` that keeps the keys in `wanted`. */
  lemma Visited(q: seq<string>, wanted: set<string>, todo: set<string>, x: string)
    requires x in todo && Enumerates(q, wanted - todo)
    ensures x in wanted ==> Enumerates(q + [x], wanted - (todo - {x}))
    ensures x !in wanted ==> Enumerates(q, wanted - (todo - {x}))
  {
  }

  lemma NoDuplicatesMultiset<T>(q: seq<T>)
    ensures NoDuplicates(q) <==> forall x :: multiset(q)[x] <= 1
  {
    if q != [] {
      var front, last := q[..|q| - 1], q[|q| - 1];
      NoDuplicatesMultiset(front);
      assert q == front + [last];
      if NoDuplicates(q) {
        assert NoDuplicates(front);
        assert last !in front;
        assert multiset(front)[last] == 0;
      } else if NoDuplicates(front) {
        var i :| 0 <= i < |front| && front[i] == last;
        assert last in multiset(front);
        assert multiset(q)[last] >= 2;
      } else {
        var x :| multiset(front)[x] > 1;
        assert multiset(q)[x] > 1;
      }
    }
  }

  /** Sorting the keys of a map, visited in any order, yields the listing. */
  lemma SortedKeysAreListing(keys: seq<string>, s: set<string>)
    requires Enumerates(keys, s)
    ensures SortBy(Leq, keys) == Listing(s)
  {
    assert TotalPreorder(Leq) by {
      forall x, y ensures Leq(x, y) || Leq(y, x) { LeqTotal(x, y); }
      forall x, y, z | Leq(x, y) && Leq(y, z) ensures Leq(x, z) { LeqTrans(x, y, z); }
    }
    SortByOk(Leq, keys);
    var q := SortBy(Leq, keys);
    NoDuplicatesMultiset(keys);
    NoDuplicatesMultiset(q);
    assert Elems(q) == s by {
      assert forall x :: x in q <==> x in multiset(q);
      assert forall x :: x in keys <==> x in multiset(keys);
    }
    ListingUnique(q, s);
  }
}
