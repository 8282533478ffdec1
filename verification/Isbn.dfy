/** The form an ISBN takes as a key: what clients send, what a search suggests and what the
    database accepts. */
module Isbn {
  import opened Catalog
  import opened Order
  import opened Text

  predicate Digit(c: char) { '0' <= c <= '9' }

  const NBSP: char := '\U{00A0}'

  const SEPARATORS := {'-', ' ', '\t', NBSP}

  predicate Separator(c: char) { c in SEPARATORS }

  /** What is used of Go's ToUpper: on ASCII it is the usual mapping, and no other character is
      mapped to a digit or to either case of x. */
  ghost predicate UpperCasing(up: char -> char) {
    forall c: char ::
      if c as int < 128 then up(c) == (if 'a' <= c <= 'z' then (c as int - 32) as char else c)
      else !Digit(up(c)) && up(c) != 'X' && up(c) != 'x'
  }

  function Upper(up: char -> char, s: string): string {
    if s == [] then [] else [up(s[0])] + Upper(up, s[1..])
  }

  /** `s` without the characters to drop. */
  function Without(drop: set<char>, s: string): string {
    if s == [] then []
    else if s[0] in drop then Without(drop, s[1..])
    else [s[0]] + Without(drop, s[1..])
  }

  function Strip(s: string): string { Without(SEPARATORS, s) }

  predicate AllDigits(s: string) { forall i :: 0 <= i < |s| ==> Digit(s[i]) }

  predicate Shape(s: string) {
    || (|s| == 10 && AllDigits(s[..9]) && (Digit(s[9]) || s[9] == 'X'))
    || (|s| == 13 && AllDigits(s))
  }

  /** `None` stands for ErrInvalidISBN. */
  function Canonical(up: char -> char, raw: string): Option<string> {
    var isbn := Upper(up, Strip(raw));
    if Shape(isbn) then Some(isbn) else None
  }

  lemma CanonicalIsNonEmpty(up: char -> char, raw: string)
    ensures Canonical(up, raw) != Some("")
  {
  }

  /** The constraint `books_isbn_shape`. */
  predicate PassesCheck(isbn: string) {
    var s := StripPlain(isbn);
    || (|s| == 10 && AllDigits(s[..9]) && (Digit(s[9]) || s[9] == 'X' || s[9] == 'x'))
    || (|s| == 13 && AllDigits(s))
  }

  /** Hyphens and spaces only, as in the constraint and in the search provider. */
  function StripPlain(s: string): string { Without({'-', ' '}, s) }

  // ---- canonical keys ----

  predicate KeyChars(s: string) { forall i :: 0 <= i < |s| ==> Digit(s[i]) || s[i] == 'X' }

  lemma ShapeChars(s: string)
    requires Shape(s)
    ensures KeyChars(s)
  {
  }

  lemma {:induction false} NothingToDrop(drop: set<char>, s: string)
    requires forall i :: 0 <= i < |s| ==> s[i] !in drop
    ensures Without(drop, s) == s
  {
    if s != [] {
      NothingToDrop(drop, s[1..]);
      assert s == [s[0]] + s[1..];
    }
  }

  lemma KeyCharsFixed(up: char -> char, s: string)
    requires UpperCasing(up) && KeyChars(s)
    ensures Strip(s) == s && StripPlain(s) == s && Upper(up, s) == s
  {
    NothingToDrop(SEPARATORS, s);
    NothingToDrop({'-', ' '}, s);
    UpperAt(up, s);
  }

  /** The keys that inputs are mapped to are exactly the strings of the right shape, each of which
      is mapped to itself; so canonicalisation is idempotent and its results pass the database's check. */
  lemma CanonicalKeys(up: char -> char, key: string)
    requires UpperCasing(up)
    ensures (exists raw :: Canonical(up, raw) == Some(key)) <==> Shape(key)
    ensures Shape(key) <==> Canonical(up, key) == Some(key)
    ensures Shape(key) ==> PassesCheck(key) && key != ""
  {
    if Shape(key) {
      ShapeChars(key);
      KeyCharsFixed(up, key);
      assert Canonical(up, key) == Some(key);
    }
  }

  lemma {:induction false} WithoutConcat(drop: set<char>, a: string, b: string)
    ensures Without(drop, a + b) == Without(drop, a) + Without(drop, b)
  {
    ConsConcat(a, b);
    if a != [] { WithoutConcat(drop, a[1..], b); }
  }

  lemma StripConcat(a: string, b: string)
    ensures Strip(a + b) == Strip(a) + Strip(b)
  {
    WithoutConcat(SEPARATORS, a, b);
  }

  lemma {:induction false} UpperConcat(up: char -> char, a: string, b: string)
    ensures Upper(up, a + b) == Upper(up, a) + Upper(up, b)
  {
    ConsConcat(a, b);
    if a != [] { UpperConcat(up, a[1..], b); }
  }

  lemma StripAround(a: string, c: char, b: string)
    ensures Strip(a + [c] + b) == Strip(a) + (if Separator(c) then [] else [c]) + Strip(b)
  {
    StripConcat(a, [c]);
    StripConcat(a + [c], b);
    WithoutOne(SEPARATORS, c);
  }

  lemma UpperAround(up: char -> char, a: string, c: char, b: string)
    ensures Upper(up, a + [c] + b) == Upper(up, a) + [up(c)] + Upper(up, b)
  {
    UpperConcat(up, a, [c]);
    UpperConcat(up, a + [c], b);
    assert Upper(up, [c]) == [up(c)];
  }

  /** A separator inserted anywhere does not change the key, nor does the case of a letter. */
  lemma SpellingDoesNotMatter(up: char -> char, a: string, b: string, sep: char, c: char)
    requires UpperCasing(up) && Separator(sep) && 'a' <= c <= 'z'
    ensures Canonical(up, a + [sep] + b) == Canonical(up, a + b)
    ensures Canonical(up, a + [c] + b) == Canonical(up, a + [up(c)] + b)
  {
    StripConcat(a, b);
    StripAround(a, sep, b);
    assert Strip(a) + [] + Strip(b) == Strip(a) + Strip(b);
    var d := up(c);
    assert up(d) == d && !Separator(d);
    StripAround(a, c, b);
    StripAround(a, d, b);
    UpperAround(up, Strip(a), c, Strip(b));
    UpperAround(up, Strip(a), d, Strip(b));
  }

  // ---- what is accepted, in plain terms ----

  /** `at` lists, in order, the places of `s` whose character is not to be dropped. */
  ghost predicate KeptAt(drop: set<char>, s: string, at: seq<int>) {
    && (forall k :: 0 <= k < |at| ==> 0 <= at[k] < |s| && s[at[k]] !in drop)
    && (forall k, l :: 0 <= k < l < |at| ==> at[k] < at[l])
    && (forall i :: 0 <= i < |s| && s[i] !in drop ==> i in at)
  }

  /** `kept` are the characters at those places. */
  ghost predicate KeptAs(drop: set<char>, s: string, at: seq<int>, kept: string) {
    KeptAt(drop, s, at) && |kept| == |at| && forall k :: 0 <= k < |at| ==> kept[k] == s[at[k]]
  }

  /** The places of `s + [c]`, from those of `s`. */
  function Next(drop: set<char>, s: string, at: seq<int>, c: char): seq<int> {
    if c in drop then at else at + [|s|]
  }

  lemma KeptNext(drop: set<char>, s: string, at: seq<int>, kept: string, c: char)
    requires KeptAs(drop, s, at, kept)
    ensures KeptAs(drop, s + [c], Next(drop, s, at, c), if c in drop then kept else kept + [c])
  {
    var all := Next(drop, s, at, c);
    forall i | 0 <= i < |s + [c]| && (s + [c])[i] !in drop ensures i in all {
      if i == |s| { assert all[|at|] == i; } else { assert i in at; }
    }
  }

  lemma WithoutOne(drop: set<char>, c: char)
    ensures Without(drop, [c]) == if c in drop then [] else [c]
  {
    assert [c][1..] == [];
  }

  lemma WithoutAppended(drop: set<char>, s: string, c: char)
    ensures Without(drop, s + [c]) == if c in drop then Without(drop, s) else Without(drop, s) + [c]
  {
    WithoutConcat(drop, s, [c]);
    WithoutOne(drop, c);
  }

  lemma KeptAppended(drop: set<char>, s: string, at: seq<int>, c: char)
    requires KeptAs(drop, s, at, Without(drop, s))
    ensures KeptAs(drop, s + [c], Next(drop, s, at, c), Without(drop, s + [c]))
  {
    KeptNext(drop, s, at, Without(drop, s), c);
    WithoutAppended(drop, s, c);
  }

  /** Dropping keeps the other characters, all of them, in order. */
  lemma {:induction false} KeptPlaces(drop: set<char>, s: string) returns (at: seq<int>)
    ensures KeptAs(drop, s, at, Without(drop, s))
    decreases |s|
  {
    if s == [] {
      at := [];
    } else {
      var front, c := s[..|s| - 1], s[|s| - 1];
      at := KeptPlaces(drop, front);
      KeptAppended(drop, front, at, c);
      at := Next(drop, front, at, c);
      assert s == front + [c];
    }
  }

  /** An input is accepted if and only if what is left of it without hyphens, spaces, tabs and
      no-break spaces is thirteen digits, or nine digits and a digit or an x of either case; the key
      consists of those characters in order, with a capital X. */
  lemma AcceptedExactly(up: char -> char, raw: string) returns (at: seq<int>)
    requires UpperCasing(up)
    ensures KeptAt({'-', ' ', '\t', '\U{00A0}'}, raw, at)
    ensures Canonical(up, raw).Some? <==>
              || (|at| == 13 && forall k :: 0 <= k < 13 ==> '0' <= raw[at[k]] <= '9')
              || (|at| == 10 && (forall k :: 0 <= k < 9 ==> '0' <= raw[at[k]] <= '9')
                  && ('0' <= raw[at[9]] <= '9' || raw[at[9]] == 'X' || raw[at[9]] == 'x'))
    ensures Canonical(up, raw).Some? ==>
              |Canonical(up, raw).value| == |at| && forall k :: 0 <= k < |at| ==>
                Canonical(up, raw).value[k] == if raw[at[k]] == 'x' then 'X' else raw[at[k]]
  {
    at := KeptPlaces({'-', ' ', '\t', '\U{00A0}'}, raw);
    var s, key := Strip(raw), Upper(up, Strip(raw));
    UpperAt(up, s);
    forall k | 0 <= k < |at|
      ensures Digit(key[k]) <==> Digit(raw[at[k]])
      ensures key[k] == 'X' <==> raw[at[k]] == 'X' || raw[at[k]] == 'x'
      ensures Digit(key[k]) ==> key[k] == raw[at[k]]
    {
      assert key[k] == up(raw[at[k]]);
    }
  }

  /** Likewise for the database: only hyphens and spaces may be left out, and x of either case stays. */
  lemma PassesExactly(isbn: string) returns (at: seq<int>)
    ensures KeptAt({'-', ' '}, isbn, at)
    ensures PassesCheck(isbn) <==>
              || (|at| == 13 && forall k :: 0 <= k < 13 ==> '0' <= isbn[at[k]] <= '9')
              || (|at| == 10 && (forall k :: 0 <= k < 9 ==> '0' <= isbn[at[k]] <= '9')
                  && ('0' <= isbn[at[9]] <= '9' || isbn[at[9]] == 'X' || isbn[at[9]] == 'x'))
  {
    at := KeptPlaces({'-', ' '}, isbn);
  }

  // ---- the ISBN a search suggests ----

  predicate Isbn13(s: string) {
    |s| == 13 && s[0] == '9' && s[1] == '7' && (s[2] == '8' || s[2] == '9') && AllDigits(s[3..])
  }

  function Utf8Width(c: char): nat {
    if c as int < 0x80 then 1 else if c as int < 0x800 then 2 else if c as int < 0x10000 then 3 else 4
  }

  function Utf8Len(s: string): nat {
    if s == [] then 0 else Utf8Width(s[0]) + Utf8Len(s[1..])
  }

  /** A candidate without hyphens and spaces, upper-cased. */
  function Plain(up: char -> char, raw: string): string { Upper(up, StripPlain(raw)) }

  /** Whether `i` is the first index whose candidate satisfies `good`. */
  predicate First(q: seq<string>, good: string -> bool, i: int) {
    0 <= i < |q| && good(q[i]) && forall j :: 0 <= j < i ==> !good(q[j])
  }

  predicate TenBytes(s: string) { Utf8Len(s) == 10 }

  predicate NoneGood(q: seq<string>, good: string -> bool) {
    forall i :: 0 <= i < |q| ==> !good(q[i])
  }

  function Plains(up: char -> char, candidates: seq<string>): seq<string> {
    seq(|candidates|, i requires 0 <= i < |candidates| => Plain(up, candidates[i]))
  }

  /** `p` is the first ISBN-13; failing that, the first candidate of ten bytes; failing that, empty. */
  ghost predicate Picked(q: seq<string>, p: string) {
    if !NoneGood(q, Isbn13) then exists i :: First(q, Isbn13, i) && p == q[i]
    else if !NoneGood(q, TenBytes) then exists i :: First(q, TenBytes, i) && p == q[i]
    else p == ""
  }

  method PickISBN(up: char -> char, candidates: seq<string>) returns (p: string)
    ensures Picked(Plains(up, candidates), p)
  {
    ghost var q := Plains(up, candidates);
    var fallback := "";
    for n := 0 to |candidates|
      invariant NoneGood(q[..n], Isbn13)
      invariant if NoneGood(q[..n], TenBytes) then fallback == ""
                else exists i :: 0 <= i < n && First(q, TenBytes, i) && fallback == q[i]
    {
      var isbn := Plain(up, candidates[n]);
      assert q[..n + 1] == q[..n] + [isbn];
      if Isbn13(isbn) {
        assert First(q, Isbn13, n) by {
          forall j | 0 <= j < n ensures !Isbn13(q[j]) { assert q[..n][j] == q[j]; }
        }
        return isbn;
      }
      if fallback == "" && Utf8Len(isbn) == 10 {
        fallback := isbn;
        if NoneGood(q[..n], TenBytes) {
          assert First(q, TenBytes, n) by {
            forall j | 0 <= j < n ensures !TenBytes(q[j]) { assert q[..n][j] == q[j]; }
          }
        }
        assert TenBytes(q[..n + 1][n]);
      }
    }
    assert q[..|candidates|] == q;
    return fallback;
  }

  lemma {:induction false} Utf8LenAtLeast(s: string)
    ensures |s| <= Utf8Len(s)
  {
    if s != [] { Utf8LenAtLeast(s[1..]); }
  }

  lemma {:induction false} WithoutShortens(drop: set<char>, s: string)
    ensures |Without(drop, s)| <= |s| && (|Without(drop, s)| == |s| ==> Without(drop, s) == s)
  {
    if s != [] {
      WithoutShortens(drop, s[1..]);
      assert s == [s[0]] + s[1..];
    }
  }

  lemma {:induction false} UpperAt(up: char -> char, s: string)
    ensures |Upper(up, s)| == |s| && forall i :: 0 <= i < |s| ==> Upper(up, s)[i] == up(s[i])
  {
    if s != [] { UpperAt(up, s[1..]); }
  }

  lemma Isbn13Shape(p: string)
    requires Isbn13(p)
    ensures Shape(p)
  {
  }

  /** Upper-casing an upper-cased text to key characters changes none of it. */
  lemma UpperTwice(up: char -> char, raw: string)
    requires UpperCasing(up) && KeyChars(Upper(up, Upper(up, raw)))
    ensures Upper(up, Upper(up, raw)) == Upper(up, raw)
  {
    var s := Upper(up, raw);
    UpperAt(up, raw);
    UpperAt(up, s);
    forall i | 0 <= i < |s| ensures up(s[i]) == s[i] {
      assert Upper(up, s)[i] == up(s[i]) && s[i] == up(raw[i]);
    }
  }

  /** What counts as an ISBN-13: a 978 or 979 and ten more digits. */
  lemma Isbn13Exactly(s: string)
    ensures Isbn13(s) <==> |s| == 13 && (s[..3] == "978" || s[..3] == "979") && forall i :: 0 <= i < 13 ==> '0' <= s[i] <= '9'
  {
    if |s| == 13 {
      assert s == s[..3] + s[3..];
      assert forall i :: 3 <= i < 13 ==> s[i] == s[3..][i - 3];
    }
  }

  function Total(widths: seq<int>): int {
    if widths == [] then 0 else widths[0] + Total(widths[1..])
  }

  /** Ten bytes in UTF-8 (section 3 of RFC 3629), so ten characters only if they are ASCII. */
  lemma {:induction false} BytesExactly(s: string, widths: seq<int>)
    requires |widths| == |s|
    requires forall i :: 0 <= i < |s| ==>
               widths[i] == if s[i] < '\U{80}' then 1 else if s[i] < '\U{800}' then 2 else if s[i] < '\U{10000}' then 3 else 4
    ensures Utf8Len(s) == Total(widths) && (TenBytes(s) <==> Total(widths) == 10)
  {
    if s != [] {
      BytesExactly(s[1..], widths[1..]);
    }
  }

  /** The characters of a candidate, without hyphens and spaces, in upper case. */
  lemma PlainExactly(up: char -> char, raw: string) returns (at: seq<int>)
    ensures KeptAt({'-', ' '}, raw, at) && |Plain(up, raw)| == |at|
    ensures forall k :: 0 <= k < |at| ==> Plain(up, raw)[k] == up(raw[at[k]])
  {
    at := KeptPlaces({'-', ' '}, raw);
    UpperAt(up, StripPlain(raw));
  }

  lemma PlainsAppended(up: char -> char, c: seq<string>, d: seq<string>)
    ensures Plains(up, c + d) == Plains(up, c) + Plains(up, d)
  {
  }

  /** Further candidates change nothing once there is an ISBN-13, and further candidates that are none
      change nothing once there is a fallback. */
  lemma PickIsSettled(up: char -> char, c: seq<string>, d: seq<string>, p: string, q: string)
    requires Picked(Plains(up, c), p) && Picked(Plains(up, c + d), q)
    requires Isbn13(p) || (p != "" && forall i :: 0 <= i < |d| ==> !Isbn13(Plain(up, d[i])))
    ensures p == q
  {
    var a, b := Plains(up, c), Plains(up, d);
    PlainsAppended(up, c, d);
    if Isbn13(p) {
      var i :| 0 <= i < |a| && a[i] == p;
      assert (a + b)[i] == p;
      assert !NoneGood(a, Isbn13) && !NoneGood(a + b, Isbn13);
      SameFirst(a, b, Isbn13, p, q);
    } else {
      forall i | 0 <= i < |a + b| ensures !Isbn13((a + b)[i]) {
        if i < |a| { assert (a + b)[i] == a[i]; } else { assert (a + b)[i] == Plain(up, d[i - |a|]); }
      }
      assert NoneGood(a + b, Isbn13);
      assert NoneGood(a, Isbn13) by { assert forall i :: 0 <= i < |a| ==> a[i] == (a + b)[i]; }
      var i :| First(a, TenBytes, i) && p == a[i];
      assert (a + b)[i] == p && !NoneGood(a + b, TenBytes);
      SameFirst(a, b, TenBytes, p, q);
    }
  }

  lemma SameFirst(a: seq<string>, b: seq<string>, good: string -> bool, p: string, q: string)
    requires exists i :: First(a, good, i) && p == a[i]
    requires exists i :: First(a + b, good, i) && q == (a + b)[i]
    ensures p == q
  {
    var i :| First(a, good, i) && p == a[i];
    var j :| First(a + b, good, j) && q == (a + b)[j];
    assert forall k :: 0 <= k < |a| ==> (a + b)[k] == a[k];
  }

  /** A suggested ISBN is either refused at creation or stored under exactly the key suggested,
      never under another; an ISBN-13 is always accepted. The ten-byte fallback is accepted only
      if it happens to have the shape. */
  lemma SuggestionKeepsItsKey(up: char -> char, candidates: seq<string>, p: string)
    requires UpperCasing(up) && Picked(Plains(up, candidates), p)
    ensures Canonical(up, p) == if Shape(p) then Some(p) else None
    ensures (exists i :: 0 <= i < |candidates| && Isbn13(Plain(up, candidates[i]))) ==> Shape(p) && Isbn13(p)
  {
    var q := Plains(up, candidates);
    if Isbn13(p) { Isbn13Shape(p); }
    if i :| 0 <= i < |candidates| && Isbn13(Plain(up, candidates[i])) { assert Isbn13(q[i]); }
    if Shape(p) {
      CanonicalKeys(up, p);
    } else if p == "" {
    } else {
      assert TenBytes(p) && exists i :: 0 <= i < |q| && q[i] == p;
      var i :| 0 <= i < |q| && q[i] == p;
      var isbn := Upper(up, Strip(p));
      if Shape(isbn) {
        Utf8LenAtLeast(p);
        WithoutShortens(SEPARATORS, p);
        UpperAt(up, Strip(p));
        ShapeChars(isbn);
        UpperTwice(up, StripPlain(candidates[i]));
      }
    }
  }

  // ---- the results of a search ----

  datatype Doc = Doc(title: string, authors: seq<string>, year: int, publishers: seq<string>, isbns: seq<string>)

  datatype Hit = Hit(isbn: string, title: string, author: string, publisher: string, year: int)

  /** `hit` is the suggestion made for `doc`. */
  ghost predicate HitFor(up: char -> char, doc: Doc, hit: Hit) {
    && Picked(Plains(up, doc.isbns), hit.isbn)
    && hit.title == doc.title && hit.author == Join(doc.authors, ", ") && hit.year == doc.year
    && hit.publisher == (if doc.publishers == [] then "" else doc.publishers[0])
  }

  /** Whether nothing can be suggested for `doc`. */
  ghost predicate Unusable(up: char -> char, doc: Doc) { Picked(Plains(up, doc.isbns), "") }

  /** The hits answer the documents in order, with the unusable documents left out. */
  ghost predicate Answers(up: char -> char, docs: seq<Doc>, hits: seq<Hit>)
    decreases |docs|
  {
    if docs == [] then hits == []
    else
      var n := |docs| - 1;
      || (Unusable(up, docs[n]) && Answers(up, docs[..n], hits))
      || (hits != [] && hits[|hits| - 1].isbn != "" && HitFor(up, docs[n], hits[|hits| - 1])
          && Answers(up, docs[..n], hits[..|hits| - 1]))
  }

  /** `hit` shows title, year, first publisher and all authors of `doc` under one of its candidates. */
  predicate Shows(up: char -> char, doc: Doc, hit: Hit) {
    && hit.isbn != "" && hit.isbn in Plains(up, doc.isbns)
    && hit.title == doc.title && hit.author == Join(doc.authors, ", ") && hit.year == doc.year
    && hit.publisher == (if |doc.publishers| > 0 then doc.publishers[0] else "")
  }

  /** No candidate of `doc` is an ISBN-13 or ten bytes long. */
  predicate NoCandidate(up: char -> char, doc: Doc) {
    forall c :: c in Plains(up, doc.isbns) ==> !Isbn13(c) && !TenBytes(c)
  }

  lemma PickedOrNot(up: char -> char, doc: Doc, hit: Hit)
    ensures Unusable(up, doc) <==> NoCandidate(up, doc)
    ensures HitFor(up, doc, hit) && hit.isbn != "" ==> Shows(up, doc, hit) && !NoCandidate(up, doc)
  {
  }

  /** `at` says, in order, which document each hit shows; they are the documents with a candidate to suggest. */
  ghost predicate ShownAt(up: char -> char, docs: seq<Doc>, hits: seq<Hit>, at: seq<int>) {
    && |at| == |hits|
    && (forall k :: 0 <= k < |at| ==> 0 <= at[k] < |docs| && Shows(up, docs[at[k]], hits[k]))
    && (forall k, l :: 0 <= k < l < |at| ==> at[k] < at[l])
    && (forall i :: 0 <= i < |docs| ==> (i in at <==> !NoCandidate(up, docs[i])))
  }

  lemma LeftOut(up: char -> char, docs: seq<Doc>, hits: seq<Hit>, at: seq<int>, doc: Doc)
    requires ShownAt(up, docs, hits, at) && NoCandidate(up, doc)
    ensures ShownAt(up, docs + [doc], hits, at)
  {
  }

  lemma ShownNext(up: char -> char, docs: seq<Doc>, hits: seq<Hit>, at: seq<int>, doc: Doc, hit: Hit)
    requires ShownAt(up, docs, hits, at) && Shows(up, doc, hit) && !NoCandidate(up, doc)
    ensures ShownAt(up, docs + [doc], hits + [hit], at + [|docs|])
  {
    var next := at + [|docs|];
    assert next[|at|] == |docs|;
    forall i | 0 <= i < |docs + [doc]| ensures i in next <==> !NoCandidate(up, (docs + [doc])[i]) {
      assert i in next <==> i in at || i == |docs|;
    }
  }

  lemma OneMore(up: char -> char, docs: seq<Doc>, n: nat, hits: seq<Hit>, m: nat, at: seq<int>)
    requires n == |docs| - 1 && m == |hits| - 1 && ShownAt(up, docs[..n], hits[..m], at)
    requires Shows(up, docs[n], hits[m]) && !NoCandidate(up, docs[n])
    ensures ShownAt(up, docs, hits, at + [n])
  {
    ShownNext(up, docs[..n], hits[..m], at, docs[n], hits[m]);
    assert docs == docs[..n] + [docs[n]] && hits == hits[..m] + [hits[m]];
  }

  lemma OneLeftOut(up: char -> char, docs: seq<Doc>, n: nat, hits: seq<Hit>, at: seq<int>)
    requires n == |docs| - 1 && ShownAt(up, docs[..n], hits, at) && NoCandidate(up, docs[n])
    ensures ShownAt(up, docs, hits, at)
  {
    LeftOut(up, docs[..n], hits, at, docs[n]);
    assert docs == docs[..n] + [docs[n]];
  }

  /** The hits show, in order, exactly the documents with a candidate to suggest. */
  lemma {:induction false} AnswersExactly(up: char -> char, docs: seq<Doc>, hits: seq<Hit>) returns (at: seq<int>)
    requires Answers(up, docs, hits)
    ensures ShownAt(up, docs, hits, at)
    decreases |docs|
  {
    if docs == [] { return []; }
    var n := |docs| - 1;
    if Unusable(up, docs[n]) && Answers(up, docs[..n], hits) {
      at := AnswersExactly(up, docs[..n], hits);
      PickedOrNot(up, docs[n], Hit("", "", "", "", 0));
      OneLeftOut(up, docs, n, hits, at);
    } else {
      var m := |hits| - 1;
      at := AnswersExactly(up, docs[..n], hits[..m]);
      PickedOrNot(up, docs[n], hits[m]);
      OneMore(up, docs, n, hits, m, at);
      at := at + [n];
    }
  }

  method Suggest(up: char -> char, docs: seq<Doc>) returns (hits: seq<Hit>)
    ensures Answers(up, docs, hits)
    ensures forall i :: 0 <= i < |hits| ==> hits[i].isbn != ""
  {
    hits := [];
    for n := 0 to |docs|
      invariant Answers(up, docs[..n], hits)
      invariant forall i :: 0 <= i < |hits| ==> hits[i].isbn != ""
    {
      var doc := docs[n];
      assert docs[..n + 1][..n] == docs[..n] && docs[..n + 1][n] == doc;
      var isbn := PickISBN(up, doc.isbns);
      if isbn == "" {
        continue;
      }
      var hit := Hit(isbn, doc.title, Join(doc.authors, ", "), "", doc.year);
      if |doc.publishers| > 0 {
        hit := hit.(publisher := doc.publishers[0]);
      }
      assert (hits + [hit])[..|hits|] == hits;
      hits := hits + [hit];
    }
    assert docs[..|docs|] == docs;
  }
}
