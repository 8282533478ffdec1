/** The key of a cached search: case and spacing folded away, the limit appended after a NUL. */
module CacheKeys {
  import opened Order
  import opened Text

  /** What is used of Go's ToLower and IsSpace. */
  ghost predicate Folding(lower: char -> char, space: char -> bool) {
    && space(' ')
    && (forall c :: lower(lower(c)) == lower(c))
    && (forall c :: space(c) ==> lower(c) == c)
    && (forall c :: !space(c) ==> !space(lower(c)))
  }

  function Lower(lower: char -> char, s: string): string {
    if s == [] then [] else [lower(s[0])] + Lower(lower, s[1..])
  }

  function SkipSpace(space: char -> bool, s: string): (r: string)
    ensures |r| <= |s| && (r == [] || !space(r[0]))
  {
    if s == [] || !space(s[0]) then s else SkipSpace(space, s[1..])
  }

  function WordLength(space: char -> bool, s: string): (n: nat)
    ensures n <= |s| && (n == |s| || space(s[n])) && forall i :: 0 <= i < n ==> !space(s[i])
  {
    if s == [] || space(s[0]) then 0 else 1 + WordLength(space, s[1..])
  }

  /** strings.Fields */
  function Fields(space: char -> bool, s: string): seq<string>
    decreases |s|
  {
    var r := SkipSpace(space, s);
    if r == [] then []
    else
      var n := WordLength(space, r);
      [r[..n]] + Fields(space, r[n..])
  }

  function Fold(lower: char -> char, space: char -> bool, query: string): string {
    Lower(lower, Join(Fields(space, query), " "))
  }

  function Digits(n: nat): string {
    if n < 10 then [(n + '0' as int) as char] else Digits(n / 10) + [(n % 10 + '0' as int) as char]
  }

  /** strconv.Itoa */
  function Itoa(n: int): string { if n < 0 then "-" + Digits(-n) else Digits(n) }

  const NUL: char := '\U{0}'

  function Key(lower: char -> char, space: char -> bool, query: string, limit: int): (k: string)
    ensures k != ""
  {
    Fold(lower, space, query) + [NUL] + Itoa(limit)
  }

  // ---- the limit ----

  lemma {:induction false} DigitsPlain(n: nat)
    ensures Digits(n) != "" && forall i :: 0 <= i < |Digits(n)| ==> '0' <= Digits(n)[i] <= '9'
  {
    if n >= 10 { DigitsPlain(n / 10); }
  }

  lemma {:induction false} DigitsInjective(m: nat, n: nat)
    requires Digits(m) == Digits(n)
    ensures m == n
  {
    var a, b := Digits(m), Digits(n);
    if m >= 10 { DigitsPlain(m / 10); }
    if n >= 10 { DigitsPlain(n / 10); }
    assert a[|a| - 1] == b[|b| - 1];
    if m >= 10 && n >= 10 {
      assert a[..|a| - 1] == Digits(m / 10) && b[..|b| - 1] == Digits(n / 10);
      DigitsInjective(m / 10, n / 10);
    }
  }

  lemma ItoaExact(m: int, n: int)
    ensures NUL !in Itoa(m)
    ensures Itoa(m) == Itoa(n) ==> m == n
  {
    var a, b: nat := if m < 0 then -m else m, if n < 0 then -n else n;
    DigitsPlain(a);
    DigitsPlain(b);
    assert (Itoa(m)[0] == '-' <==> m < 0) && (Itoa(n)[0] == '-' <==> n < 0);
    if Itoa(m) == Itoa(n) {
      if m < 0 {
        assert Itoa(m)[1..] == Digits(a) && Itoa(n)[1..] == Digits(b);
      }
      DigitsInjective(a, b);
    }
  }

  lemma AfterNul(a: string, x: string)
    requires NUL !in x
    ensures var s := a + [NUL] + x;
            s[|a|] == NUL && s[..|a|] == a && s[|a| + 1..] == x && forall i :: |a| < i < |s| ==> s[i] != NUL
  {
  }

  /** A text is cut in one way only at its last NUL. */
  lemma LastNul(a: string, x: string, b: string, y: string)
    requires a + [NUL] + x == b + [NUL] + y && NUL !in x && NUL !in y
    ensures a == b && x == y
  {
    AfterNul(a, x);
    AfterNul(b, y);
  }

  /** The limit never gets mixed up with the query, whatever characters the query contains. */
  lemma KeyParts(lower: char -> char, space: char -> bool, q: string, m: int, r: string, n: int)
    ensures Key(lower, space, q, m) == Key(lower, space, r, n)
       <==> Fold(lower, space, q) == Fold(lower, space, r) && m == n
  {
    ItoaExact(m, n);
    ItoaExact(n, m);
    if Key(lower, space, q, m) == Key(lower, space, r, n) {
      LastNul(Fold(lower, space, q), Itoa(m), Fold(lower, space, r), Itoa(n));
    }
  }

  // ---- folding ----

  predicate Word(space: char -> bool, w: string) {
    w != "" && forall i :: 0 <= i < |w| ==> !space(w[i])
  }

  predicate Words(space: char -> bool, ws: seq<string>) {
    forall i :: 0 <= i < |ws| ==> Word(space, ws[i])
  }

  lemma {:induction false} FieldsAreWords(space: char -> bool, s: string)
    ensures Words(space, Fields(space, s))
    decreases |s|
  {
    var r := SkipSpace(space, s);
    if r != [] {
      var n := WordLength(space, r);
      FieldsAreWords(space, r[n..]);
    }
  }

  lemma {:induction false} WordLengthOf(space: char -> bool, w: string, rest: string)
    requires forall i :: 0 <= i < |w| ==> !space(w[i])
    requires rest == [] || space(rest[0])
    ensures WordLength(space, w + rest) == |w|
  {
    if w == [] {
      assert w + rest == rest;
    } else {
      assert (w + rest)[1..] == w[1..] + rest;
      WordLengthOf(space, w[1..], rest);
    }
  }

  /** The first word of a text, when white space or the end follows it. */
  lemma FieldsHead(space: char -> bool, w: string, rest: string)
    requires Word(space, w) && (rest == "" || space(rest[0]))
    ensures Fields(space, w + rest) == [w] + Fields(space, rest)
  {
    var s := w + rest;
    WordLengthOf(space, w, rest);
    assert SkipSpace(space, s) == s;
    assert s[..|w|] == w && s[|w|..] == rest;
  }

  predicate Blank(space: char -> bool, s: string) {
    forall i :: 0 <= i < |s| ==> space(s[i])
  }

  lemma {:induction false} SkipPrefix(space: char -> bool, a: string, s: string)
    requires Blank(space, a)
    ensures SkipSpace(space, a + s) == SkipSpace(space, s)
  {
    ConsConcat(a, s);
    if a != [] { SkipPrefix(space, a[1..], s); }
  }

  lemma FieldsAfterBlank(space: char -> bool, a: string, s: string)
    requires Blank(space, a)
    ensures Fields(space, a + s) == Fields(space, s)
  {
    SkipPrefix(space, a, s);
  }

  lemma JoinHead(ws: seq<string>)
    requires ws != []
    ensures Join(ws, " ") == ws[0] + if |ws| == 1 then "" else " " + Join(ws[1..], " ")
  {
  }

  /** Splitting undoes joining. */
  lemma {:induction false} FieldsOfJoin(space: char -> bool, ws: seq<string>)
    requires space(' ') && Words(space, ws)
    ensures Fields(space, Join(ws, " ")) == ws
    decreases ws
  {
    if ws != [] {
      var tail := ws[1..];
      assert Word(space, ws[0]) && ws == [ws[0]] + tail;
      JoinHead(ws);
      if tail == [] {
        FieldsHead(space, ws[0], "");
      } else {
        FieldsHead(space, ws[0], " " + Join(tail, " "));
        FieldsAfterBlank(space, " ", Join(tail, " "));
        FieldsOfJoin(space, tail);
      }
    }
  }

  function LowerAll(lower: char -> char, ws: seq<string>): seq<string> {
    if ws == [] then [] else [Lower(lower, ws[0])] + LowerAll(lower, ws[1..])
  }

  lemma {:induction false} LowerConcat(lower: char -> char, a: string, b: string)
    ensures Lower(lower, a + b) == Lower(lower, a) + Lower(lower, b)
  {
    ConsConcat(a, b);
    if a != [] { LowerConcat(lower, a[1..], b); }
  }

  lemma {:induction false} LowerJoin(lower: char -> char, ws: seq<string>)
    requires lower(' ') == ' '
    ensures Lower(lower, Join(ws, " ")) == Join(LowerAll(lower, ws), " ") && |LowerAll(lower, ws)| == |ws|
  {
    if ws != [] {
      LowerJoin(lower, ws[1..]);
      if |ws| > 1 {
        LowerConcat(lower, ws[0] + " ", Join(ws[1..], " "));
        LowerConcat(lower, ws[0], " ");
        assert Lower(lower, " ") == " ";
      }
    }
  }

  lemma {:induction false} LowerTwice(lower: char -> char, space: char -> bool, s: string)
    requires Folding(lower, space)
    ensures Lower(lower, Lower(lower, s)) == Lower(lower, s) && |Lower(lower, s)| == |s|
    ensures forall i :: 0 <= i < |s| ==> Lower(lower, s)[i] == lower(s[i])
  {
    if s != [] { LowerTwice(lower, space, s[1..]); }
  }

  lemma {:induction false} LowerAllWords(lower: char -> char, space: char -> bool, ws: seq<string>)
    requires Folding(lower, space) && Words(space, ws)
    ensures Words(space, LowerAll(lower, ws))
    ensures LowerAll(lower, LowerAll(lower, ws)) == LowerAll(lower, ws)
  {
    if ws != [] {
      assert Word(space, ws[0]);
      LowerTwice(lower, space, ws[0]);
      assert Word(space, Lower(lower, ws[0]));
      LowerAllWords(lower, space, ws[1..]);
    }
  }

  /** Folding a folded query changes nothing. */
  lemma FoldIdempotent(lower: char -> char, space: char -> bool, q: string)
    requires Folding(lower, space)
    ensures Fold(lower, space, Fold(lower, space, q)) == Fold(lower, space, q)
  {
    var ws := Fields(space, q);
    FieldsAreWords(space, q);
    LowerJoin(lower, ws);
    LowerAllWords(lower, space, ws);
    FieldsOfJoin(space, LowerAll(lower, ws));
    LowerJoin(lower, LowerAll(lower, ws));
  }

  lemma {:induction false} SkipAppend(space: char -> bool, s: string, b: string)
    requires forall i :: 0 <= i < |b| ==> space(b[i])
    ensures SkipSpace(space, s + b) == if SkipSpace(space, s) == [] then [] else SkipSpace(space, s) + b
  {
    if s == [] {
      assert s + b == b + [] && b + [] == b;
      SkipPrefix(space, b, []);
    } else {
      assert (s + b)[1..] == s[1..] + b;
      SkipAppend(space, s[1..], b);
    }
  }

  // ---- what the fields of a text are ----

  /** gap word gap word ... gap */
  function Spelled(gaps: seq<string>, ws: seq<string>): string
    requires |gaps| == |ws| + 1
  {
    if ws == [] then gaps[0] else gaps[0] + ws[0] + Spelled(gaps[1..], ws[1..])
  }

  /** `s` consists of the words `ws`, kept apart by non-empty white space and possibly surrounded by some. */
  predicate Spells(space: char -> bool, s: string, gaps: seq<string>, ws: seq<string>) {
    && |gaps| == |ws| + 1 && s == Spelled(gaps, ws) && Words(space, ws)
    && (forall i :: 0 <= i < |gaps| ==> Blank(space, gaps[i]))
    && (forall i :: 0 < i < |ws| ==> gaps[i] != "")
  }

  lemma SpellsTail(space: char -> bool, s: string, gaps: seq<string>, ws: seq<string>)
    requires Spells(space, s, gaps, ws) && ws != []
    ensures Spells(space, Spelled(gaps[1..], ws[1..]), gaps[1..], ws[1..])
    ensures var rest := Spelled(gaps[1..], ws[1..]); rest == "" || space(rest[0])
    ensures Word(space, ws[0]) && Blank(space, gaps[0])
  {
    var rest := Spelled(gaps[1..], ws[1..]);
    assert Blank(space, gaps[1]);
    if rest != "" { assert rest[0] == gaps[1][0]; }
  }

  /** The fields of a text are its words. */
  lemma {:induction false} FieldsAreItsWords(space: char -> bool, s: string, gaps: seq<string>, ws: seq<string>)
    requires Spells(space, s, gaps, ws)
    ensures Fields(space, s) == ws
    decreases ws
  {
    if ws == [] {
      FieldsAfterBlank(space, s, "");
      assert s + "" == s;
    } else {
      var w, rest := ws[0], Spelled(gaps[1..], ws[1..]);
      SpellsTail(space, s, gaps, ws);
      assert s == gaps[0] + (w + rest);
      FieldsAfterBlank(space, gaps[0], w + rest);
      FieldsHead(space, w, rest);
      FieldsAreItsWords(space, rest, gaps[1..], ws[1..]);
      assert ws == [w] + ws[1..];
    }
  }

  /** A text that starts with white space has a first gap. */
  lemma FirstGap(space: char -> bool, s: string, gaps: seq<string>, ws: seq<string>)
    requires Spells(space, s, gaps, ws) && ws != [] && s != "" && space(s[0])
    ensures gaps[0] != ""
  {
    SpellsTail(space, s, gaps, ws);
    HeadOf(gaps[0], ws[0], Spelled(gaps[1..], ws[1..]));
  }

  lemma HeadOf(gap: string, w: string, rest: string)
    requires w != ""
    ensures gap == "" ==> (gap + w + rest)[0] == w[0]
  {
  }

  lemma SpellsCons(space: char -> bool, gap: string, w: string, rest: string, gaps: seq<string>, ws: seq<string>)
    requires Spells(space, rest, gaps, ws) && Blank(space, gap) && Word(space, w) && (rest == "" || space(rest[0]))
    ensures Spells(space, gap + w + rest, [gap] + gaps, [w] + ws)
  {
    var g, v := [gap] + gaps, [w] + ws;
    assert g[1..] == gaps && v[1..] == ws;
    if ws != [] {
      SpellsTail(space, rest, gaps, ws);
      if rest != "" { FirstGap(space, rest, gaps, ws); }
    }
  }

  lemma SpellsFirst(space: char -> bool, s: string, gap: string, r: string, n: nat, gaps: seq<string>, ws: seq<string>)
    requires s == gap + r && Blank(space, gap) && 0 < n <= |r| && Word(space, r[..n]) && (n == |r| || space(r[n]))
    requires Spells(space, r[n..], gaps, ws)
    ensures Spells(space, s, [gap] + gaps, [r[..n]] + ws)
  {
    SpellsCons(space, gap, r[..n], r[n..], gaps, ws);
    assert s == gap + r[..n] + r[n..];
  }

  /** Every text can be read that way. */
  lemma {:induction false} EveryTextSpells(space: char -> bool, s: string) returns (gaps: seq<string>, ws: seq<string>)
    ensures Spells(space, s, gaps, ws)
    decreases |s|
  {
    var gap := SkipSplits(space, s);
    var r := SkipSpace(space, s);
    if r == "" {
      gaps, ws := [gap], [];
    } else {
      var n := WordLength(space, r);
      gaps, ws := EveryTextSpells(space, r[n..]);
      SpellsFirst(space, s, gap, r, n, gaps, ws);
      gaps, ws := [gap] + gaps, [r[..n]] + ws;
    }
  }

  /** Equal but for case. */
  predicate SameButCase(lower: char -> char, v: string, w: string) {
    |v| == |w| && forall i :: 0 <= i < |v| ==> lower(v[i]) == lower(w[i])
  }

  lemma {:induction false} LowerAllAt(lower: char -> char, ws: seq<string>)
    ensures |LowerAll(lower, ws)| == |ws|
    ensures forall i :: 0 <= i < |ws| ==> LowerAll(lower, ws)[i] == Lower(lower, ws[i])
  {
    if ws != [] { LowerAllAt(lower, ws[1..]); }
  }

  lemma LowerSame(lower: char -> char, space: char -> bool, v: string, w: string)
    requires Folding(lower, space)
    ensures Lower(lower, v) == Lower(lower, w) <==> SameButCase(lower, v, w)
  {
    LowerTwice(lower, space, v);
    LowerTwice(lower, space, w);
    if Lower(lower, v) == Lower(lower, w) {
      forall i | 0 <= i < |v| ensures lower(v[i]) == lower(w[i]) {
        assert Lower(lower, v)[i] == Lower(lower, w)[i];
      }
    }
  }

  /** A folded query consists of its words in lower case. */
  lemma FoldIsWords(lower: char -> char, space: char -> bool, q: string)
    requires Folding(lower, space)
    ensures Fields(space, Fold(lower, space, q)) == LowerAll(lower, Fields(space, q))
    ensures Fold(lower, space, q) == Join(LowerAll(lower, Fields(space, q)), " ")
  {
    FieldsAreWords(space, q);
    LowerJoin(lower, Fields(space, q));
    LowerAllWords(lower, space, Fields(space, q));
    FieldsOfJoin(space, LowerAll(lower, Fields(space, q)));
  }

  lemma SameWords(lower: char -> char, space: char -> bool, v: seq<string>, w: seq<string>)
    requires Folding(lower, space)
    ensures LowerAll(lower, v) == LowerAll(lower, w)
       <==> |v| == |w| && forall k :: 0 <= k < |v| ==> SameButCase(lower, v[k], w[k])
  {
    LowerAllAt(lower, v);
    LowerAllAt(lower, w);
    forall k | 0 <= k < |v| && k < |w|
      ensures LowerAll(lower, v)[k] == LowerAll(lower, w)[k] <==> SameButCase(lower, v[k], w[k])
    {
      LowerSame(lower, space, v[k], w[k]);
    }
  }

  /** Two searches share a key if and only if their limits are equal and their queries consist of the
      same words in the same order, up to case and spacing, whatever characters they contain. */
  lemma KeysAreExact(lower: char -> char, space: char -> bool, q: string, m: int, r: string, n: int,
                     g: seq<string>, v: seq<string>, h: seq<string>, w: seq<string>)
    requires Folding(lower, space) && Spells(space, q, g, v) && Spells(space, r, h, w)
    ensures Key(lower, space, q, m) == Key(lower, space, r, n)
       <==> m == n && |v| == |w| && forall k :: 0 <= k < |v| ==> SameButCase(lower, v[k], w[k])
  {
    KeyParts(lower, space, q, m, r, n);
    FieldsAreItsWords(space, q, g, v);
    FieldsAreItsWords(space, r, h, w);
    FoldIsWords(lower, space, q);
    FoldIsWords(lower, space, r);
    SameWords(lower, space, v, w);
  }

  lemma {:induction false} FieldsAppend(space: char -> bool, s: string, b: string)
    requires forall i :: 0 <= i < |b| ==> space(b[i])
    ensures Fields(space, s + b) == Fields(space, s)
    decreases |s|
  {
    SkipAppend(space, s, b);
    var r := SkipSpace(space, s);
    if r != [] {
      var n := WordLength(space, r);
      assert r + b == r[..n] + (r[n..] + b);
      WordLengthOf(space, r[..n], r[n..] + b);
      assert (r + b)[..n] == r[..n] && (r + b)[n..] == r[n..] + b;
      FieldsAppend(space, r[n..], b);
    }
  }

  /** White space around a query never makes a different key, so the handler's trimming is absorbed. */
  lemma SurroundingSpaceIgnored(lower: char -> char, space: char -> bool, a: string, q: string, b: string, limit: int)
    requires forall i :: 0 <= i < |a| ==> space(a[i])
    requires forall i :: 0 <= i < |b| ==> space(b[i])
    ensures Key(lower, space, a + q + b, limit) == Key(lower, space, q, limit)
  {
    FieldsAppend(space, a + q, b);
    SkipPrefix(space, a, q);
  }

  function TrimRight(space: char -> bool, s: string): string {
    if s == [] || !space(s[|s| - 1]) then s else TrimRight(space, s[..|s| - 1])
  }

  /** strings.TrimSpace */
  function TrimSpace(space: char -> bool, s: string): string {
    TrimRight(space, SkipSpace(space, s))
  }

  lemma {:induction false} SkipSplits(space: char -> bool, s: string) returns (a: string)
    ensures s == a + SkipSpace(space, s) && Blank(space, a)
  {
    if s == [] || !space(s[0]) { return ""; }
    a := SkipSplits(space, s[1..]);
    a := [s[0]] + a;
  }

  lemma {:induction false} TrimRightSplits(space: char -> bool, s: string) returns (b: string)
    ensures s == TrimRight(space, s) + b && Blank(space, b)
  {
    if s == [] || !space(s[|s| - 1]) { return ""; }
    b := TrimRightSplits(space, s[..|s| - 1]);
    b := b + [s[|s| - 1]];
  }

  /** Trimming takes white space off both ends, all of it, and nothing else. */
  lemma TrimIsExact(space: char -> bool, q: string) returns (a: string, b: string)
    ensures q == a + TrimSpace(space, q) + b && Blank(space, a) && Blank(space, b)
    ensures var t := TrimSpace(space, q); t != "" ==> !space(t[0]) && !space(t[|t| - 1])
  {
    a := SkipSplits(space, q);
    b := TrimRightSplits(space, SkipSpace(space, q));
    TrimRightEnds(space, SkipSpace(space, q));
  }

  lemma {:induction false} TrimRightEnds(space: char -> bool, s: string)
    ensures var t := TrimRight(space, s);
            t != "" ==> s != "" && !space(t[|t| - 1]) && t[0] == s[0]
  {
    if s != [] && space(s[|s| - 1]) { TrimRightEnds(space, s[..|s| - 1]); }
  }

  /** The endpoint's own trimming does not change the key. */
  lemma TrimAbsorbed(lower: char -> char, space: char -> bool, q: string, limit: int)
    ensures Key(lower, space, TrimSpace(space, q), limit) == Key(lower, space, q, limit)
  {
    var a := SkipSplits(space, q);
    var b := TrimRightSplits(space, SkipSpace(space, q));
    assert q == a + TrimSpace(space, q) + b;
    SurroundingSpaceIgnored(lower, space, a, TrimSpace(space, q), b, limit);
  }
}
