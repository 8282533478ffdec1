/** strings.Join */
module Text {

  function Join(words: seq<string>, sep: string): string {
    if words == [] then ""
    else if |words| == 1 then words[0]
    else words[0] + sep + Join(words[1..], sep)
  }

  /** One more word at the end comes after one more separator, whatever the separator. */
  lemma {:induction false} JoinAppended(words: seq<string>, sep: string, last: string)
    ensures Join(words + [last], sep) == if words == [] then last else Join(words, sep) + sep + last
  {
    if words == [] {
      assert words + [last] == [last];
    } else {
      assert (words + [last])[0] == words[0] && (words + [last])[1..] == words[1..] + [last];
      JoinAppended(words[1..], sep, last);
    }
  }

  lemma JoinFew(a: string, b: string, c: string, sep: string)
    ensures Join([], sep) == "" && Join([a], sep) == a && Join([a, b], sep) == a + sep + b
    ensures Join([a, b, c], sep) == a + sep + b + sep + c
  {
    assert [a, b] == [a] + [b] && [a, b, c] == [a, b] + [c];
    JoinAppended([a], sep, b);
    JoinAppended([a, b], sep, c);
  }
}
