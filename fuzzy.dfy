/**
 * How the libraries pick a candidate once the scores are known. The scores
 * themselves (difflib's `SequenceMatcher.ratio`, fuzzywuzzy's `token_sort_ratio`)
 * are foreign code and stay abstract: each is a function parameter.
 */
module Fuzzy {
  import opened Common

  /** Python's `<` on strings: lexicographic by code point. */
  predicate StrLess(a: string, b: string)
    decreases |a|
  {
    if a == [] then b != []
    else if b == [] then false
    else if a[0] != b[0] then a[0] < b[0]
    else StrLess(a[1..], b[1..])
  }

  lemma {:induction false} StrLessTransitive(a: string, b: string, c: string)
    requires StrLess(a, b) && StrLess(b, c)
    ensures StrLess(a, c)
    decreases |a|
  {
    if a != [] && b != [] && c != [] && a[0] == b[0] && b[0] == c[0] {
      StrLessTransitive(a[1..], b[1..], c[1..]);
    }
  }

  lemma {:induction false} StrLessTotal(a: string, b: string)
    requires a != b
    ensures StrLess(a, b) || StrLess(b, a)
    decreases |a|
  {
    if a != [] && b != [] && a[0] == b[0] {
      assert a == [a[0]] + a[1..] && b == [b[0]] + b[1..];
      StrLessTotal(a[1..], b[1..]);
    }
  }

  lemma {:induction false} StrLessIrreflexive(a: string)
    ensures !StrLess(a, a)
    decreases |a|
  {
    if a != [] { StrLessIrreflexive(a[1..]); }
  }

  /** The pair (score, text) of x is at least that of y in Python's tuple order. */
  predicate AtLeast(sx: real, x: string, sy: real, y: string)
  {
    sx > sy || (sx == sy && !StrLess(x, y))
  }

  /** `difflib.get_close_matches(word, possibilities, n=1, cutoff)`, as its one
      result or None. Every candidate with `ratio(x, word) >= cutoff` is
      collected as the tuple (score, x) and `heapq.nlargest(1, ...)` keeps the
      largest tuple, so among equal scores the greatest string wins. The
      `real_quick_ratio` and `quick_ratio` filters are upper bounds of `ratio`
      and drop nothing that `ratio` keeps. */
  function CloseMatch(word: string, possibilities: seq<string>, cutoff: real,
                      ratio: (string, string) -> real): (r: Option<string>)
    ensures r.Some? ==> r.value in possibilities && ratio(r.value, word) >= cutoff
    ensures r.Some? ==> forall y :: y in possibilities && ratio(y, word) >= cutoff ==>
              AtLeast(ratio(r.value, word), r.value, ratio(y, word), y)
    ensures r.None? <==> forall y :: y in possibilities ==> ratio(y, word) < cutoff
  {
    if possibilities == [] then None
    else
      var x := possibilities[0];
      var rest := CloseMatch(word, possibilities[1..], cutoff, ratio);
      assert forall y :: y in possibilities ==> y == x || y in possibilities[1..];
      if ratio(x, word) < cutoff then rest
      else match rest
        case None => StrLessIrreflexive(x); Some(x)
        case Some(y) =>
          var sx, sy := ratio(x, word), ratio(y, word);
          if sx > sy || (sx == sy && StrLess(y, x)) then
            CloseMatchKeepsMax(word, possibilities[1..], cutoff, ratio, x, y);
            StrLessIrreflexive(x);
            Some(x)
          else Some(y)
  }

  /** If x beats the best of the others, x beats every candidate. */
  lemma CloseMatchKeepsMax(word: string, ps: seq<string>, cutoff: real,
                           ratio: (string, string) -> real, x: string, y: string)
    requires forall z :: z in ps && ratio(z, word) >= cutoff ==> AtLeast(ratio(y, word), y, ratio(z, word), z)
    requires ratio(x, word) > ratio(y, word) || (ratio(x, word) == ratio(y, word) && StrLess(y, x))
    ensures forall z :: z in ps && ratio(z, word) >= cutoff ==> AtLeast(ratio(x, word), x, ratio(z, word), z)
  {
    forall z | z in ps && ratio(z, word) >= cutoff
      ensures AtLeast(ratio(x, word), x, ratio(z, word), z)
    {
      if ratio(x, word) == ratio(z, word) && StrLess(x, z) {
        StrLessTransitive(y, x, z);
        assert false;
      }
    }
  }

  /** `process.extractOne(query, choices, scorer)` with scores in 0..100: the
      index of the FIRST choice with the greatest score (Python's `max`). */
  function ExtractOne(query: string, choices: seq<string>, score: (string, string) -> nat): (i: nat)
    requires choices != []
    ensures i < |choices|
    ensures forall j :: 0 <= j < |choices| ==> score(query, choices[j]) <= score(query, choices[i])
    ensures forall j :: 0 <= j < i ==> score(query, choices[j]) < score(query, choices[i])
  {
    if |choices| == 1 then 0
    else
      var front := choices[..|choices| - 1];
      var j := ExtractOne(query, front, score);
      assert forall k :: 0 <= k < |front| ==> choices[k] == front[k];
      if score(query, choices[|choices| - 1]) > score(query, choices[j]) then |choices| - 1 else j
  }
}
