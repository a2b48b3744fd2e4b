/**
 * ASCII text primitives matching Python's `str` methods and the `\w` / `\s`
 * regular-expression classes, restricted to ASCII input.
 */
module Text {

  predicate IsUpper(c: char) { 'A' <= c <= 'Z' }

  predicate IsDigit(c: char) { '0' <= c <= '9' }

  /** Python's `\w` on ASCII: letters, digits and underscore. */
  predicate IsWordChar(c: char) { 'a' <= c <= 'z' || IsUpper(c) || IsDigit(c) || c == '_' }

  /** Python's `\s` (and `str.isspace`) on ASCII: space, \t \n \v \f \r and the separators 0x1c-0x1f. */
  predicate IsSpace(c: char) { c == ' ' || 9 <= c as int <= 13 || 28 <= c as int <= 31 }

  function LowerChar(c: char): (r: char)
    ensures !IsUpper(r)
    ensures IsWordChar(r) <==> IsWordChar(c)
    ensures IsSpace(r) <==> IsSpace(c)
    ensures !IsUpper(c) ==> r == c
  {
    if IsUpper(c) then (c as int + 32) as char else c
  }

  /** `str.lower()` on ASCII text. */
  function Lower(s: string): (r: string)
    ensures |r| == |s|
    ensures forall i :: 0 <= i < |s| ==> r[i] == LowerChar(s[i])
  {
    seq(|s|, i requires 0 <= i < |s| => LowerChar(s[i]))
  }

  predicate HasNoUpper(s: string) { forall i :: 0 <= i < |s| ==> !IsUpper(s[i]) }

  /** Lowering is the identity on text without capitals, hence idempotent. */
  lemma LowerIdentity(s: string)
    requires HasNoUpper(s)
    ensures Lower(s) == s
  {
  }

  predicate AllSpace(s: string) { forall i :: 0 <= i < |s| ==> IsSpace(s[i]) }

  /** Number of whitespace characters at the front of `s`. */
  function LeadingSpaces(s: string): (k: nat)
    ensures k <= |s|
    ensures forall i :: 0 <= i < k ==> IsSpace(s[i])
    ensures k < |s| ==> !IsSpace(s[k])
  {
    if s == [] || !IsSpace(s[0]) then 0 else 1 + LeadingSpaces(s[1..])
  }

  /** Length of `s` once its trailing whitespace is cut off. */
  function TrailingStart(s: string): (k: nat)
    ensures k <= |s|
    ensures forall i :: k <= i < |s| ==> IsSpace(s[i])
    ensures 0 < k ==> !IsSpace(s[k - 1])
  {
    if s == [] || !IsSpace(s[|s| - 1]) then |s| else TrailingStart(s[..|s| - 1])
  }

  /** No whitespace at either end. */
  predicate IsStripped(s: string) { s != [] ==> !IsSpace(s[0]) && !IsSpace(s[|s| - 1]) }

  /** `str.lstrip()` */
  function LStrip(s: string): string { s[LeadingSpaces(s)..] }

  /** `str.rstrip()` */
  function RStrip(s: string): string { s[..TrailingStart(s)] }

  /** `str.strip()` */
  function Strip(s: string): (r: string)
    ensures IsStripped(r)
    ensures r == [] <==> AllSpace(s)
  {
    var a := LeadingSpaces(s);
    if a == |s| then [] else s[a..TrailingStart(s)]
  }

  /** Strip keeps a non-space last character. */
  lemma StripKeepsLast(s: string)
    requires s != [] && !IsSpace(s[|s| - 1])
    ensures Strip(s) != [] && Strip(s)[|Strip(s)| - 1] == s[|s| - 1]
  {
    assert TrailingStart(s) == |s|;
  }

  lemma StripIdentity(s: string)
    requires IsStripped(s)
    ensures Strip(s) == s && RStrip(s) == s && LStrip(s) == s
  {
  }

  lemma RStripOfStripped(s: string)
    ensures RStrip(Strip(s)) == Strip(s)
  {
    StripIdentity(Strip(s));
  }

  /** Length of the run of word characters at the front of `s`. */
  function WordRun(s: string): (k: nat)
    ensures k <= |s|
    ensures forall i :: 0 <= i < k ==> IsWordChar(s[i])
    ensures k < |s| ==> !IsWordChar(s[k])
  {
    if s == [] || !IsWordChar(s[0]) then 0 else 1 + WordRun(s[1..])
  }

  /** `re.findall(r"\b\w+\b", s)`: the maximal runs of word characters, left to right. */
  function Words(s: string): (ws: seq<string>)
    ensures forall k :: 0 <= k < |ws| ==> ws[k] != [] && forall i :: 0 <= i < |ws[k]| ==> IsWordChar(ws[k][i])
    decreases |s|
  {
    if s == [] then []
    else if !IsWordChar(s[0]) then Words(s[1..])
    else var k := WordRun(s); [s[..k]] + Words(s[k..])
  }

  /** A word followed by nothing or by a non-word character splits off as the first token. */
  lemma WordsPrefix(w: string, t: string)
    requires w != [] && forall i :: 0 <= i < |w| ==> IsWordChar(w[i])
    requires t == [] || !IsWordChar(t[0])
    ensures Words(w + t) == [w] + Words(t)
  {
    WordRunExact(w, t);
    assert (w + t)[..|w|] == w;
    assert (w + t)[|w|..] == t;
  }

  /** Non-word characters in front contribute no token. */
  lemma {:induction false} WordsAfterNonWord(p: string, t: string)
    requires forall i :: 0 <= i < |p| ==> !IsWordChar(p[i])
    ensures Words(p + t) == Words(t)
    decreases |p|
  {
    if p != [] {
      assert (p + t)[1..] == p[1..] + t;
      WordsAfterNonWord(p[1..], t);
    } else {
      assert p + t == t;
    }
  }

  /** A run of word characters cannot reach past a non-word character. */
  lemma {:induction false} WordRunBefore(s: string, t: string)
    requires t == [] || !IsWordChar(t[0])
    ensures WordRun(s + t) == WordRun(s)
    decreases |s|
  {
    if s == [] {
      assert s + t == t;
    } else if IsWordChar(s[0]) {
      assert (s + t)[1..] == s[1..] + t;
      WordRunBefore(s[1..], t);
    }
  }

  /** Non-word characters at the end contribute no token. */
  lemma {:induction false} WordsBeforeNonWord(s: string, t: string)
    requires forall i :: 0 <= i < |t| ==> !IsWordChar(t[i])
    ensures Words(s + t) == Words(s)
    decreases |s|
  {
    if s == [] {
      assert s + t == t + [];
      WordsAfterNonWord(t, []);
    } else if !IsWordChar(s[0]) {
      assert (s + t)[1..] == s[1..] + t;
      WordsBeforeNonWord(s[1..], t);
    } else {
      var k := WordRun(s);
      WordRunBefore(s, t);
      assert (s + t)[..k] == s[..k];
      assert (s + t)[k..] == s[k..] + t;
      WordsBeforeNonWord(s[k..], t);
    }
  }

  /** Non-word characters on either side contribute no token. */
  lemma WordsTrim(front: string, core: string, back: string)
    requires forall i :: 0 <= i < |front| ==> !IsWordChar(front[i])
    requires forall i :: 0 <= i < |back| ==> !IsWordChar(back[i])
    ensures Words(front + core + back) == Words(core)
  {
    assert front + core + back == front + (core + back);
    WordsAfterNonWord(front, core + back);
    WordsBeforeNonWord(core, back);
  }

  /** Stripping changes no token. */
  lemma WordsStrip(s: string)
    ensures Words(Strip(s)) == Words(s)
  {
    var a := LeadingSpaces(s);
    if a == |s| {
      assert s == s + [];
      WordsAfterNonWord(s, []);
    } else {
      var b := TrailingStart(s);
      assert a < b by { assert !IsSpace(s[a]); }
      var front, core, back := s[..a], s[a..b], s[b..];
      assert s == front + core + back;
      WordsTrim(front, core, back);
    }
  }

  /** The words of text without capitals have no capitals. */
  lemma {:induction false} WordsNoUpper(s: string)
    requires HasNoUpper(s)
    ensures forall k :: 0 <= k < |Words(s)| ==> HasNoUpper(Words(s)[k])
    decreases |s|
  {
    if s != [] {
      if !IsWordChar(s[0]) {
        WordsNoUpper(s[1..]);
      } else {
        var k := WordRun(s);
        WordsNoUpper(s[k..]);
        var ws := Words(s);
        assert ws == [s[..k]] + Words(s[k..]);
        forall j | 0 <= j < |ws| ensures HasNoUpper(ws[j]) {
          if j > 0 { assert ws[j] == Words(s[k..])[j - 1]; }
        }
      }
    }
  }

  /** Words joined by single spaces split back into the same words. */
  lemma {:induction false} WordsJoin(ws: seq<string>)
    requires forall k :: 0 <= k < |ws| ==> ws[k] != [] && forall i :: 0 <= i < |ws[k]| ==> IsWordChar(ws[k][i])
    ensures Words(Join(ws, " ")) == ws
    decreases |ws|
  {
    if |ws| == 1 {
      assert ws[0] + [] == ws[0];
      WordsPrefix(ws[0], []);
    } else if |ws| > 1 {
      var rest := Join(ws[1..], " ");
      var v := " " + rest;
      assert Join(ws, " ") == ws[0] + v;
      WordsJoin(ws[1..]);
      WordsAfterNonWord(" ", rest);
      WordsPrefix(ws[0], v);
      assert ws == [ws[0]] + ws[1..];
    }
  }

  /** Text without capitals, joined, has no capitals. */
  lemma {:induction false} JoinNoUpper(ws: seq<string>, sep: string)
    requires HasNoUpper(sep) && forall k :: 0 <= k < |ws| ==> HasNoUpper(ws[k])
    ensures HasNoUpper(Join(ws, sep))
    decreases |ws|
  {
    if |ws| > 1 {
      JoinNoUpper(ws[1..], sep);
      var rest := Join(ws[1..], sep);
      var r := ws[0] + sep + rest;
      forall i | 0 <= i < |r| ensures !IsUpper(r[i]) {
        if i < |ws[0]| { assert r[i] == ws[0][i]; }
        else if i < |ws[0]| + |sep| { assert r[i] == sep[i - |ws[0]|]; }
        else { assert r[i] == rest[i - |ws[0]| - |sep|]; }
      }
    }
  }

  lemma {:induction false} WordRunExact(w: string, t: string)
    requires forall i :: 0 <= i < |w| ==> IsWordChar(w[i])
    requires t == [] || !IsWordChar(t[0])
    ensures WordRun(w + t) == |w|
    decreases |w|
  {
    if w != [] {
      assert (w + t)[1..] == w[1..] + t;
      WordRunExact(w[1..], t);
    }
  }

  /** `sep.join(parts)` */
  function Join(parts: seq<string>, sep: string): (r: string)
    ensures parts == [] ==> r == []
    ensures |parts| == 1 ==> r == parts[0]
  {
    if parts == [] then [] else if |parts| == 1 then parts[0]
    else parts[0] + sep + Join(parts[1..], sep)
  }

  /** `s.replace(pat, rep)`: leftmost non-overlapping occurrences, left to right. */
  function Replace(s: string, pat: string, rep: string): (r: string)
    requires pat != []
    decreases |s|
  {
    if |s| < |pat| then s
    else if s[..|pat|] == pat then rep + Replace(s[|pat|..], pat, rep)
    else [s[0]] + Replace(s[1..], pat, rep)
  }

  /** Every character of a replacement result comes from the text or from `rep`. */
  lemma {:induction false} ReplaceChars(s: string, pat: string, rep: string)
    requires pat != []
    ensures forall i :: 0 <= i < |Replace(s, pat, rep)| ==> Replace(s, pat, rep)[i] in s || Replace(s, pat, rep)[i] in rep
    decreases |s|
  {
    if |s| < |pat| {
    } else if s[..|pat|] == pat {
      ReplaceChars(s[|pat|..], pat, rep);
      var r := Replace(s[|pat|..], pat, rep);
      forall i | 0 <= i < |rep + r| ensures (rep + r)[i] in s || (rep + r)[i] in rep {
        if i >= |rep| {
          assert (rep + r)[i] == r[i - |rep|];
          if r[i - |rep|] in s[|pat|..] {
            var j :| 0 <= j < |s[|pat|..]| && s[|pat|..][j] == r[i - |rep|];
            assert s[|pat| + j] == r[i - |rep|];
          }
        }
      }
    } else {
      ReplaceChars(s[1..], pat, rep);
      var r := Replace(s[1..], pat, rep);
      forall i | 0 <= i < |[s[0]] + r| ensures ([s[0]] + r)[i] in s || ([s[0]] + r)[i] in rep {
        if i >= 1 {
          assert ([s[0]] + r)[i] == r[i - 1];
          if r[i - 1] in s[1..] {
            var j :| 0 <= j < |s[1..]| && s[1..][j] == r[i - 1];
            assert s[1 + j] == r[i - 1];
          }
        }
      }
    }
  }

  /** A character that is not part of `pat` survives the replacement. */
  lemma {:induction false} ReplaceKeeps(s: string, pat: string, rep: string, c: char)
    requires pat != [] && c in s && c !in pat
    ensures c in Replace(s, pat, rep)
    decreases |s|
  {
    if |s| >= |pat| {
      if s[..|pat|] == pat {
        assert forall k :: 0 <= k < |pat| ==> s[k] == pat[k] by {
          forall k | 0 <= k < |pat| ensures s[k] == pat[k] { assert s[..|pat|][k] == s[k]; }
        }
        var i :| 0 <= i < |s| && s[i] == c;
        assert s[|pat|..][i - |pat|] == c;
        ReplaceKeeps(s[|pat|..], pat, rep, c);
      } else if s[0] != c {
        var i :| 0 <= i < |s| && s[i] == c;
        assert s[1..][i - 1] == c;
        ReplaceKeeps(s[1..], pat, rep, c);
      }
    }
  }

  /** Replace changes nothing when the first character of `pat` never occurs. */
  lemma {:induction false} ReplaceAbsent(s: string, pat: string, rep: string)
    requires pat != [] && pat[0] !in s
    ensures Replace(s, pat, rep) == s
    decreases |s|
  {
    if |s| >= |pat| {
      assert s[..|pat|][0] == s[0];
      assert s[0] in s;
      assert s[..|pat|] != pat;
      assert forall c :: c in s[1..] ==> c in s;
      ReplaceAbsent(s[1..], pat, rep);
    }
  }
  /** `w` occurs in `s` at position `i`. */
  predicate OccursAt(w: string, s: string, i: int)
  {
    0 <= i && i + |w| <= |s| && s[i..i + |w|] == w
  }

  /** `w in s` for strings: `w` occurs at some position of `s`. */
  predicate Occurs(w: string, s: string)
  {
    exists i :: 0 <= i <= |s| && OccursAt(w, s, i)
  }

  /** Up to the first replacement the result copies the text: a prefix of the
      result holding no character of a non-empty `rep` is a prefix of the text. */
  lemma {:induction false} ReplaceCopiesPrefix(s: string, pat: string, rep: string, m: nat)
    requires pat != [] && rep != []
    ensures var r := Replace(s, pat, rep);
      m <= |r| && (forall k :: 0 <= k < m ==> r[k] !in rep) ==> m <= |s| && r[..m] == s[..m]
    decreases |s|
  {
    var r := Replace(s, pat, rep);
    if |s| >= |pat| && m > 0 {
      if s[..|pat|] == pat {
        assert r[0] == rep[0];
      } else {
        var tail := Replace(s[1..], pat, rep);
        assert r == [s[0]] + tail;
        ReplaceCopiesPrefix(s[1..], pat, rep, m - 1);
        if m <= |r| && forall k :: 0 <= k < m ==> r[k] !in rep {
          assert forall k :: 0 <= k < m - 1 ==> tail[k] == r[k + 1];
          assert r[..m] == s[..m] by {
            assert r[..m] == [s[0]] + tail[..m - 1];
            assert s[..m] == [s[0]] + s[1..][..m - 1];
          }
        }
      }
    }
  }

  /** An occurrence in a suffix is an occurrence in the text. */
  lemma OccursInSuffix(w: string, s: string, n: nat)
    requires n <= |s|
    ensures Occurs(w, s[n..]) ==> Occurs(w, s)
  {
    var t := s[n..];
    if Occurs(w, t) {
      var i :| 0 <= i <= |t| && OccursAt(w, t, i);
      assert t[i..i + |w|] == w;
      assert s[n + i..n + i + |w|] == t[i..i + |w|];
      assert OccursAt(w, s, n + i);
    }
  }

  /** An occurrence past a prefix is an occurrence in what follows it. */
  lemma OccursPastPrefix(w: string, a: string, b: string, i: int)
    requires |a| <= i
    ensures OccursAt(w, a + b, i) ==> OccursAt(w, b, i - |a|)
  {
    var r := a + b;
    if i + |w| <= |r| {
      var x, y := b[i - |a|..i - |a| + |w|], r[i..i + |w|];
      forall k | 0 <= k < |w| ensures x[k] == y[k] {
        assert y[k] == r[i + k] == b[i - |a| + k];
      }
    }
  }

  /** No occurrence of `w` starts inside a prefix that shares no character with `w`. */
  lemma NotOccursInPrefix(w: string, a: string, b: string, i: int)
    requires w != [] && forall c :: c in a ==> c !in w
    requires 0 <= i < |a|
    ensures !OccursAt(w, a + b, i)
  {
    assert a[i] in a && w[0] in w;
    assert i + |w| <= |a + b| ==> (a + b)[i..i + |w|][0] == a[i];
  }

  /** An occurrence at the start is a prefix. */
  lemma OccursAtStart(w: string, s: string)
    ensures OccursAt(w, s, 0) <==> |w| <= |s| && s[..|w|] == w
  {
  }

  /** A prefix equal to `w` holds no character that `w` lacks. */
  lemma PrefixAvoids(r: string, w: string, rep: string)
    requires forall c :: c in rep ==> c !in w
    ensures |w| <= |r| && r[..|w|] == w ==> forall k :: 0 <= k < |w| ==> r[k] !in rep
  {
    if |w| <= |r| && r[..|w|] == w {
      forall k | 0 <= k < |w| ensures r[k] !in rep {
        assert r[k] == w[k] && w[k] in w;
      }
    }
  }

  /** With a non-empty `rep` sharing no character with `w`, replacing `pat`
      creates no occurrence of `w`, and leaves none of `pat` itself. */
  lemma {:induction false} ReplaceLeavesNo(s: string, pat: string, rep: string, w: string)
    requires pat != [] && rep != [] && w != []
    requires forall c :: c in rep ==> c !in w
    requires w == pat || !Occurs(w, s)
    ensures !Occurs(w, Replace(s, pat, rep))
    decreases |s|
  {
    var r := Replace(s, pat, rep);
    if |s| < |pat| {
      assert r == s;
      forall i ensures !OccursAt(w, r, i) {
        if w == pat { assert |s| < |w|; } else { assert !OccursAt(w, s, i); }
      }
    } else if s[..|pat|] == pat {
      var rest := s[|pat|..];
      var tail := Replace(rest, pat, rep);
      assert r == rep + tail;
      OccursInSuffix(w, s, |pat|);
      ReplaceLeavesNo(rest, pat, rep, w);
      forall i ensures !OccursAt(w, r, i) {
        if 0 <= i < |rep| {
          NotOccursInPrefix(w, rep, tail, i);
        } else if |rep| <= i {
          OccursPastPrefix(w, rep, tail, i);
        }
      }
    } else {
      var rest := s[1..];
      var tail := Replace(rest, pat, rep);
      assert r == [s[0]] + tail;
      OccursInSuffix(w, s, 1);
      ReplaceLeavesNo(rest, pat, rep, w);
      ReplaceCopiesPrefix(s, pat, rep, |w|);
      forall i ensures !OccursAt(w, r, i) {
        if 0 < i {
          OccursPastPrefix(w, [s[0]], tail, i);
        } else if i == 0 {
          PrefixAvoids(r, w, rep);
          OccursAtStart(w, r);
          OccursAtStart(w, s);
        }
      }
    }
  }
}
