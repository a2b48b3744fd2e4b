/**
 * The text pipeline of the grouped Q&A engine (V2/chat.py): the normaliser,
 * the paragraph and sentence segmenters, the similarity wrapper and the
 * coercion of raw input/output fields into lists.
 */
module ChatText {
  import opened Common
  import opened Text

  // ---------------------------------------------------------------- Normaliser

  /** Characters kept by `re.sub(r'[^\w\s]', '', ...)`. */
  predicate Kept(c: char) { IsWordChar(c) || IsSpace(c) }

  /** Drops every character that is neither a word character nor whitespace. */
  function RemovePunct(s: string): (r: string)
    ensures |r| <= |s|
    ensures forall i :: 0 <= i < |r| ==> Kept(r[i])
    ensures HasNoUpper(s) ==> HasNoUpper(r)
    ensures (forall i :: 0 <= i < |s| ==> Kept(s[i])) ==> r == s
    ensures (forall i :: 0 <= i < |s| ==> !Kept(s[i])) ==> r == []
  {
    if s == [] then []
    else
      var rest := RemovePunct(s[1..]);
      if Kept(s[0]) then [s[0]] + rest else rest
  }

  /** One character survives exactly when it is a word or space character. */
  lemma RemovePunctOne(c: char)
    ensures RemovePunct([c]) == if Kept(c) then [c] else []
  {
    assert [c][1..] == [];
  }

  /** Removal works character by character: the kept characters of a text are
      those of its front followed by those of its back, in order. */
  lemma {:induction false} RemovePunctAppend(a: string, b: string)
    ensures RemovePunct(a + b) == RemovePunct(a) + RemovePunct(b)
    decreases |a|
  {
    if a != [] {
      assert (a + b)[0] == a[0] && (a + b)[1..] == a[1..] + b;
      RemovePunctAppend(a[1..], b);
    } else {
      assert a + b == b;
    }
  }

  /** A word character that is not a capital, or a space: what normalised text is made of. */
  predicate NormalChar(c: char) { c == ' ' || (IsWordChar(c) && !IsUpper(c)) }

  /** `re.sub(r'\s+', ' ', s)`: every maximal whitespace run becomes one space. */
  function CollapseSpaces(s: string): (r: string)
    ensures s == [] <==> r == []
    ensures s != [] ==> (IsSpace(s[0]) <==> r[0] == ' ')
    ensures (forall i :: 0 <= i < |s| ==> Kept(s[i]) && !IsUpper(s[i])) ==>
              forall i :: 0 <= i < |r| ==> NormalChar(r[i])
    ensures forall i :: 0 <= i < |r| - 1 ==> !(r[i] == ' ' && r[i + 1] == ' ')
    decreases |s|
  {
    if s == [] then []
    else
      var k := if IsSpace(s[0]) then LeadingSpaces(s) else 1;
      var rest := CollapseSpaces(s[k..]);
      if IsSpace(s[0]) then [' '] + rest else [s[0]] + rest
  }

  /** Lower-case word characters and single inner spaces only: the shape of a normalised text. */
  predicate IsNormal(t: string)
  {
    && (forall i :: 0 <= i < |t| ==> NormalChar(t[i]))
    && (forall i :: 0 <= i < |t| - 1 ==> !(t[i] == ' ' && t[i + 1] == ' '))
    && (t != [] ==> t[0] != ' ' && t[|t| - 1] != ' ')
  }

  /** `normalize_text`: None is "", otherwise lower-case, strip non-word characters,
      collapse whitespace and trim. */
  function NormalizeText(text: Option<string>): (r: string)
    ensures IsNormal(r)
  {
    match text
    case None => ""
    case Some(t) =>
      var lowered := Lower(t);
      var kept := RemovePunct(lowered);
      var collapsed := CollapseSpaces(kept);
      var r := Strip(collapsed);
      NormalShape(lowered, kept, collapsed);
      r
  }

  /** The stages of NormalizeText produce a normal text. */
  lemma NormalShape(lowered: string, kept: string, collapsed: string)
    requires HasNoUpper(lowered)
    requires kept == RemovePunct(lowered) && collapsed == CollapseSpaces(kept)
    ensures IsNormal(Strip(collapsed))
  {
    assert HasNoUpper(kept);
    StripNormalChars(collapsed);
  }

  /** Trimming a text of normal characters without double spaces makes it normal. */
  lemma StripNormalChars(c: string)
    requires forall i :: 0 <= i < |c| ==> NormalChar(c[i])
    requires forall i :: 0 <= i < |c| - 1 ==> !(c[i] == ' ' && c[i + 1] == ' ')
    ensures IsNormal(Strip(c))
  {
    var a := LeadingSpaces(c);
    if a < |c| {
      SliceNormal(c, a, TrailingStart(c), Strip(c));
    }
  }

  /** A slice of a text of normal characters without double spaces is one too. */
  lemma SliceNormal(c: string, lo: nat, hi: nat, r: string)
    requires lo <= hi <= |c| && r == c[lo..hi]
    requires forall i :: 0 <= i < |c| ==> NormalChar(c[i])
    requires forall i :: 0 <= i < |c| - 1 ==> !(c[i] == ' ' && c[i + 1] == ' ')
    ensures forall i :: 0 <= i < |r| ==> NormalChar(r[i])
    ensures forall i :: 0 <= i < |r| - 1 ==> !(r[i] == ' ' && r[i + 1] == ' ')
  {
    forall i | 0 <= i < |r| ensures NormalChar(r[i]) {
      assert r[i] == c[lo + i];
    }
    forall i | 0 <= i < |r| - 1 ensures !(r[i] == ' ' && r[i + 1] == ' ') {
      assert r[i] == c[lo + i] && r[i + 1] == c[lo + i + 1];
    }
  }

  /** Normalising a normal text changes nothing. */
  lemma NormalFixpoint(t: string)
    requires IsNormal(t)
    ensures NormalizeText(Some(t)) == t
  {
    LowerIdentity(t);
    assert RemovePunct(t) == t;
    CollapseIdentity(t);
    StripIdentity(t);
  }

  lemma {:induction false} CollapseIdentity(t: string)
    requires forall i :: 0 <= i < |t| ==> IsSpace(t[i]) ==> t[i] == ' '
    requires forall i :: 0 <= i < |t| - 1 ==> !(t[i] == ' ' && t[i + 1] == ' ')
    ensures CollapseSpaces(t) == t
    decreases |t|
  {
    if t != [] {
      if IsSpace(t[0]) {
        assert LeadingSpaces(t) == 1 by {
          if |t| > 1 { assert t[1] != ' '; assert t[1..][0] == t[1]; }
        }
      }
      CollapseIdentity(t[1..]);
      assert t == [t[0]] + t[1..];
    }
  }

  /** `normalize_text` is idempotent. */
  lemma NormalizeIdempotent(text: Option<string>)
    ensures NormalizeText(Some(NormalizeText(text))) == NormalizeText(text)
  {
    NormalFixpoint(NormalizeText(text));
  }

  /** A text made only of punctuation normalises to the empty string. */
  lemma PunctuationOnlyNormalizesEmpty(t: string)
    requires forall i :: 0 <= i < |t| ==> !Kept(t[i])
    ensures NormalizeText(Some(t)) == ""
  {
    var lowered := Lower(t);
    assert forall i :: 0 <= i < |lowered| ==> !Kept(lowered[i]);
    assert RemovePunct(lowered) == [];
  }

  // ---------------------------------------------------------- Paragraph split

  /** End of the longest whitespace run of `s` starting at `k`. */
  function RunEnd(s: string, k: nat): (e: nat)
    requires k <= |s|
    ensures k <= e <= |s|
    ensures forall i :: k <= i < e ==> IsSpace(s[i])
    ensures e < |s| ==> !IsSpace(s[e])
  {
    k + LeadingSpaces(s[k..])
  }

  /** The position just after the last '\n' among s[lo..hi], if there is one. */
  function LastNewline(s: string, lo: nat, hi: nat): (r: Option<nat>)
    requires lo <= hi <= |s|
    ensures r.Some? ==> lo < r.value <= hi && s[r.value - 1] == '\n'
    ensures r.None? ==> forall i :: lo <= i < hi ==> s[i] != '\n'
    decreases hi
  {
    if hi <= lo then None
    else if s[hi - 1] == '\n' then Some(hi)
    else LastNewline(s, lo, hi - 1)
  }

  /** The end of a match of `\r?\n\s*\r?\n` that starts at index i, if any.
      The optional '\r' and the first '\n' are fixed; the greedy `\s*` then
      backtracks to the last '\n' of the whitespace run that follows. */
  function BlankLineAt(s: string, i: nat): (r: Option<nat>)
    requires i < |s|
    ensures r.Some? ==> i < r.value <= |s|
  {
    match LineBreakAt(s, i)
    case None => None
    case Some(j) => LastNewline(s, j + 1, RunEnd(s, j + 1))
  }

  /** The index of the '\n' that ends a `\r?\n` starting at i, if one does. */
  function LineBreakAt(s: string, i: nat): (r: Option<nat>)
    requires i < |s|
    ensures r.Some? ==> i <= r.value < |s| && r.value <= i + 1
  {
    if s[i] == '\n' then Some(i)
    else if s[i] == '\r' && i + 1 < |s| && s[i + 1] == '\n' then Some(i + 1)
    else None
  }

  /** `c` is where the leftmost match of the blank-line pattern at or after `i` starts. */
  predicate FirstBlankLine(s: string, i: nat, c: int)
  {
    i <= c < |s| && BlankLineAt(s, c).Some? && forall m :: i <= m < c ==> BlankLineAt(s, m).None?
  }

  /** `re.split(r'\r?\n\s*\r?\n', s)`: scan from i for the leftmost match, cut
      the segment that began at `segStart`, and resume after the match. */
  function SplitBlankLines(s: string, segStart: nat, i: nat): (parts: seq<string>)
    requires segStart <= i <= |s|
    ensures parts != []
    decreases |s| - i
  {
    if i == |s| then [s[segStart..]]
    else match BlankLineAt(s, i)
      case Some(e) => [s[segStart..i]] + SplitBlankLines(s, e, e)
      case None => SplitBlankLines(s, segStart, i + 1)
  }

  /** Where the split cuts: the segment is the only part when no match starts at
      or after `i`; otherwise it is cut at the start of the leftmost match, and the
      scan resumes where that match ends. */
  lemma SplitBlankLinesCuts(s: string, segStart: nat, i: nat)
    requires segStart <= i <= |s|
    ensures var parts := SplitBlankLines(s, segStart, i);
      (|parts| == 1 <==> forall k :: i <= k < |s| ==> BlankLineAt(s, k).None?) &&
      (|parts| == 1 ==> parts[0] == s[segStart..]) &&
      (|parts| > 1 ==> exists c :: (FirstBlankLine(s, i, c) && parts[0] == s[segStart..c] &&
         parts[1..] == SplitBlankLines(s, BlankLineAt(s, c).value, BlankLineAt(s, c).value)))
  {
    SplitBlankLinesCutsHold(s, segStart, i);
  }

  /** `SplitBlankLinesCuts` by induction on the scan position. */
  lemma {:induction false} SplitBlankLinesCutsHold(s: string, segStart: nat, i: nat)
    requires segStart <= i <= |s|
    ensures CutsAsStated(s, segStart, i)
    decreases |s| - i, 1
  {
    if i == |s| {
      SplitBlankLinesEndStep(s, segStart);
    } else if BlankLineAt(s, i).None? {
      SplitBlankLinesCutsSkip(s, segStart, i);
    } else {
      var e := BlankLineAt(s, i).value;
      SplitBlankLinesCutStep(s, segStart, i, e);
      var parts := SplitBlankLines(s, segStart, i);
      assert parts[1..] == SplitBlankLines(s, e, e);
      assert FirstBlankLine(s, i, i);
    }
  }

  /** The statement of `SplitBlankLinesCuts`. */
  ghost predicate CutsAsStated(s: string, segStart: nat, i: nat)
    requires segStart <= i <= |s|
  {
    var parts := SplitBlankLines(s, segStart, i);
    (|parts| == 1 <==> forall k :: i <= k < |s| ==> BlankLineAt(s, k).None?) &&
    (|parts| == 1 ==> parts[0] == s[segStart..]) &&
    (|parts| > 1 ==> exists c :: (FirstBlankLine(s, i, c) && parts[0] == s[segStart..c] &&
       parts[1..] == SplitBlankLines(s, BlankLineAt(s, c).value, BlankLineAt(s, c).value)))
  }

  /** The step of `SplitBlankLinesCuts` where no match starts at `i`. */
  lemma {:induction false} SplitBlankLinesCutsSkip(s: string, segStart: nat, i: nat)
    requires segStart <= i < |s| && BlankLineAt(s, i).None?
    ensures CutsAsStated(s, segStart, i)
    decreases |s| - i, 0
  {
    SplitBlankLinesNoCutStep(s, segStart, i);
    SplitBlankLinesCutsHold(s, segStart, i + 1);
    var parts := SplitBlankLines(s, segStart, i + 1);
    if |parts| > 1 {
      var c :| FirstBlankLine(s, i + 1, c) && parts[0] == s[segStart..c] &&
        parts[1..] == SplitBlankLines(s, BlankLineAt(s, c).value, BlankLineAt(s, c).value);
      assert FirstBlankLine(s, i, c);
    }
  }

  /** `[p.rstrip() for p in parts if p.strip()]` */
  function RStripNonBlank(parts: seq<string>): (r: seq<string>)
    ensures |r| <= |parts|
  {
    if parts == [] then []
    else (if Strip(parts[0]) != [] then [RStrip(parts[0])] else []) + RStripNonBlank(parts[1..])
  }

  /** `split_paragraphs` */
  function SplitParagraphs(text: string): (r: seq<string>)
    ensures text == "" ==> r == []
  {
    if text == "" then []
    else RStripNonBlank(SplitBlankLines(Strip(text), 0, 0))
  }

  /** Not blank and no trailing whitespace: the shape of one paragraph. */
  predicate IsParagraph(p: string)
  {
    !AllSpace(p) && (p != [] ==> !IsSpace(p[|p| - 1]))
  }

  lemma RStripShape(p: string)
    requires !AllSpace(p)
    ensures IsParagraph(RStrip(p))
  {
    var k := TrailingStart(p);
    assert k > 0;
    assert !IsSpace(RStrip(p)[k - 1]);
  }

  lemma {:induction false} RStripNonBlankShape(parts: seq<string>)
    ensures forall k :: 0 <= k < |RStripNonBlank(parts)| ==> IsParagraph(RStripNonBlank(parts)[k])
  {
    if parts != [] {
      RStripNonBlankShape(parts[1..]);
      if Strip(parts[0]) != [] {
        RStripShape(parts[0]);
      }
    }
  }

  /** Every paragraph is non-blank and carries no trailing whitespace. */
  lemma ParagraphsAreNonBlank(text: string)
    ensures forall k :: 0 <= k < |SplitParagraphs(text)| ==> IsParagraph(SplitParagraphs(text)[k])
  {
    if text != "" {
      RStripNonBlankShape(SplitBlankLines(Strip(text), 0, 0));
    }
  }

  /** Without a line break the scan never cuts. */
  lemma {:induction false} SplitWithoutNewline(s: string, segStart: nat, i: nat)
    requires segStart <= i <= |s|
    requires forall k :: 0 <= k < |s| ==> s[k] != '\n'
    ensures SplitBlankLines(s, segStart, i) == [s[segStart..]]
    decreases |s| - i
  {
    if i < |s| {
      SplitWithoutNewline(s, segStart, i + 1);
    }
  }

  /** A single-line, non-blank text is one paragraph: the text stripped. */
  lemma SingleLineParagraph(text: string)
    requires !AllSpace(text)
    requires forall k :: 0 <= k < |text| ==> text[k] != '\n'
    ensures SplitParagraphs(text) == [Strip(text)]
  {
    var s := Strip(text);
    assert s == text[LeadingSpaces(text)..TrailingStart(text)];
    forall k | 0 <= k < |s| ensures s[k] != '\n' {
      assert s[k] == text[LeadingSpaces(text) + k];
    }
    SplitWithoutNewline(s, 0, 0);
    assert s[0..] == s;
    StripIdentity(s);
    assert RStripNonBlank([s]) == [RStrip(s)] + RStripNonBlank([]);
  }

  /** No match of the blank-line pattern starts anywhere in `a`. */
  predicate NoBlankLine(a: string)
  {
    forall i :: 0 <= i < |a| ==> BlankLineAt(a, i).None?
  }

  /** A text that `\r?\n\s*\r?\n` matches whole: a line break, any whitespace,
      and a second line break at the end. */
  predicate IsBlankLineSep(sep: string)
  {
    && AllSpace(sep)
    && |sep| >= 2 && sep[|sep| - 1] == '\n'
    && (sep[0] == '\n' || (|sep| >= 3 && sep[0] == '\r' && sep[1] == '\n'))
  }

  /** A whitespace run is cut off by the first non-space character after it. */
  lemma {:induction false} LeadingSpacesOfSpaces(w: string, b: string)
    requires AllSpace(w) && (b == [] || !IsSpace(b[0]))
    ensures LeadingSpaces(w + b) == |w|
    decreases |w|
  {
    if w == [] {
      assert w + b == b;
    } else {
      assert (w + b)[1..] == w[1..] + b;
      LeadingSpacesOfSpaces(w[1..], b);
    }
  }

  /** The whitespace run at a position inside `a` ends inside `a` when `a` ends
      with a non-space character. */
  lemma {:induction false} LeadingSpacesBeforeNonSpace(a: string, t: string)
    requires a != [] && !IsSpace(a[|a| - 1])
    ensures LeadingSpaces(a + t) == LeadingSpaces(a)
    decreases |a|
  {
    if |a| > 1 && IsSpace(a[0]) {
      assert (a + t)[1..] == a[1..] + t;
      LeadingSpacesBeforeNonSpace(a[1..], t);
    }
  }

  lemma {:induction false} LastNewlinePrefix(a: string, t: string, lo: nat, hi: nat)
    requires lo <= hi <= |a|
    ensures LastNewline(a + t, lo, hi) == LastNewline(a, lo, hi)
    decreases hi
  {
    if lo < hi {
      assert (a + t)[hi - 1] == a[hi - 1];
      LastNewlinePrefix(a, t, lo, hi - 1);
    }
  }

  /** A position found in the rest of a text, as a position in the whole text. */
  function Shifted(r: Option<nat>, o: nat): (q: Option<nat>)
    ensures q.None? == r.None?
    ensures r.Some? ==> q.value == o + r.value
  {
    match r
    case None => None
    case Some(v) => Some(o + v)
  }

  lemma {:induction false} LastNewlineDrop(s: string, o: nat, lo: nat, hi: nat)
    requires o <= |s| && lo <= hi <= |s| - o
    ensures LastNewline(s, o + lo, o + hi) == Shifted(LastNewline(s[o..], lo, hi), o)
    decreases hi
  {
    if lo < hi {
      assert s[o..][hi - 1] == s[o + hi - 1];
      LastNewlineDrop(s, o, lo, hi - 1);
    }
  }

  /** Inside `a`, the opening line break of a match does not depend on what follows `a`. */
  lemma LineBreakAtPrefix(a: string, t: string, i: nat)
    requires i < |a| && !IsSpace(a[|a| - 1])
    ensures LineBreakAt(a + t, i) == LineBreakAt(a, i)
    ensures LineBreakAt(a, i).Some? ==> LineBreakAt(a, i).value + 1 < |a|
  {
    assert (a + t)[i] == a[i];
    if i + 1 < |a| { assert (a + t)[i + 1] == a[i + 1]; }
  }

  /** Inside `a`, a whitespace run does not depend on what follows `a`. */
  lemma RunEndPrefix(a: string, t: string, k: nat)
    requires k < |a| && !IsSpace(a[|a| - 1])
    ensures RunEnd(a + t, k) == RunEnd(a, k)
  {
    assert (a + t)[k..] == a[k..] + t;
    LeadingSpacesBeforeNonSpace(a[k..], t);
  }

  /** Inside `a`, a match of the pattern does not depend on what follows `a`. */
  lemma BlankLineAtPrefix(a: string, t: string, i: nat)
    requires i < |a| && !IsSpace(a[|a| - 1])
    ensures BlankLineAt(a + t, i) == BlankLineAt(a, i)
  {
    LineBreakAtPrefix(a, t, i);
    var j := LineBreakAt(a, i);
    if j.Some? {
      var k := j.value + 1;
      RunEndPrefix(a, t, k);
      LastNewlinePrefix(a, t, k, RunEnd(a, k));
    }
  }

  lemma LineBreakAtDrop(s: string, o: nat, i: nat)
    requires o <= |s| && i < |s| - o
    ensures LineBreakAt(s, o + i) == Shifted(LineBreakAt(s[o..], i), o)
  {
    assert s[o..][i] == s[o + i];
    if i + 1 < |s| - o { assert s[o..][i + 1] == s[o + i + 1]; }
  }

  lemma RunEndDrop(s: string, o: nat, k: nat)
    requires o <= |s| && k <= |s| - o
    ensures RunEnd(s, o + k) == o + RunEnd(s[o..], k)
  {
    assert s[o + k..] == s[o..][k..];
  }

  /** Past the first `o` characters, a match at `c == o + i` is the match at `i`
      in the rest, shifted. */
  lemma BlankLineAtDrop(s: string, o: nat, i: nat, c: nat)
    requires o <= |s| && i < |s| - o && c == o + i
    ensures BlankLineAt(s, c) == Shifted(BlankLineAt(s[o..], i), o)
  {
    LineBreakAtDrop(s, o, i);
    match LineBreakAt(s[o..], i)
    case None =>
    case Some(j) => BlankLineAtDropFrom(s, o, i, j);
  }

  /** `BlankLineAtDrop` once the opening line break, ending at `j`, is found. */
  lemma BlankLineAtDropFrom(s: string, o: nat, i: nat, j: nat)
    requires o <= |s| && i < |s| - o
    requires LineBreakAt(s[o..], i) == Some(j) && LineBreakAt(s, o + i) == Some(o + j)
    ensures BlankLineAt(s, o + i) == Shifted(BlankLineAt(s[o..], i), o)
  {
    var k := j + 1;
    BlankLineAtFrom(s[o..], i, k);
    BlankLineAtFrom(s, o + i, o + k);
    LastNewlineRunDrop(s, o, k);
  }

  /** A match opened by a line break ending just before `k` ends after the last
      '\n' of the whitespace run from `k`. */
  lemma BlankLineAtFrom(s: string, i: nat, k: nat)
    requires i < |s| && 0 < k && LineBreakAt(s, i) == Some(k - 1)
    ensures BlankLineAt(s, i) == LastNewline(s, k, RunEnd(s, k))
  {
  }

  /** The end of a match, past the first `o` characters, shifted. */
  lemma LastNewlineRunDrop(s: string, o: nat, k: nat)
    requires o <= |s| && k <= |s| - o
    ensures LastNewline(s, o + k, RunEnd(s, o + k)) == Shifted(LastNewline(s[o..], k, RunEnd(s[o..], k)), o)
  {
    RunEndDrop(s, o, k);
    LastNewlineDrop(s, o, k, RunEnd(s[o..], k));
  }

  /** A match at `i` cuts the segment there and restarts the scan where the match ends. */
  lemma SplitBlankLinesCutStep(s: string, segStart: nat, i: nat, e: nat)
    requires segStart <= i < |s| && BlankLineAt(s, i) == Some(e)
    ensures SplitBlankLines(s, segStart, i) == [s[segStart..i]] + SplitBlankLines(s, e, e)
  {
  }

  /** At the end of the text the open segment is the last part. */
  lemma SplitBlankLinesEndStep(s: string, segStart: nat)
    requires segStart <= |s|
    ensures SplitBlankLines(s, segStart, |s|) == [s[segStart..]]
  {
  }

  /** No match at `i`: the scan moves on. */
  lemma SplitBlankLinesNoCutStep(s: string, segStart: nat, i: nat)
    requires segStart <= i < |s| && BlankLineAt(s, i).None?
    ensures SplitBlankLines(s, segStart, i) == SplitBlankLines(s, segStart, i + 1)
  {
  }

  /** The step of `SplitBlankLinesShift` where no match starts at `c`. */
  lemma {:induction false} SplitBlankLinesShiftNoCut(s: string, o: nat, a: nat, c: nat, segStart: nat, i: nat)
    requires o <= |s| && segStart <= i < |s| - o && a == o + segStart && c == o + i
    requires BlankLineAt(s[o..], i).None? && BlankLineAt(s, c).None?
    ensures SplitBlankLines(s, a, c) == SplitBlankLines(s[o..], segStart, i)
    decreases |s| - c, 0
  {
    SplitBlankLinesShift(s, o, a, c + 1, segStart, i + 1);
    SplitBlankLinesNoCutStep(s, a, c);
    SplitBlankLinesNoCutStep(s[o..], segStart, i);
  }

  /** The step of `SplitBlankLinesShift` where a match starts at `c`. */
  lemma {:induction false} SplitBlankLinesShiftCut(s: string, o: nat, a: nat, c: nat, segStart: nat, i: nat, e: nat, d: nat)
    requires o <= |s| && segStart <= i < |s| - o && a == o + segStart && c == o + i && d == o + e
    requires BlankLineAt(s[o..], i) == Some(e) && BlankLineAt(s, c) == Some(d)
    ensures SplitBlankLines(s, a, c) == SplitBlankLines(s[o..], segStart, i)
    decreases |s| - c, 0
  {
    SplitBlankLinesShift(s, o, d, d, e, e);
    SplitBlankLinesCutStep(s, a, c, d);
    SplitBlankLinesCutStep(s[o..], segStart, i, e);
    SliceDrop(s, o, segStart, i, a, c);
  }

  /** A slice past the first `o` characters, from `a == o + lo` to `c == o + hi`,
      is a slice of the rest. */
  lemma SliceDrop(s: string, o: nat, lo: nat, hi: nat, a: nat, c: nat)
    requires o <= |s| && lo <= hi <= |s| - o && a == o + lo && c == o + hi
    ensures s[a..c] == s[o..][lo..hi]
  {
  }

  /** The end of the scan of `SplitBlankLinesShift`. */
  lemma SplitBlankLinesShiftEnd(s: string, o: nat, a: nat, segStart: nat)
    requires o <= |s| && segStart <= |s| - o && a == o + segStart
    ensures SplitBlankLines(s, a, |s|) == SplitBlankLines(s[o..], segStart, |s| - o)
  {
    assert s[a..] == s[o..][segStart..];
    SplitBlankLinesEndStep(s, a);
    SplitBlankLinesEndStep(s[o..], segStart);
  }

  /** Past the first `o` characters, the scan from `a == o + segStart` and
      `c == o + i` cuts the rest as the scan of the rest alone from `segStart` and `i`. */
  lemma {:induction false} SplitBlankLinesShift(s: string, o: nat, a: nat, c: nat, segStart: nat, i: nat)
    requires o <= |s| && segStart <= i <= |s| - o && a == o + segStart && c == o + i
    ensures SplitBlankLines(s, a, c) == SplitBlankLines(s[o..], segStart, i)
    decreases |s| - c, 1
  {
    if c == |s| {
      SplitBlankLinesShiftEnd(s, o, a, segStart);
    } else {
      BlankLineAtDrop(s, o, i, c);
      match BlankLineAt(s[o..], i)
      case Some(e) => SplitBlankLinesShiftCut(s, o, a, c, segStart, i, e, o + e);
      case None => SplitBlankLinesShiftNoCut(s, o, a, c, segStart, i);
    }
  }

  /** The scan of `b` resumed past a prefix `p` is the scan of `b` alone. */
  lemma SplitBlankLinesAfter(p: string, b: string)
    ensures SplitBlankLines(p + b, |p|, |p|) == SplitBlankLines(b, 0, 0)
  {
    SplitBlankLinesShift(p + b, |p|, |p|, |p|, 0, 0);
    assert (p + b)[|p|..] == b;
  }

  /** Where no match starts, the scan moves on without cutting. */
  lemma {:induction false} SplitBlankLinesSkip(s: string, segStart: nat, i: nat, c: nat)
    requires segStart <= i <= c <= |s|
    requires forall k :: i <= k < c ==> BlankLineAt(s, k).None?
    ensures SplitBlankLines(s, segStart, i) == SplitBlankLines(s, segStart, c)
    decreases c - i
  {
    if i < c {
      SplitBlankLinesNoCutStep(s, segStart, i);
      SplitBlankLinesSkip(s, segStart, i + 1, c);
    }
  }

  /** A non-blank text without a blank line is one paragraph. */
  lemma OneParagraph(a: string)
    requires a != [] && IsStripped(a) && NoBlankLine(a)
    ensures SplitParagraphs(a) == [a]
  {
    StripIdentity(a);
    SplitBlankLinesSkip(a, 0, 0, |a|);
    assert a[0..] == a;
    assert RStripNonBlank([a]) == [RStrip(a)] + RStripNonBlank([]);
  }

  /** A blank-line separator followed by a non-space is one whole match. */
  lemma BlankLineSepMatch(sep: string, b: string)
    requires IsBlankLineSep(sep) && (b == [] || !IsSpace(b[0]))
    ensures BlankLineAt(sep + b, 0) == Some(|sep|)
  {
    var t := sep + b;
    var k := if sep[0] == '\n' then 1 else 2;
    assert LineBreakAt(t, 0) == Some(k - 1);
    assert t[k..] == sep[k..] + b;
    LeadingSpacesOfSpaces(sep[k..], b);
    assert RunEnd(t, k) == |sep|;
    assert t[|sep| - 1] == '\n';
  }

  /** The blank-line scan of `a + sep + b` cuts once at the separator, then
      goes on as the scan of `b` alone. */
  lemma BlankLinesJoin(a: string, sep: string, b: string)
    requires a != [] && IsStripped(a) && NoBlankLine(a)
    requires IsBlankLineSep(sep)
    requires b != [] && IsStripped(b)
    ensures SplitBlankLines(a + sep + b, 0, 0) == [a] + SplitBlankLines(b, 0, 0)
  {
    var t := sep + b;
    var e := |a| + |sep|;
    NoBlankLineBefore(a, t);
    SplitBlankLinesSkip(a + t, 0, 0, |a|);
    BlankLineSepAfter(a, sep, b);
    SplitBlankLinesCutStep(a + t, 0, |a|, e);
    assert (a + t)[0..|a|] == a;
    assert SplitBlankLines(a + t, 0, 0) == [a] + SplitBlankLines(a + t, e, e);
    var p := a + sep;
    assert a + t == p + b && e == |p|;
    SplitBlankLinesAfter(p, b);
  }

  /** After any prefix, the separator is still one whole match. */
  lemma BlankLineSepAfter(a: string, sep: string, b: string)
    requires IsBlankLineSep(sep) && (b == [] || !IsSpace(b[0]))
    ensures BlankLineAt(a + (sep + b), |a|) == Some(|a| + |sep|)
  {
    var s := a + (sep + b);
    assert s[|a|..] == sep + b;
    BlankLineSepMatch(sep, b);
    BlankLineAtDrop(s, |a|, 0, |a|);
  }

  /** A prefix with no blank line, ending in a non-space, has no match in any text it begins. */
  lemma NoBlankLineBefore(a: string, t: string)
    requires a != [] && IsStripped(a) && NoBlankLine(a)
    ensures forall k :: 0 <= k < |a| ==> BlankLineAt(a + t, k).None?
  {
    forall k | 0 <= k < |a| ensures BlankLineAt(a + t, k).None? {
      BlankLineAtPrefix(a, t, k);
    }
  }

  /** A blank line separates two paragraphs: the text before it, when it holds
      no blank line itself, is the first paragraph, and the paragraphs of the
      text after it follow. */
  lemma ParagraphsJoin(a: string, sep: string, b: string)
    requires a != [] && IsStripped(a) && NoBlankLine(a)
    requires IsBlankLineSep(sep)
    requires b != [] && IsStripped(b)
    ensures SplitParagraphs(a + sep + b) == [a] + SplitParagraphs(b)
  {
    var s := a + sep + b;
    assert s[0] == a[0] && s[|s| - 1] == b[|b| - 1];
    StripIdentity(s);
    StripIdentity(b);
    StripIdentity(a);
    BlankLinesJoin(a, sep, b);
    var rest := SplitBlankLines(b, 0, 0);
    assert ([a] + rest)[1..] == rest;
  }

  // ----------------------------------------------------------- Sentence split

  predicate IsTerminal(c: char) { c == '.' || c == '?' || c == '!' || c == ';' || c == ':' }

  predicate HasTerminal(s: string) { exists i :: 0 <= i < |s| && IsTerminal(s[i]) }

  /** Every piece but the last is non-empty and ends with a terminal mark. */
  predicate TerminalsButLast(ps: seq<string>)
  {
    forall k :: 0 <= k < |ps| - 1 ==> ps[k] != [] && IsTerminal(ps[k][|ps[k]| - 1])
  }

  /** The end of a match of `(?<=[.?!;:])\s+` starting at i, if any. */
  function SentenceBreakAt(s: string, i: nat): (r: Option<nat>)
    requires i < |s|
    ensures r.Some? ==> i < r.value <= |s| && 0 < i && IsTerminal(s[i - 1])
    ensures r.Some? ==> r.value == |s| || !IsSpace(s[r.value])
  {
    if 0 < i && IsTerminal(s[i - 1]) && IsSpace(s[i]) then Some(RunEnd(s, i)) else None
  }

  /** `c` is where the leftmost terminal mark followed by whitespace at or after `i` is cut. */
  predicate FirstSentenceBreak(s: string, i: nat, c: int)
  {
    i <= c < |s| && SentenceBreakAt(s, c).Some? && forall m :: i <= m < c ==> SentenceBreakAt(s, m).None?
  }

  /** `re.split(r'(?<=[\.\?\!\;\:])\s+', s)` scanned from i; the current segment
      began at segStart. */
  function SplitSentenceBreaks(s: string, segStart: nat, i: nat): (parts: seq<string>)
    requires segStart <= i <= |s|
    requires segStart == 0 || IsSpace(s[segStart - 1])
    ensures parts != []
    ensures TerminalsButLast(parts)
    decreases |s| - i
  {
    if i == |s| then [s[segStart..]]
    else match SentenceBreakAt(s, i)
      case Some(e) =>
        assert segStart != i by { assert !IsSpace(s[i - 1]); }
        var rest := SplitSentenceBreaks(s, e, e);
        BreakHere(s, segStart, i, rest);
        [s[segStart..i]] + rest
      case None => SplitSentenceBreaks(s, segStart, i + 1)
  }

  /** A cut at `i`: the segment up to `i` ends with the terminal mark and is followed by the parts after the cut. */
  lemma BreakHere(s: string, segStart: nat, i: nat, rest: seq<string>)
    requires segStart < i < |s| && SentenceBreakAt(s, i).Some?
    requires rest != [] && TerminalsButLast(rest)
    ensures TerminalsButLast([s[segStart..i]] + rest)
  {
    var head := s[segStart..i];
    assert head[|head| - 1] == s[i - 1];
    var parts := [head] + rest;
    assert forall k :: 1 <= k < |parts| - 1 ==> parts[k] == rest[k - 1];
  }

  /** Where the sentence split cuts: the segment is the only part when no
      terminal mark followed by whitespace lies at or after `i`; otherwise it is
      cut just after the leftmost one, and the scan resumes past the whitespace. */
  lemma SplitSentenceBreaksCuts(s: string, segStart: nat, i: nat)
    requires segStart <= i <= |s| && (segStart == 0 || IsSpace(s[segStart - 1]))
    ensures var parts := SplitSentenceBreaks(s, segStart, i);
      (|parts| == 1 <==> forall k :: i <= k < |s| ==> SentenceBreakAt(s, k).None?) &&
      (|parts| == 1 ==> parts[0] == s[segStart..]) &&
      (|parts| > 1 ==> exists c :: FirstSentenceBreak(s, i, c) && parts[0] == s[segStart..c])
  {
    SentenceCutsHold(s, segStart, i);
  }

  /** The statement of `SplitSentenceBreaksCuts`. */
  ghost predicate SentenceCutsAsStated(s: string, segStart: nat, i: nat)
    requires segStart <= i <= |s| && (segStart == 0 || IsSpace(s[segStart - 1]))
  {
    var parts := SplitSentenceBreaks(s, segStart, i);
    (|parts| == 1 <==> forall k :: i <= k < |s| ==> SentenceBreakAt(s, k).None?) &&
    (|parts| == 1 ==> parts[0] == s[segStart..]) &&
    (|parts| > 1 ==> exists c :: FirstSentenceBreak(s, i, c) && parts[0] == s[segStart..c])
  }

  /** `SplitSentenceBreaksCuts` by induction on the scan position. */
  lemma {:induction false} SentenceCutsHold(s: string, segStart: nat, i: nat)
    requires segStart <= i <= |s| && (segStart == 0 || IsSpace(s[segStart - 1]))
    ensures SentenceCutsAsStated(s, segStart, i)
    decreases |s| - i, 1
  {
    if i == |s| {
      SplitSentenceBreaksEndStep(s, segStart);
    } else if SentenceBreakAt(s, i).None? {
      SentenceCutsSkip(s, segStart, i);
    } else {
      var e := SentenceBreakAt(s, i).value;
      SplitSentenceBreaksCutStep(s, segStart, i, e);
      assert FirstSentenceBreak(s, i, i);
    }
  }

  /** The step of `SentenceCutsHold` where no cut lies at `i`. */
  lemma {:induction false} SentenceCutsSkip(s: string, segStart: nat, i: nat)
    requires segStart <= i < |s| && (segStart == 0 || IsSpace(s[segStart - 1]))
    requires SentenceBreakAt(s, i).None?
    ensures SentenceCutsAsStated(s, segStart, i)
    decreases |s| - i, 0
  {
    SplitSentenceBreaksNoCutStep(s, segStart, i);
    SentenceCutsHold(s, segStart, i + 1);
    var parts := SplitSentenceBreaks(s, segStart, i + 1);
    if |parts| > 1 {
      var c :| FirstSentenceBreak(s, i + 1, c) && parts[0] == s[segStart..c];
      assert FirstSentenceBreak(s, i, c);
    }
  }

  /** `[p.strip() for p in parts if p.strip()]` */
  function StripNonBlank(parts: seq<string>): (r: seq<string>)
    ensures |r| <= |parts|
    ensures forall k :: 0 <= k < |r| ==> r[k] != [] && IsStripped(r[k])
  {
    if parts == [] then []
    else (if Strip(parts[0]) != [] then [Strip(parts[0])] else []) + StripNonBlank(parts[1..])
  }

  /** Cleaning a list one more item long cleans that item and appends it. */
  lemma {:induction false} StripNonBlankSnoc(parts: seq<string>, x: string)
    ensures StripNonBlank(parts + [x]) == StripNonBlank(parts) + (if Strip(x) != [] then [Strip(x)] else [])
  {
    if parts != [] {
      assert (parts + [x])[1..] == parts[1..] + [x];
      StripNonBlankSnoc(parts[1..], x);
    } else {
      assert ([x])[1..] == [];
    }
  }

  /** The same, for one more item of a list read left to right. */
  lemma StripNonBlankStep(parts: seq<string>, j: int)
    requires 0 <= j < |parts|
    ensures StripNonBlank(parts[..j + 1]) == StripNonBlank(parts[..j]) + (if Strip(parts[j]) != [] then [Strip(parts[j])] else [])
  {
    assert parts[..j + 1] == parts[..j] + [parts[j]];
    StripNonBlankSnoc(parts[..j], parts[j]);
  }

  /** `split_into_sentences` */
  function SplitIntoSentences(text: string): (r: seq<string>)
  {
    if text == "" || !HasTerminal(text) then [Strip(text)]
    else StripNonBlank(SplitSentenceBreaks(text, 0, 0))
  }

  /** Cleaning keeps the terminal mark that ends every part but the last. */
  lemma {:induction false} StripNonBlankKeepsTerminals(parts: seq<string>)
    requires TerminalsButLast(parts)
    ensures TerminalsButLast(StripNonBlank(parts))
  {
    if |parts| > 1 {
      StripNonBlankKeepsTerminals(parts[1..]);
      StripKeepsLast(parts[0]);
      var rest := StripNonBlank(parts[1..]);
      assert TerminalsButLast(rest);
      var r := StripNonBlank(parts);
      assert r == [Strip(parts[0])] + rest;
      var x := Strip(parts[0]);
      assert IsTerminal(parts[0][|parts[0]| - 1]);
      assert IsTerminal(x[|x| - 1]);
      forall k | 0 <= k < |r| - 1 ensures r[k] != [] && IsTerminal(r[k][|r[k]| - 1]) {
        if k > 0 { assert r[k] == rest[k - 1]; } else { assert r[k] == x; }
      }
    }
  }

  /** Sentence splitting: without a terminal mark the whole text, stripped, is the
      only sentence (possibly ""); otherwise every sentence is non-empty and stripped
      and every sentence but the last ends with a terminal mark. */
  lemma SentencesShape(text: string)
    ensures !HasTerminal(text) ==> SplitIntoSentences(text) == [Strip(text)]
    ensures HasTerminal(text) ==> var r := SplitIntoSentences(text);
      (forall k :: 0 <= k < |r| ==> r[k] != [] && IsStripped(r[k])) &&
      TerminalsButLast(r)
  {
    if HasTerminal(text) {
      StripNonBlankKeepsTerminals(SplitSentenceBreaks(text, 0, 0));
    }
  }

  /** No terminal mark followed by whitespace anywhere in `a`. */
  predicate NoSentenceBreak(a: string)
  {
    forall i :: 0 <= i < |a| ==> SentenceBreakAt(a, i).None?
  }

  /** A cut at `i`: the segment ends there and the scan restarts after the whitespace. */
  lemma SplitSentenceBreaksCutStep(s: string, segStart: nat, i: nat, e: nat)
    requires segStart <= i < |s| && (segStart == 0 || IsSpace(s[segStart - 1]))
    requires SentenceBreakAt(s, i) == Some(e)
    ensures IsSpace(s[e - 1])
    ensures SplitSentenceBreaks(s, segStart, i) == [s[segStart..i]] + SplitSentenceBreaks(s, e, e)
  {
  }

  /** No cut at `i`: the scan moves on. */
  lemma SplitSentenceBreaksNoCutStep(s: string, segStart: nat, i: nat)
    requires segStart <= i < |s| && (segStart == 0 || IsSpace(s[segStart - 1]))
    requires SentenceBreakAt(s, i).None?
    ensures SplitSentenceBreaks(s, segStart, i) == SplitSentenceBreaks(s, segStart, i + 1)
  {
  }

  /** At the end of the text the open segment is the last sentence. */
  lemma SplitSentenceBreaksEndStep(s: string, segStart: nat)
    requires segStart <= |s| && (segStart == 0 || IsSpace(s[segStart - 1]))
    ensures SplitSentenceBreaks(s, segStart, |s|) == [s[segStart..]]
  {
  }

  /** Where no cut lies, the scan moves on without cutting. */
  lemma {:induction false} SplitSentenceBreaksSkip(s: string, segStart: nat, i: nat, c: nat)
    requires segStart <= i <= c <= |s| && (segStart == 0 || IsSpace(s[segStart - 1]))
    requires forall k :: i <= k < c ==> SentenceBreakAt(s, k).None?
    ensures SplitSentenceBreaks(s, segStart, i) == SplitSentenceBreaks(s, segStart, c)
    decreases c - i
  {
    if i < c {
      SplitSentenceBreaksNoCutStep(s, segStart, i);
      SplitSentenceBreaksSkip(s, segStart, i + 1, c);
    }
  }

  /** Inside `a`, whether a cut lies at `k` does not depend on what follows `a`. */
  lemma SentenceBreakAtPrefix(a: string, t: string, k: nat)
    requires k < |a|
    ensures SentenceBreakAt(a + t, k).None? == SentenceBreakAt(a, k).None?
  {
    assert (a + t)[k] == a[k];
    if 0 < k { assert (a + t)[k - 1] == a[k - 1]; }
  }

  /** A prefix with no cut has no cut in any text it begins. */
  lemma NoSentenceBreakBefore(a: string, t: string)
    requires NoSentenceBreak(a)
    ensures forall k :: 0 <= k < |a| ==> SentenceBreakAt(a + t, k).None?
  {
    forall k | 0 <= k < |a| ensures SentenceBreakAt(a + t, k).None? {
      SentenceBreakAtPrefix(a, t, k);
    }
  }

  /** Past the first `o` characters, when a space (or nothing) precedes them, a
      cut is the cut in the rest, shifted. */
  lemma SentenceBreakAtDrop(s: string, o: nat, i: nat, c: nat)
    requires o <= |s| && i < |s| - o && c == o + i && (o == 0 || IsSpace(s[o - 1]))
    ensures SentenceBreakAt(s, c) == Shifted(SentenceBreakAt(s[o..], i), o)
  {
    assert s[o..][i] == s[o + i];
    if 0 < i {
      assert s[o..][i - 1] == s[o + i - 1];
      RunEndDrop(s, o, i);
    }
  }

  /** Whitespace (or nothing) before `segStart` in the rest is whitespace (or
      nothing) before `a == o + segStart` in `s`. */
  lemma SpaceBeforeDrop(s: string, o: nat, segStart: nat, a: nat)
    requires o <= |s| && segStart <= |s| - o && a == o + segStart && (o == 0 || IsSpace(s[o - 1]))
    requires segStart == 0 || IsSpace(s[o..][segStart - 1])
    ensures a == 0 || IsSpace(s[a - 1])
  {
    if segStart > 0 {
      assert s[o..][segStart - 1] == s[a - 1];
    }
  }

  /** The step of `SplitSentenceBreaksShift` where no cut lies at `c`. */
  lemma {:induction false} SplitSentenceBreaksShiftNoCut(s: string, o: nat, a: nat, c: nat, segStart: nat, i: nat)
    requires o <= |s| && segStart <= i < |s| - o && a == o + segStart && c == o + i && (o == 0 || IsSpace(s[o - 1]))
    requires segStart == 0 || IsSpace(s[o..][segStart - 1])
    requires SentenceBreakAt(s[o..], i).None? && SentenceBreakAt(s, c).None?
    ensures a == 0 || IsSpace(s[a - 1])
    ensures SplitSentenceBreaks(s, a, c) == SplitSentenceBreaks(s[o..], segStart, i)
    decreases |s| - c, 0
  {
    SpaceBeforeDrop(s, o, segStart, a);
    SplitSentenceBreaksShift(s, o, a, c + 1, segStart, i + 1);
    SplitSentenceBreaksNoCutStep(s, a, c);
    SplitSentenceBreaksNoCutStep(s[o..], segStart, i);
  }

  /** The step of `SplitSentenceBreaksShift` where a cut lies at `c`. */
  lemma {:induction false} SplitSentenceBreaksShiftCut(s: string, o: nat, a: nat, c: nat, segStart: nat, i: nat, e: nat, d: nat)
    requires o <= |s| && segStart <= i < |s| - o && a == o + segStart && c == o + i && d == o + e
    requires o == 0 || IsSpace(s[o - 1])
    requires segStart == 0 || IsSpace(s[o..][segStart - 1])
    requires SentenceBreakAt(s[o..], i) == Some(e) && SentenceBreakAt(s, c) == Some(d)
    ensures a == 0 || IsSpace(s[a - 1])
    ensures SplitSentenceBreaks(s, a, c) == SplitSentenceBreaks(s[o..], segStart, i)
    decreases |s| - c, 0
  {
    SpaceBeforeDrop(s, o, segStart, a);
    SplitSentenceBreaksCutStep(s[o..], segStart, i, e);
    SplitSentenceBreaksShift(s, o, d, d, e, e);
    SplitSentenceBreaksCutStep(s, a, c, d);
    SliceDrop(s, o, segStart, i, a, c);
  }

  /** The end of the scan of `SplitSentenceBreaksShift`. */
  lemma SplitSentenceBreaksShiftEnd(s: string, o: nat, a: nat, segStart: nat)
    requires o <= |s| && segStart <= |s| - o && a == o + segStart && (o == 0 || IsSpace(s[o - 1]))
    requires segStart == 0 || IsSpace(s[o..][segStart - 1])
    ensures a == 0 || IsSpace(s[a - 1])
    ensures SplitSentenceBreaks(s, a, |s|) == SplitSentenceBreaks(s[o..], segStart, |s| - o)
  {
    SpaceBeforeDrop(s, o, segStart, a);
    assert s[a..] == s[o..][segStart..];
    SplitSentenceBreaksEndStep(s, a);
    SplitSentenceBreaksEndStep(s[o..], segStart);
  }

  /** Past the first `o` characters, when a space (or nothing) precedes them, the
      scan from `a == o + segStart` and `c == o + i` cuts the rest as the scan of
      the rest alone from `segStart` and `i`. */
  lemma {:induction false} SplitSentenceBreaksShift(s: string, o: nat, a: nat, c: nat, segStart: nat, i: nat)
    requires o <= |s| && segStart <= i <= |s| - o && a == o + segStart && c == o + i && (o == 0 || IsSpace(s[o - 1]))
    requires segStart == 0 || IsSpace(s[o..][segStart - 1])
    ensures a == 0 || IsSpace(s[a - 1])
    ensures SplitSentenceBreaks(s, a, c) == SplitSentenceBreaks(s[o..], segStart, i)
    decreases |s| - c, 1
  {
    SpaceBeforeDrop(s, o, segStart, a);
    if c == |s| {
      SplitSentenceBreaksShiftEnd(s, o, a, segStart);
    } else {
      SentenceBreakAtDrop(s, o, i, c);
      match SentenceBreakAt(s[o..], i)
      case Some(e) => SplitSentenceBreaksShiftCut(s, o, a, c, segStart, i, e, o + e);
      case None => SplitSentenceBreaksShiftNoCut(s, o, a, c, segStart, i);
    }
  }

  /** A terminal mark then whitespace then a non-space: one cut, ending at the non-space. */
  lemma SentenceSepAfter(a: string, w: string, b: string)
    requires a != [] && IsTerminal(a[|a| - 1])
    requires w != [] && AllSpace(w) && (b == [] || !IsSpace(b[0]))
    ensures SentenceBreakAt(a + (w + b), |a|) == Some(|a| + |w|)
  {
    var s := a + (w + b);
    assert s[|a| - 1] == a[|a| - 1] && s[|a|] == w[0];
    assert s[|a|..] == w + b;
    LeadingSpacesOfSpaces(w, b);
  }

  /** The sentence scan of `a + w + b` cuts once after `a`, then goes on as the
      scan of `b` alone. */
  lemma SentenceBreaksJoin(a: string, w: string, b: string)
    requires a != [] && IsTerminal(a[|a| - 1]) && NoSentenceBreak(a)
    requires w != [] && AllSpace(w) && (b == [] || !IsSpace(b[0]))
    ensures SplitSentenceBreaks(a + w + b, 0, 0) == [a] + SplitSentenceBreaks(b, 0, 0)
  {
    var t := w + b;
    var e := |a| + |w|;
    NoSentenceBreakBefore(a, t);
    SplitSentenceBreaksSkip(a + t, 0, 0, |a|);
    SentenceSepAfter(a, w, b);
    SplitSentenceBreaksCutStep(a + t, 0, |a|, e);
    assert (a + t)[0..|a|] == a;
    var p := a + w;
    assert a + t == p + b && e == |p|;
    SplitSentenceBreaksAfter(p, b);
  }

  /** The sentence scan of `b` resumed past a prefix ending in a space is the scan of `b` alone. */
  lemma SplitSentenceBreaksAfter(p: string, b: string)
    requires p != [] && IsSpace(p[|p| - 1])
    ensures SplitSentenceBreaks(p + b, |p|, |p|) == SplitSentenceBreaks(b, 0, 0)
  {
    assert (p + b)[|p| - 1] == p[|p| - 1];
    SplitSentenceBreaksShift(p + b, |p|, |p|, |p|, 0, 0);
    assert (p + b)[|p|..] == b;
  }

  /** A text with no terminal mark followed by whitespace is one sentence. */
  lemma OneSentenceScan(a: string)
    requires NoSentenceBreak(a)
    ensures SplitSentenceBreaks(a, 0, 0) == [a]
  {
    SplitSentenceBreaksSkip(a, 0, 0, |a|);
    SplitSentenceBreaksEndStep(a, 0);
    assert a[0..] == a;
  }

  /** The sentences of a text that begins with a non-space: its stripped scan. */
  lemma SentencesOfNonBlank(b: string)
    requires b != [] && !IsSpace(b[0])
    ensures SplitIntoSentences(b) == StripNonBlank(SplitSentenceBreaks(b, 0, 0))
  {
    if !HasTerminal(b) {
      SplitSentenceBreaksCuts(b, 0, 0);
      assert b[0..] == b;
      assert !IsSpace(b[0]);
      assert StripNonBlank([b]) == [Strip(b)] + StripNonBlank([]);
    }
  }

  /** A stripped text with no terminal mark followed by whitespace is its only sentence. */
  lemma OneSentence(a: string)
    requires a != [] && IsStripped(a) && NoSentenceBreak(a)
    ensures SplitIntoSentences(a) == [a]
  {
    StripIdentity(a);
    OneSentenceScan(a);
    SentencesOfNonBlank(a);
    assert StripNonBlank([a]) == [a] + StripNonBlank([]);
  }

  /** A terminal mark followed by whitespace separates two sentences: the text
      before the whitespace, when it holds no such cut itself, is the first
      sentence, and the sentences of the text after it follow. */
  lemma SentencesJoin(a: string, w: string, b: string)
    requires a != [] && IsStripped(a) && IsTerminal(a[|a| - 1]) && NoSentenceBreak(a)
    requires w != [] && AllSpace(w)
    requires b != [] && !IsSpace(b[0])
    ensures SplitIntoSentences(a + w + b) == [a] + SplitIntoSentences(b)
  {
    var s := a + w + b;
    assert s[|a| - 1] == a[|a| - 1] && s[0] == a[0];
    SentenceBreaksJoin(a, w, b);
    SentencesOfNonBlank(s);
    SentencesOfNonBlank(b);
    StripIdentity(a);
    var rest := SplitSentenceBreaks(b, 0, 0);
    assert ([a] + rest)[1..] == rest;
  }

  // ---------------------------------------------------- Similarity wrapper

  /** `similarity(a, b)`: the edge cases around SequenceMatcher; `ratio` stands
      for `SequenceMatcher(None, x, y).ratio()` on the normalised texts. */
  function Similarity(a: Option<string>, b: Option<string>, ratio: (string, string) -> real): (r: real)
    ensures (a == None || a == Some("")) && (b == None || b == Some("")) ==> r == 1.0
    ensures (!((a == None || a == Some("")) && (b == None || b == Some(""))) &&
             (NormalizeText(a) == "" || NormalizeText(b) == "")) ==> r == 0.0
    ensures NormalizeText(a) != "" && NormalizeText(b) != "" ==> r == ratio(NormalizeText(a), NormalizeText(b))
  {
    if (a == None || a == Some("")) && (b == None || b == Some("")) then 1.0
    else
      var an := NormalizeText(a);
      var bn := NormalizeText(b);
      if an == "" || bn == "" then 0.0 else ratio(an, bn)
  }

  /** Two non-empty punctuation-only strings are 0.0 apart, not 1.0. */
  lemma PunctuationOnlySimilarity(a: string, b: string, ratio: (string, string) -> real)
    requires a != "" && b != ""
    requires forall i :: 0 <= i < |a| ==> !Kept(a[i])
    requires forall i :: 0 <= i < |b| ==> !Kept(b[i])
    ensures Similarity(Some(a), Some(b), ratio) == 0.0
  {
    PunctuationOnlyNormalizesEmpty(a);
  }

  // ------------------------------------------------- Raw input/output fields

  /** What the JSON body may hold under `inputs` / `outputs`. */
  datatype RawField =
    | Absent                          // missing or null
    | Items(items: seq<Option<string>>) // a JSON list; null items allowed
    | Block(text: string)             // one text block

  /** `_ensure_inputs_list` and `_ensure_outputs_list` (the two are identical). */
  function EnsureList(field: RawField): (r: seq<string>)
    ensures forall k :: 0 <= k < |r| ==> IsParagraph(r[k])
    ensures field.Absent? ==> r == []
    ensures field.Items? ==> r == RStripItems(field.items)
    ensures field.Block? ==> r == SplitParagraphs(field.text)
  {
    match field
    case Absent => []
    case Items(items) => var r := RStripItems(items); r
    case Block(text) => ParagraphsAreNonBlank(text); SplitParagraphs(text)
  }

  /** `[i.rstrip() for i in items if i is not None and i.strip()]` */
  function RStripItems(items: seq<Option<string>>): (r: seq<string>)
    ensures forall k :: 0 <= k < |r| ==> IsParagraph(r[k])
    ensures |r| <= |items|
  {
    if items == [] then []
    else
      var head := match items[0]
        case None => []
        case Some(s) => if Strip(s) != [] then RStripShape(s); [RStrip(s)] else [];
      head + RStripItems(items[1..])
  }

  /** Cleaning a list one more item long: a non-blank item is kept as its `rstrip`
      after the ones before it; a blank or null item is dropped. */
  lemma {:induction false} RStripItemsSnoc(items: seq<Option<string>>, x: Option<string>)
    ensures x.None? ==> RStripItems(items + [x]) == RStripItems(items)
    ensures x.Some? ==> (RStripItems(items + [x]) ==
      RStripItems(items) + (if Strip(x.value) != [] then [RStrip(x.value)] else []))
  {
    if items != [] {
      assert (items + [x])[1..] == items[1..] + [x];
      assert (items + [x])[0] == items[0];
      RStripItemsSnoc(items[1..], x);
    } else {
      assert ([x])[1..] == [];
    }
  }

  /** The stripped, non-blank sentences of each paragraph, in document order:
      the `for para ... for s in split_into_sentences(para)` loops that create
      question rows and message pieces. Defined by its last paragraph so that a
      loop over the paragraphs extends it one step at a time. */
  function SentencePieces(paras: seq<string>): (r: seq<string>)
    ensures forall k :: 0 <= k < |r| ==> r[k] != [] && IsStripped(r[k])
  {
    if paras == [] then []
    else SentencePieces(paras[..|paras| - 1]) + StripNonBlank(SplitIntoSentences(paras[|paras| - 1]))
  }

  /** The pieces of one more paragraph come after the pieces of the ones before. */
  lemma SentencePiecesStep(paras: seq<string>, p: int)
    requires 0 <= p < |paras|
    ensures SentencePieces(paras[..p + 1]) == SentencePieces(paras[..p]) + StripNonBlank(SplitIntoSentences(paras[p]))
  {
    assert paras[..p + 1][..p] == paras[..p];
  }
}
