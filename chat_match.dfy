/**
 * The read side of the grouped Q&A service: cutting a chat message into
 * pieces, matching each piece against the stored questions, assembling the
 * chat reply, and the admin search over groups with its scope thresholds.
 */
module ChatMatch {
  import opened Common
  import opened Text
  import opened ChatText
  import opened ChatStore
  import opened Fuzzy

  // ---------------------------------------------------------- Message pieces

  /** The pieces of a chat message: every non-blank stripped sentence of every
      paragraph, in document order; nothing for an empty message. */
  function MessagePieces(message: string): (r: seq<string>)
    ensures message == "" ==> r == []
    ensures forall k :: 0 <= k < |r| ==> r[k] != [] && IsStripped(r[k])
  {
    if message == "" then [] else SentencePieces(SplitParagraphs(message))
  }

  // ------------------------------------------------------- The norm index

  /** What `norm_map` holds for a normal form: the group and the original text. */
  datatype Hit = Hit(groupId: int, question: string)

  /** `norm_list` (the keys in insertion order) and `norm_map`. */
  datatype NormIndex = NormIndex(keys: seq<string>, hits: map<string, Hit>)

  /** A question row as the index loop reads it: `question_norm`, then the
      group and the original text. */
  datatype Keyed = Keyed(norm: string, hit: Hit)

  /** `SELECT question_norm, question, group_id FROM questions`, in id order. */
  function KeyedRows(qs: seq<QuestionRow>): (r: seq<Keyed>)
    ensures |r| == |qs|
    ensures forall i :: 0 <= i < |qs| ==> r[i] == Keyed(Norm(qs[i]), Hit(qs[i].groupId, qs[i].question))
  {
    seq(|qs|, i requires 0 <= i < |qs| => Keyed(Norm(qs[i]), Hit(qs[i].groupId, qs[i].question)))
  }

  /** Row i is the first row carrying its non-empty normal form. */
  predicate FirstNorm(rows: seq<Keyed>, i: int)
    requires 0 <= i < |rows|
  {
    rows[i].norm != "" && forall j :: 0 <= j < i ==> rows[j].norm != rows[i].norm
  }

  /** The index built by the loop over the rows: empty normal forms are
      skipped and a normal form already present keeps its first row. */
  function IndexOf(rows: seq<Keyed>): (ix: NormIndex)
    ensures forall k :: k in ix.keys <==> k in ix.hits
    ensures forall k :: k in ix.keys ==> k != ""
  {
    if rows == [] then NormIndex([], map[])
    else
      var prev := IndexOf(rows[..|rows| - 1]);
      var r := rows[|rows| - 1];
      if r.norm == "" || r.norm in prev.hits then prev
      else NormIndex(prev.keys + [r.norm], prev.hits[r.norm := r.hit])
  }

  /** The index lists every non-empty normal form once, and maps it to the
      first row that carries it. */
  lemma {:induction false} IndexFacts(rows: seq<Keyed>)
    ensures NoDuplicates(IndexOf(rows).keys)
    ensures forall i :: 0 <= i < |rows| && rows[i].norm != "" ==> rows[i].norm in IndexOf(rows).hits
    ensures forall k :: k in IndexOf(rows).hits ==>
              exists i :: 0 <= i < |rows| && FirstNorm(rows, i) && rows[i].norm == k && IndexOf(rows).hits[k] == rows[i].hit
  {
    if rows != [] {
      var front := rows[..|rows| - 1];
      IndexFacts(front);
      IndexStep(rows);
    }
  }

  /** One step of the index loop keeps the facts above, given them for the rows before. */
  lemma IndexStep(rows: seq<Keyed>)
    requires rows != []
    requires var front := rows[..|rows| - 1];
      NoDuplicates(IndexOf(front).keys) &&
      (forall i :: 0 <= i < |front| && front[i].norm != "" ==> front[i].norm in IndexOf(front).hits) &&
      (forall k :: k in IndexOf(front).hits ==>
         exists i :: 0 <= i < |front| && FirstNorm(front, i) && front[i].norm == k && IndexOf(front).hits[k] == front[i].hit)
    ensures NoDuplicates(IndexOf(rows).keys)
    ensures forall i :: 0 <= i < |rows| && rows[i].norm != "" ==> rows[i].norm in IndexOf(rows).hits
    ensures forall k :: k in IndexOf(rows).hits ==>
              exists i :: 0 <= i < |rows| && FirstNorm(rows, i) && rows[i].norm == k && IndexOf(rows).hits[k] == rows[i].hit
  {
    var front, last := rows[..|rows| - 1], rows[|rows| - 1];
    var prev, ix := IndexOf(front), IndexOf(rows);
    assert forall i :: 0 <= i < |front| ==> rows[i] == front[i];
    assert forall i :: 0 <= i < |front| && FirstNorm(front, i) ==> FirstNorm(rows, i);
    if last.norm == "" || last.norm in prev.hits {
      assert ix == prev;
    } else {
      assert ix.keys == prev.keys + [last.norm];
      assert FirstNorm(rows, |rows| - 1) by {
        forall j | 0 <= j < |rows| - 1 ensures rows[j].norm != last.norm {
          assert front[j].norm == "" || front[j].norm in prev.hits;
        }
      }
      forall k | k in ix.hits
        ensures exists i :: 0 <= i < |rows| && FirstNorm(rows, i) && rows[i].norm == k && ix.hits[k] == rows[i].hit
      {
        if k != last.norm {
          var i :| 0 <= i < |front| && FirstNorm(front, i) && front[i].norm == k && prev.hits[k] == front[i].hit;
          assert FirstNorm(rows, i) && rows[i].norm == k;
        }
      }
    }
  }

  // -------------------------------------------------------------- Matching

  /** One entry of `results`: the piece and, when matched, the group and question. */
  datatype Match = Match(piece: string, hit: Option<Hit>)

  /** The match for one piece: `get_close_matches(user_norm, norm_list, n=1,
      cutoff=0.5)` looked up in `norm_map`; `ratio` is `SequenceMatcher.ratio`. */
  function MatchPiece(ix: NormIndex, piece: string, ratio: (string, string) -> real): (m: Match)
    requires forall k :: k in ix.keys ==> k in ix.hits
    ensures m.piece == piece
  {
    if ix.keys == [] then Match(piece, None)
    else match CloseMatch(NormalizeText(Some(piece)), ix.keys, 0.5, ratio)
      case None => Match(piece, None)
      case Some(k) => Match(piece, Some(ix.hits[k]))
  }

  /** The results loop: one match per piece, in order. */
  function MatchAll(ix: NormIndex, pieces: seq<string>, ratio: (string, string) -> real): (r: seq<Match>)
    requires forall k :: k in ix.keys ==> k in ix.hits
    ensures |r| == |pieces|
  {
    if pieces == [] then []
    else MatchAll(ix, pieces[..|pieces| - 1], ratio) + [MatchPiece(ix, pieces[|pieces| - 1], ratio)]
  }

  lemma {:induction false} MatchAllAt(ix: NormIndex, pieces: seq<string>, ratio: (string, string) -> real, k: int)
    requires forall k :: k in ix.keys ==> k in ix.hits
    requires 0 <= k < |pieces|
    ensures MatchAll(ix, pieces, ratio)[k] == MatchPiece(ix, pieces[k], ratio)
  {
    if k < |pieces| - 1 {
      MatchAllAt(ix, pieces[..|pieces| - 1], ratio, k);
    }
  }

  /** `find_best_matches_for_message`. */
  function Matches(qs: seq<QuestionRow>, message: string, ratio: (string, string) -> real): (r: seq<Match>)
  {
    MatchAll(IndexOf(KeyedRows(qs)), MessagePieces(message), ratio)
  }

  /** An empty message has no matches; otherwise there is exactly one match per
      piece, in document order. */
  lemma MatchesPerPiece(qs: seq<QuestionRow>, message: string, ratio: (string, string) -> real)
    ensures message == "" ==> Matches(qs, message, ratio) == []
    ensures |Matches(qs, message, ratio)| == |MessagePieces(message)|
    ensures forall k :: 0 <= k < |MessagePieces(message)| ==>
              Matches(qs, message, ratio)[k] == MatchPiece(IndexOf(KeyedRows(qs)), MessagePieces(message)[k], ratio)
  {
    forall k | 0 <= k < |MessagePieces(message)|
      ensures Matches(qs, message, ratio)[k] == MatchPiece(IndexOf(KeyedRows(qs)), MessagePieces(message)[k], ratio)
    {
      MatchAllAt(IndexOf(KeyedRows(qs)), MessagePieces(message), ratio, k);
    }
  }

  /** A matched piece names the first row carrying the best-scoring normal form:
      that form scores at least 0.5 and beats every other stored form that does
      (ties go to the greater string). A piece is unmatched exactly when every
      stored non-empty normal form scores below 0.5. */
  lemma MatchPieceFacts(rows: seq<Keyed>, piece: string, ratio: (string, string) -> real)
    ensures var m, word := MatchPiece(IndexOf(rows), piece, ratio), NormalizeText(Some(piece));
      m.hit.Some? ==>
        exists i :: 0 <= i < |rows| && FirstNorm(rows, i) && m.hit.value == rows[i].hit &&
          ratio(rows[i].norm, word) >= 0.5 &&
          forall j :: 0 <= j < |rows| && rows[j].norm != "" && ratio(rows[j].norm, word) >= 0.5 ==>
            AtLeast(ratio(rows[i].norm, word), rows[i].norm, ratio(rows[j].norm, word), rows[j].norm)
    ensures var m, word := MatchPiece(IndexOf(rows), piece, ratio), NormalizeText(Some(piece));
      m.hit.None? <==> forall j :: 0 <= j < |rows| && rows[j].norm != "" ==> ratio(rows[j].norm, word) < 0.5
  {
    var ix, word := IndexOf(rows), NormalizeText(Some(piece));
    IndexFacts(rows);
    if ix.keys != [] {
      var best := CloseMatch(word, ix.keys, 0.5, ratio);
      if best.Some? {
        var k := best.value;
        var i :| 0 <= i < |rows| && FirstNorm(rows, i) && rows[i].norm == k && ix.hits[k] == rows[i].hit;
        forall j | 0 <= j < |rows| && rows[j].norm != "" && ratio(rows[j].norm, word) >= 0.5
          ensures AtLeast(ratio(rows[i].norm, word), rows[i].norm, ratio(rows[j].norm, word), rows[j].norm)
        {
          assert rows[j].norm in ix.keys;
        }
      } else {
        forall j | 0 <= j < |rows| && rows[j].norm != "" ensures ratio(rows[j].norm, word) < 0.5 {
          assert rows[j].norm in ix.keys;
        }
      }
    }
  }

  /** With no stored question that has a non-empty normal form, no piece matches. */
  lemma NoTriggersNoMatches(qs: seq<QuestionRow>, message: string, ratio: (string, string) -> real)
    requires forall q :: q in qs ==> Norm(q) == ""
    ensures forall k :: 0 <= k < |Matches(qs, message, ratio)| ==> Matches(qs, message, ratio)[k].hit.None?
  {
    var pieces, rows := MessagePieces(message), KeyedRows(qs);
    assert forall j :: 0 <= j < |rows| ==> rows[j].norm == "" by {
      forall j | 0 <= j < |rows| ensures rows[j].norm == "" { assert qs[j] in qs; }
    }
    forall k | 0 <= k < |pieces| ensures Matches(qs, message, ratio)[k].hit.None? {
      MatchAllAt(IndexOf(rows), pieces, ratio, k);
      MatchPieceFacts(rows, pieces[k], ratio);
    }
  }

  // ------------------------------------------------------------ Chat reply

  const UnansweredReply := "I know that question but don't have answers yet."
  const UnknownReply := "I don't know that yet. Add it in Q&A."
  const ReplySeparator := "\n\n"

  /** Python truthiness of the matched group id: `if gid:` rejects None and 0. */
  predicate Matched(hit: Option<Hit>) { hit.Some? && hit.value.groupId != 0 }

  /** `{'text': p, 'matched': bool(m)}` */
  datatype PieceFlag = PieceFlag(text: string, matched: bool)

  /** The JSON body of `/api/chat`: the 400 error, or the reply and the pieces. */
  datatype ChatReply = EmptyMessage | Reply(reply: string, pieces: seq<PieceFlag>)

  /** `reply` is a reply the loop may give for match `m`: one answer of the
      matched group (chosen at random), or the fixed fallback text. */
  predicate ReplyFits(answers: seq<AnswerRow>, m: Match, reply: string)
  {
    if Matched(m.hit) then
      var texts := AnswerTexts(AnswersOf(answers, m.hit.value.groupId));
      if texts == [] then reply == UnansweredReply else reply in texts
    else reply == UnknownReply
  }

  function Flags(ms: seq<Match>): (r: seq<PieceFlag>)
    ensures |r| == |ms|
    ensures forall k :: 0 <= k < |ms| ==> r[k] == PieceFlag(ms[k].piece, Matched(ms[k].hit))
  {
    seq(|ms|, k requires 0 <= k < |ms| => PieceFlag(ms[k].piece, Matched(ms[k].hit)))
  }

  /** The text of `data.get('message') or ''`, stripped. */
  function MessageText(message: Option<string>): string
  {
    match message
    case None => ""
    case Some(m) => Strip(m)
  }

  /** Every reply fits its match, so with no usable stored question every reply
      is the "don't know" text, one per piece. */
  lemma NoTriggersUnknownReplies(qs: seq<QuestionRow>, answers: seq<AnswerRow>, message: string,
                                 ratio: (string, string) -> real, replies: seq<string>)
    requires forall q :: q in qs ==> Norm(q) == ""
    requires |replies| == |Matches(qs, message, ratio)|
    requires forall k :: 0 <= k < |replies| ==> ReplyFits(answers, Matches(qs, message, ratio)[k], replies[k])
    ensures |replies| == |MessagePieces(message)|
    ensures forall k :: 0 <= k < |replies| ==> replies[k] == UnknownReply
  {
    NoTriggersNoMatches(qs, message, ratio);
  }

  // ------------------------------------------------------- Admin search

  const GroupThreshold: real := 0.25
  const IoThreshold: real := 0.45

  /** Python's `max(a, b)`. */
  function Max(a: real, b: real): real { if b > a then b else a }

  /** `g.get('name') or ''` */
  function NameOf(g: GroupView): string
  {
    match g.name
    case None => ""
    case Some(n) => n
  }

  /** `acc` raised by the similarity of `q` to each of `texts`, as the loops
      `best = max(best, similarity(q, t))` compute it. */
  function BestOver(q: string, texts: seq<string>, acc: real, sim: (string, string) -> real): (r: real)
    ensures r >= acc
    ensures forall i :: 0 <= i < |texts| ==> r >= sim(q, texts[i])
    ensures r == acc || exists i :: 0 <= i < |texts| && r == sim(q, texts[i])
  {
    if texts == [] then acc
    else
      var front := texts[..|texts| - 1];
      assert forall i :: 0 <= i < |front| ==> texts[i] == front[i];
      Max(BestOver(q, front, acc, sim), sim(q, texts[|texts| - 1]))
  }

  function NameScore(q: string, g: GroupView, sim: (string, string) -> real): real
  {
    sim(q, NameOf(g))
  }

  /** `io_best`: the best score over the group's questions, then its answers. */
  function IoBest(q: string, g: GroupView, sim: (string, string) -> real): real
  {
    BestOver(q, g.outputs, BestOver(q, g.inputs, 0.0, sim), sim)
  }

  /** `best_score` for one group. Any scope other than `group`, `input` or
      `output` takes the `all` branch. */
  function ScopeScore(q: string, scope: string, g: GroupView, sim: (string, string) -> real): real
  {
    if scope == "group" then Max(0.0, NameScore(q, g, sim))
    else if scope == "input" then BestOver(q, g.inputs, 0.0, sim)
    else if scope == "output" then BestOver(q, g.outputs, 0.0, sim)
    else BestOver(q, g.outputs, BestOver(q, g.inputs, Max(0.0, NameScore(q, g, sim)), sim), sim)
  }

  /** The filter loop's test for one sorted entry. */
  predicate Passes(q: string, scope: string, g: GroupView, score: real, sim: (string, string) -> real)
  {
    (scope == "group" && score >= GroupThreshold) ||
    ((scope == "input" || scope == "output") && score >= IoThreshold) ||
    (scope == "all" && (NameScore(q, g, sim) >= GroupThreshold || IoBest(q, g, sim) >= IoThreshold))
  }

  /** A `(best_score, g)` pair of `scored`. */
  datatype Scored = Scored(score: real, group: GroupView)

  function Scores(q: string, scope: string, gs: seq<GroupView>, sim: (string, string) -> real): (r: seq<Scored>)
    ensures |r| == |gs|
    ensures forall i :: 0 <= i < |gs| ==> r[i] == Scored(ScopeScore(q, scope, gs[i], sim), gs[i])
  {
    seq(|gs|, i requires 0 <= i < |gs| => Scored(ScopeScore(q, scope, gs[i], sim), gs[i]))
  }

  predicate Descending(s: seq<Scored>)
  {
    forall i, j :: 0 <= i < j < |s| ==> s[i].score >= s[j].score
  }

  /** The entries with score `v`, in order. */
  function WithScore(s: seq<Scored>, v: real): seq<Scored>
  {
    Keep(s, (x: Scored) => x.score == v)
  }

  /** Insert x behind every entry scoring at least as much as x. */
  function InsertDesc(s: seq<Scored>, x: Scored): (r: seq<Scored>)
    ensures |r| == |s| + 1
    ensures multiset(r) == multiset(s) + multiset{x}
    ensures forall y :: y in r ==> y in s || y == x
  {
    if s == [] || s[|s| - 1].score >= x.score then s + [x]
    else
      var front, last := s[..|s| - 1], s[|s| - 1];
      assert s == front + [last];
      InsertDesc(front, x) + [last]
  }

  /** `sorted(scored, key=lambda x: x[0], reverse=True)`: a stable sort, by
      descending score, modelled as an insertion sort. */
  function SortDesc(s: seq<Scored>): (r: seq<Scored>)
    ensures |r| == |s|
    ensures multiset(r) == multiset(s)
  {
    if s == [] then []
    else
      var front := s[..|s| - 1];
      assert s == front + [s[|s| - 1]];
      InsertDesc(SortDesc(front), s[|s| - 1])
  }

  lemma {:induction false} InsertDescSorted(s: seq<Scored>, x: Scored)
    requires Descending(s)
    ensures Descending(InsertDesc(s, x))
  {
    if !(s == [] || s[|s| - 1].score >= x.score) {
      var front, last := s[..|s| - 1], s[|s| - 1];
      InsertDescSorted(front, x);
      var a := InsertDesc(front, x);
      var r := a + [last];
      forall i, j | 0 <= i < j < |r| ensures r[i].score >= r[j].score {
        if j == |a| {
          assert r[i] == a[i] && a[i] in a && r[j] == last;
          if r[i] != x {
            var k :| 0 <= k < |front| && front[k] == r[i];
            assert s[k] == r[i];
          }
        } else {
          assert r[i] == a[i] && r[j] == a[j];
        }
      }
    }
  }

  lemma WithScoreSnoc(s: seq<Scored>, x: Scored, v: real)
    ensures WithScore(s + [x], v) == WithScore(s, v) + (if x.score == v then [x] else [])
  {
    var t := s + [x];
    assert t[..|t| - 1] == s && t[|t| - 1] == x;
  }

  /** Insertion keeps entries of equal score in their arrival order, x last. */
  lemma {:induction false} InsertDescStable(s: seq<Scored>, x: Scored, v: real)
    requires Descending(s)
    ensures WithScore(InsertDesc(s, x), v) == WithScore(s, v) + (if x.score == v then [x] else [])
  {
    if s == [] || s[|s| - 1].score >= x.score {
      WithScoreSnoc(s, x, v);
    } else {
      var front, last := s[..|s| - 1], s[|s| - 1];
      assert Descending(front);
      assert s == front + [last];
      InsertDescStable(front, x, v);
      var a := InsertDesc(front, x);
      WithScoreSnoc(a, last, v);
      WithScoreSnoc(front, last, v);
      var k := WithScore(front, v);
      if x.score == v {
        assert last.score != v;
        assert WithScore(a + [last], v) == k + [x];
      } else if last.score == v {
        assert WithScore(a + [last], v) == k + [last];
      } else {
        assert WithScore(a + [last], v) == k;
      }
    }
  }

  /** The sort is ordered by descending score, is a permutation and is stable:
      the entries of any one score keep their original order. */
  lemma {:induction false} SortDescFacts(s: seq<Scored>, v: real)
    ensures Descending(SortDesc(s))
    ensures multiset(SortDesc(s)) == multiset(s)
    ensures WithScore(SortDesc(s), v) == WithScore(s, v)
  {
    if s != [] {
      var front, last := s[..|s| - 1], s[|s| - 1];
      assert s == front + [last];
      SortDescFacts(front, v);
      InsertDescSorted(SortDesc(front), last);
      InsertDescStable(SortDesc(front), last, v);
      WithScoreSnoc(front, last, v);
    }
  }

  /** The filter loop over the sorted entries. */
  function Admitted(q: string, scope: string, sorted: seq<Scored>, sim: (string, string) -> real): seq<Scored>
  {
    Keep(sorted, (x: Scored) => Passes(q, scope, x.group, x.score, sim))
  }

  function GroupsOf(s: seq<Scored>): (r: seq<GroupView>)
    ensures |r| == |s| && forall k :: 0 <= k < |s| ==> r[k] == s[k].group
  {
    seq(|s|, k requires 0 <= k < |s| => s[k].group)
  }

  /** `(request.args.get('scope') or 'group').lower()` */
  function ScopeName(scope: Option<string>): string
  {
    match scope
    case None => "group"
    case Some(s) => if s == "" then "group" else Lower(s)
  }

  /** The GET branch of `/api/groups` over the groups `get_all_groups` returns;
      `sim` is `similarity(q, text)`, kept abstract. */
  function Search(groups: seq<GroupView>, filter: Option<string>, scope: Option<string>,
                  sim: (string, string) -> real): seq<GroupView>
  {
    var q, sc := MessageText(filter), ScopeName(scope);
    if q == "" then groups
    else GroupsOf(Admitted(q, sc, SortDesc(Scores(q, sc, groups, sim)), sim))
  }

  /** An empty or blank filter returns every group as listed. */
  lemma SearchWithoutFilter(groups: seq<GroupView>, filter: Option<string>, scope: Option<string>,
                            sim: (string, string) -> real)
    requires MessageText(filter) == ""
    ensures Search(groups, filter, scope, sim) == groups
  {
  }

  /** A group is returned exactly when it meets its scope's threshold. */
  lemma SearchMembers(groups: seq<GroupView>, filter: Option<string>, scope: Option<string>,
                      sim: (string, string) -> real)
    requires MessageText(filter) != ""
    ensures var q, sc := MessageText(filter), ScopeName(scope);
      forall g :: g in Search(groups, filter, scope, sim) <==>
                  g in groups && Passes(q, sc, g, ScopeScore(q, sc, g, sim), sim)
  {
    var q, sc := MessageText(filter), ScopeName(scope);
    var scored := Scores(q, sc, groups, sim);
    var sorted := SortDesc(scored);
    var kept := Admitted(q, sc, sorted, sim);
    var r := GroupsOf(kept);
    forall g ensures g in r <==> g in groups && Passes(q, sc, g, ScopeScore(q, sc, g, sim), sim) {
      if g in r {
        var k :| 0 <= k < |r| && r[k] == g;
        assert kept[k] in sorted;
        assert kept[k] in multiset(scored);
        var i :| 0 <= i < |scored| && scored[i] == kept[k];
        assert groups[i] == g;
      }
      if g in groups && Passes(q, sc, g, ScopeScore(q, sc, g, sim), sim) {
        var i :| 0 <= i < |groups| && groups[i] == g;
        var x := scored[i];
        assert x in multiset(sorted);
        assert x in kept;
        var k :| 0 <= k < |kept| && kept[k] == x;
        assert r[k] == g;
      }
    }
  }

  lemma {:induction false} KeepDescending(s: seq<Scored>, p: Scored -> bool)
    requires Descending(s)
    ensures Descending(Keep(s, p))
  {
    if s != [] {
      var front, last := s[..|s| - 1], s[|s| - 1];
      KeepDescending(front, p);
      var r := Keep(front, p);
      if p(last) {
        var r2 := r + [last];
        forall i, j | 0 <= i < j < |r2| ensures r2[i].score >= r2[j].score {
          if j == |r| {
            assert r2[i] in front;
            var k :| 0 <= k < |front| && front[k] == r2[i];
            assert s[k] == r2[i];
          } else {
            assert r2[i] == r[i] && r2[j] == r[j];
          }
        }
      }
    }
  }

  /** Returned groups come in descending order of their scope score. */
  lemma SearchOrdered(groups: seq<GroupView>, filter: Option<string>, scope: Option<string>,
                      sim: (string, string) -> real)
    requires MessageText(filter) != ""
    ensures var q, sc, r := MessageText(filter), ScopeName(scope), Search(groups, filter, scope, sim);
      forall i, j :: 0 <= i < j < |r| ==> ScopeScore(q, sc, r[i], sim) >= ScopeScore(q, sc, r[j], sim)
  {
    var q, sc := MessageText(filter), ScopeName(scope);
    var scored := Scores(q, sc, groups, sim);
    var sorted := SortDesc(scored);
    SortDescFacts(scored, 0.0);
    var kept := Admitted(q, sc, sorted, sim);
    KeepDescending(sorted, (x: Scored) => Passes(q, sc, x.group, x.score, sim));
    var r := GroupsOf(kept);
    forall k | 0 <= k < |kept| ensures kept[k].score == ScopeScore(q, sc, r[k], sim) {
      assert kept[k] in sorted;
      assert kept[k] in multiset(scored);
      var i :| 0 <= i < |scored| && scored[i] == kept[k];
    }
  }

  /** A scope other than `group`, `input`, `output` and `all` returns nothing. */
  lemma SearchUnknownScope(groups: seq<GroupView>, filter: Option<string>, scope: Option<string>,
                           sim: (string, string) -> real)
    requires MessageText(filter) != ""
    requires ScopeName(scope) !in {"group", "input", "output", "all"}
    ensures Search(groups, filter, scope, sim) == []
  {
    var q, sc := MessageText(filter), ScopeName(scope);
    var sorted := SortDesc(Scores(q, sc, groups, sim));
    KeepNone(sorted, (x: Scored) => Passes(q, sc, x.group, x.score, sim));
  }

  // ------------------------------------------------------------- Methods

  /** The inner loop over one paragraph's sentences: each is stripped and
      kept when non-empty. */
  method CleanSentences(sents: seq<string>) returns (cleaned: seq<string>)
    ensures cleaned == StripNonBlank(sents)
  {
    cleaned := [];
    var j := 0;
    while j < |sents|
      invariant 0 <= j <= |sents|
      invariant cleaned == StripNonBlank(sents[..j])
    {
      var t := Strip(sents[j]);
      StripNonBlankStep(sents, j);
      if t != [] {
        cleaned := cleaned + [t];
      }
      j := j + 1;
    }
    assert sents[..j] == sents;
  }

  /** The paragraph loop that collects `pieces`. */
  method SentencesOfParagraphs(paragraphs: seq<string>) returns (pieces: seq<string>)
    ensures pieces == SentencePieces(paragraphs)
  {
    pieces := [];
    var i := 0;
    while i < |paragraphs|
      invariant 0 <= i <= |paragraphs|
      invariant pieces == SentencePieces(paragraphs[..i])
    {
      var cleaned := CleanSentences(SplitIntoSentences(paragraphs[i]));
      assert paragraphs[..i + 1][..i] == paragraphs[..i];
      assert SentencePieces(paragraphs[..i + 1]) == pieces + cleaned;
      pieces := pieces + cleaned;
      i := i + 1;
    }
    assert paragraphs[..i] == paragraphs;
  }

  /** The pieces of a message, as `find_best_matches_for_message` collects them. */
  method CollectPieces(message: string) returns (pieces: seq<string>)
    ensures pieces == MessagePieces(message)
  {
    if message == "" {
      return [];
    }
    pieces := SentencesOfParagraphs(SplitParagraphs(message));
  }

  /** The loop over the question rows that fills `norm_map` and `norm_list`. */
  method BuildIndex(rows: seq<QuestionRow>) returns (ix: NormIndex)
    ensures ix == IndexOf(KeyedRows(rows))
  {
    ghost var keyed := KeyedRows(rows);
    ix := NormIndex([], map[]);
    var i := 0;
    while i < |rows|
      invariant 0 <= i <= |rows|
      invariant ix == IndexOf(keyed[..i])
    {
      var norm := Norm(rows[i]);
      var hit := Hit(rows[i].groupId, rows[i].question);
      ghost var prefix := keyed[..i + 1];
      assert prefix[..|prefix| - 1] == keyed[..i];
      assert prefix[|prefix| - 1] == Keyed(norm, hit);
      if norm != "" && norm !in ix.hits {
        ix := NormIndex(ix.keys + [norm], ix.hits[norm := hit]);
      }
      i := i + 1;
    }
    assert keyed[..i] == keyed;
  }

  /** The results loop over the pieces. */
  method MatchEach(ix: NormIndex, pieces: seq<string>, ratio: (string, string) -> real)
    returns (results: seq<Match>)
    requires forall k :: k in ix.keys ==> k in ix.hits
    ensures results == MatchAll(ix, pieces, ratio)
  {
    results := [];
    var k := 0;
    while k < |pieces|
      invariant 0 <= k <= |pieces|
      invariant results == MatchAll(ix, pieces[..k], ratio)
    {
      var piece := pieces[k];
      var userNorm := NormalizeText(Some(piece));
      var m: Match;
      if ix.keys == [] {
        m := Match(piece, None);
      } else {
        var best := CloseMatch(userNorm, ix.keys, 0.5, ratio);
        if best.Some? {
          m := Match(piece, Some(ix.hits[best.value]));
        } else {
          m := Match(piece, None);
        }
      }
      assert m == MatchPiece(ix, piece, ratio);
      assert pieces[..k + 1][..k] == pieces[..k];
      results := results + [m];
      k := k + 1;
    }
    assert pieces[..k] == pieces;
  }

  /** `find_best_matches_for_message` over the store's question rows. */
  method FindBestMatchesForMessage(store: Store, message: string, ratio: (string, string) -> real)
    returns (results: seq<Match>)
    ensures results == Matches(store.questions, message, ratio)
  {
    if message == "" {
      return [];
    }
    var pieces := CollectPieces(message);
    var ix := BuildIndex(store.questions);
    results := MatchEach(ix, pieces, ratio);
  }

  /** The loop that fills `replies`, one per match; `random.choice` is the
      store's nondeterministic pick. */
  method AssembleReplies(store: Store, matches: seq<Match>) returns (replies: seq<string>)
    requires store.Valid()
    ensures |replies| == |matches|
    ensures forall k :: 0 <= k < |matches| ==> ReplyFits(store.answers, matches[k], replies[k])
  {
    replies := [];
    var k := 0;
    while k < |matches|
      invariant 0 <= k <= |matches|
      invariant |replies| == k
      invariant forall j :: 0 <= j < k ==> ReplyFits(store.answers, matches[j], replies[j])
    {
      var hit := matches[k].hit;
      if hit.Some? && hit.value.groupId != 0 {
        var answer := store.GetRandomAnswerForGroup(hit.value.groupId);
        if answer.Some? && answer.value != "" {
          replies := replies + [answer.value];
        } else {
          replies := replies + [UnansweredReply];
        }
      } else {
        replies := replies + [UnknownReply];
      }
      k := k + 1;
    }
  }

  /** The reply assembly of `/api/chat`: one reply per piece, joined by blank lines. */
  method ApiChat(store: Store, message: Option<string>, ratio: (string, string) -> real)
    returns (r: ChatReply, replies: seq<string>)
    requires store.Valid()
    ensures r == EmptyMessage <==> MessageText(message) == ""
    ensures r.Reply? ==>
      var ms := Matches(store.questions, MessageText(message), ratio);
      |replies| == |ms| &&
      (forall k :: 0 <= k < |ms| ==> ReplyFits(store.answers, ms[k], replies[k])) &&
      r.reply == Join(replies, ReplySeparator) && r.pieces == Flags(ms)
  {
    var msg := MessageText(message);
    replies := [];
    if msg == "" {
      return EmptyMessage, replies;
    }
    var matches := FindBestMatchesForMessage(store, msg, ratio);
    replies := AssembleReplies(store, matches);
    r := Reply(Join(replies, ReplySeparator), Flags(matches));
  }

  /** `best = max(best, similarity(q, t))` over `texts`. */
  method BestSimilarity(q: string, texts: seq<string>, acc: real, sim: (string, string) -> real)
    returns (best: real)
    ensures best == BestOver(q, texts, acc, sim)
  {
    best := acc;
    var i := 0;
    while i < |texts|
      invariant 0 <= i <= |texts|
      invariant best == BestOver(q, texts[..i], acc, sim)
    {
      assert texts[..i + 1][..i] == texts[..i];
      best := Max(best, sim(q, texts[i]));
      i := i + 1;
    }
    assert texts[..i] == texts;
  }

  /** The loop that fills `scored`, one `(best_score, g)` pair per group. */
  method ScoreGroups(q: string, sc: string, all: seq<GroupView>, sim: (string, string) -> real)
    returns (scored: seq<Scored>)
    ensures scored == Scores(q, sc, all, sim)
  {
    scored := [];
    var i := 0;
    while i < |all|
      invariant 0 <= i <= |all|
      invariant scored == Scores(q, sc, all[..i], sim)
    {
      var g := all[i];
      var best := 0.0;
      if sc == "group" {
        best := Max(best, sim(q, NameOf(g)));
      } else if sc == "input" {
        best := BestSimilarity(q, g.inputs, best, sim);
      } else if sc == "output" {
        best := BestSimilarity(q, g.outputs, best, sim);
      } else {
        best := Max(best, sim(q, NameOf(g)));
        best := BestSimilarity(q, g.inputs, best, sim);
        best := BestSimilarity(q, g.outputs, best, sim);
      }
      assert Scores(q, sc, all[..i + 1], sim) == Scores(q, sc, all[..i], sim) + [Scored(best, g)];
      scored := scored + [Scored(best, g)];
      i := i + 1;
    }
    assert all[..i] == all;
  }

  /** The loop over the sorted pairs that fills `filtered`. */
  method FilterScored(q: string, sc: string, sorted: seq<Scored>, sim: (string, string) -> real)
    returns (filtered: seq<GroupView>)
    ensures filtered == GroupsOf(Admitted(q, sc, sorted, sim))
  {
    ghost var kept: seq<Scored> := [];
    filtered := [];
    var j := 0;
    while j < |sorted|
      invariant 0 <= j <= |sorted|
      invariant kept == Admitted(q, sc, sorted[..j], sim)
      invariant filtered == GroupsOf(kept)
    {
      var x := sorted[j];
      var admit := false;
      if sc == "group" && x.score >= GroupThreshold {
        admit := true;
      } else if (sc == "input" || sc == "output") && x.score >= IoThreshold {
        admit := true;
      } else if sc == "all" {
        var groupScore := sim(q, NameOf(x.group));
        var ioBest := BestSimilarity(q, x.group.inputs, 0.0, sim);
        ioBest := BestSimilarity(q, x.group.outputs, ioBest, sim);
        admit := groupScore >= GroupThreshold || ioBest >= IoThreshold;
      }
      assert admit == Passes(q, sc, x.group, x.score, sim);
      assert sorted[..j + 1][..j] == sorted[..j];
      assert sorted[..j + 1][j] == x;
      if admit {
        kept := kept + [x];
        filtered := filtered + [x.group];
      }
      j := j + 1;
    }
    assert sorted[..j] == sorted;
  }

  /** The GET branch of `/api/groups`: score every group, sort, filter. */
  method SearchGroups(store: Store, filter: Option<string>, scope: Option<string>,
                      sim: (string, string) -> real)
    returns (groups: seq<GroupView>)
    requires store.Valid()
    ensures groups == Search(AllGroupViews(store.State()), filter, scope, sim)
  {
    var q, sc := MessageText(filter), ScopeName(scope);
    var all := store.GetAllGroups();
    if q == "" {
      return all;
    }
    var scored := ScoreGroups(q, sc, all, sim);
    var sorted := SortDesc(scored);
    groups := FilterScored(q, sc, sorted, sim);
  }
}
