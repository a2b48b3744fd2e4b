/**
 * The three tables behind the grouped question/answer store, held in memory.
 *
 * Each table is a sequence of rows in insertion order together with its
 * AUTOINCREMENT counter (the last id handed out). Ids only grow, so the order
 * of a sequence is its `ORDER BY id` order. The table constraints become
 * explicit invariants: question text is unique over the whole store, and an
 * answer text is unique within its group. `INSERT OR IGNORE` leaves the
 * tables alone when the new row would break one of them.
 */
module ChatStore {
  import opened Common
  import opened Text
  import opened ChatText

  datatype GroupRow = GroupRow(id: int, name: Option<string>)
  /** A question row. The `question_norm` column is always written as the
      normal form of `question`, so it is not stored but computed by `Norm`. */
  datatype QuestionRow = QuestionRow(id: int, question: string, groupId: int)
  datatype AnswerRow = AnswerRow(id: int, groupId: int, answer: string)

  /** The whole database: rows and the three `sqlite_sequence` counters. */
  datatype Tables = Tables(groups: seq<GroupRow>, questions: seq<QuestionRow>, answers: seq<AnswerRow>,
                           groupSeq: nat, questionSeq: nat, answerSeq: nat)

  /** A group as `get_all_groups` and `get_group_by_id` return it. */
  datatype GroupView = GroupView(id: int, name: Option<string>,
                                 inputs: seq<string>, inputIds: seq<int>,
                                 outputs: seq<string>, outputIds: seq<int>)

  // -------------------------------------------------------------- Row order

  /** The rows satisfying `p`, in their original order (a `WHERE` clause). */
  function Keep<T(!new)>(s: seq<T>, p: T -> bool): (r: seq<T>)
    ensures |r| <= |s|
    ensures forall x :: x in r <==> x in s && p(x)
  {
    if s == [] then []
    else
      var front, last := s[..|s| - 1], s[|s| - 1];
      assert s == front + [last];
      var r := Keep(front, p);
      if p(last) then r + [last] else r
  }

  predicate Ascending<T>(s: seq<T>, key: T -> int)
  {
    forall i, j :: 0 <= i < j < |s| ==> key(s[i]) < key(s[j])
  }

  predicate Distinct<T, K(==)>(s: seq<T>, key: T -> K)
  {
    forall i, j :: 0 <= i < j < |s| ==> key(s[i]) != key(s[j])
  }

  /** A `WHERE` clause keeps the id order. */
  lemma {:induction false} KeepAscending<T(!new)>(s: seq<T>, p: T -> bool, key: T -> int)
    requires Ascending(s, key)
    ensures Ascending(Keep(s, p), key)
  {
    if s != [] {
      var front, last := s[..|s| - 1], s[|s| - 1];
      KeepAscending(front, p, key);
      var r := Keep(front, p);
      if p(last) {
        var r2 := r + [last];
        forall i, j | 0 <= i < j < |r2| ensures key(r2[i]) < key(r2[j]) {
          if j == |r| {
            assert r2[i] in front;
            var k :| 0 <= k < |front| && front[k] == r2[i];
            assert s[k] == r2[i];
          } else {
            assert r2[i] == r[i] && r2[j] == r[j];
          }
        }
      }
    }
  }

  /** A `WHERE` clause keeps a uniqueness constraint. */
  lemma {:induction false} KeepDistinct<T(!new), K>(s: seq<T>, p: T -> bool, key: T -> K)
    requires Distinct(s, key)
    ensures Distinct(Keep(s, p), key)
  {
    if s != [] {
      var front, last := s[..|s| - 1], s[|s| - 1];
      KeepDistinct(front, p, key);
      var r := Keep(front, p);
      if p(last) {
        var r2 := r + [last];
        forall i, j | 0 <= i < j < |r2| ensures key(r2[i]) != key(r2[j]) {
          if j == |r| {
            assert r2[i] in front;
            var k :| 0 <= k < |front| && front[k] == r2[i];
            assert s[k] == r2[i];
          } else {
            assert r2[i] == r[i] && r2[j] == r[j];
          }
        }
      }
    }
  }

  /** Two `WHERE` clauses in a row, the second stricter than the first. */
  lemma {:induction false} KeepKeep<T(!new)>(s: seq<T>, p: T -> bool, q: T -> bool)
    requires forall x :: q(x) ==> p(x)
    ensures Keep(Keep(s, p), q) == Keep(s, q)
  {
    if s != [] {
      var front, last := s[..|s| - 1], s[|s| - 1];
      KeepKeep(front, p, q);
      var r := Keep(front, p);
      if p(last) {
        assert (r + [last])[..|r + [last]| - 1] == r;
      }
    }
  }

  /** A `WHERE` clause that excludes every row gives nothing. */
  lemma {:induction false} KeepNone<T(!new)>(s: seq<T>, p: T -> bool)
    requires forall x :: x in s ==> !p(x)
    ensures Keep(s, p) == []
  {
    if s != [] {
      assert s[|s| - 1] in s;
      assert forall x :: x in s[..|s| - 1] ==> x in s;
      KeepNone(s[..|s| - 1], p);
    }
  }

  /** A `WHERE` clause distributes over appended rows. */
  lemma {:induction false} KeepAppend<T(!new)>(s: seq<T>, extra: seq<T>, p: T -> bool)
    ensures Keep(s + extra, p) == Keep(s, p) + Keep(extra, p)
    decreases |extra|
  {
    if extra != [] {
      var e := extra[..|extra| - 1];
      assert (s + extra)[..|s + extra| - 1] == s + e;
      assert (s + extra)[|s + extra| - 1] == extra[|extra| - 1];
      KeepAppend(s, e, p);
    } else {
      assert s + extra == s;
    }
  }

  function GroupId(g: GroupRow): int { g.id }
  function QuestionId(q: QuestionRow): int { q.id }

  /** The `question_norm` column of a row. */
  function Norm(q: QuestionRow): string { NormalizeText(Some(q.question)) }
  function QuestionText(q: QuestionRow): string { q.question }
  function AnswerId(a: AnswerRow): int { a.id }
  function AnswerKey(a: AnswerRow): (int, string) { (a.groupId, a.answer) }

  /** `SELECT ... FROM questions WHERE group_id = gid ORDER BY id` */
  function QuestionsOf(qs: seq<QuestionRow>, gid: int): seq<QuestionRow>
  {
    Keep(qs, (q: QuestionRow) => q.groupId == gid)
  }

  /** `DELETE FROM questions WHERE group_id = gid`: the rows that stay. */
  function OtherQuestions(qs: seq<QuestionRow>, gid: int): seq<QuestionRow>
  {
    Keep(qs, (q: QuestionRow) => q.groupId != gid)
  }

  /** `SELECT ... FROM answers WHERE group_id = gid ORDER BY id` */
  function AnswersOf(rows: seq<AnswerRow>, gid: int): seq<AnswerRow>
  {
    Keep(rows, (a: AnswerRow) => a.groupId == gid)
  }

  /** `DELETE FROM answers WHERE group_id = gid`: the rows that stay. */
  function OtherAnswers(rows: seq<AnswerRow>, gid: int): seq<AnswerRow>
  {
    Keep(rows, (a: AnswerRow) => a.groupId != gid)
  }

  /** `DELETE FROM groups WHERE id = gid`: the rows that stay. */
  function OtherGroups(gs: seq<GroupRow>, gid: int): seq<GroupRow>
  {
    Keep(gs, (g: GroupRow) => g.id != gid)
  }

  function QuestionTexts(qs: seq<QuestionRow>): (r: seq<string>)
    ensures |r| == |qs| && forall i :: 0 <= i < |qs| ==> r[i] == qs[i].question
  {
    seq(|qs|, i requires 0 <= i < |qs| => qs[i].question)
  }

  /** The id column of some rows, in row order. */
  function Ids<T>(rows: seq<T>, id: T -> int): (r: seq<int>)
    ensures |r| == |rows| && forall i :: 0 <= i < |rows| ==> r[i] == id(rows[i])
  {
    seq(|rows|, i requires 0 <= i < |rows| => id(rows[i]))
  }

  function AnswerTexts(rows: seq<AnswerRow>): (r: seq<string>)
    ensures |r| == |rows| && forall i :: 0 <= i < |rows| ==> r[i] == rows[i].answer
  {
    seq(|rows|, i requires 0 <= i < |rows| => rows[i].answer)
  }

  // ------------------------------------------------------------- Invariants

  predicate QuestionRowOk(q: QuestionRow)
  {
    q.question != [] && IsStripped(q.question)
  }

  predicate GroupsOk(gs: seq<GroupRow>, last: nat)
  {
    Ascending(gs, GroupId) && forall g :: g in gs ==> 0 < g.id <= last
  }

  /** Ids in order and below the counter, question text unique. */
  predicate QuestionsOk(qs: seq<QuestionRow>, last: nat)
  {
    Ascending(qs, QuestionId) && Distinct(qs, QuestionText) && forall q :: q in qs ==> 0 < q.id <= last
  }

  /** Ids in order and below the counter, answer text unique within its group. */
  predicate AnswersOk(rows: seq<AnswerRow>, last: nat)
  {
    Ascending(rows, AnswerId) && Distinct(rows, AnswerKey) && forall a :: a in rows ==> 0 < a.id <= last
  }

  /** The schema's constraints and the AUTOINCREMENT discipline. */
  predicate Consistent(t: Tables)
  {
    GroupsOk(t.groups, t.groupSeq) && QuestionsOk(t.questions, t.questionSeq) && AnswersOk(t.answers, t.answerSeq)
  }

  /** What the insert code guarantees about the stored texts: questions are
      stripped and non-empty; answers are non-blank. */
  predicate WellFormed(t: Tables)
  {
    (forall q :: q in t.questions ==> QuestionRowOk(q)) && (forall a :: a in t.answers ==> IsParagraph(a.answer))
  }

  lemma OtherQuestionsOk(qs: seq<QuestionRow>, last: nat, gid: int)
    requires QuestionsOk(qs, last)
    ensures QuestionsOk(OtherQuestions(qs, gid), last)
  {
    KeepAscending(qs, (q: QuestionRow) => q.groupId != gid, QuestionId);
    KeepDistinct(qs, (q: QuestionRow) => q.groupId != gid, QuestionText);
  }

  lemma OtherAnswersOk(rows: seq<AnswerRow>, last: nat, gid: int)
    requires AnswersOk(rows, last)
    ensures AnswersOk(OtherAnswers(rows, gid), last)
  {
    KeepAscending(rows, (a: AnswerRow) => a.groupId != gid, AnswerId);
    KeepDistinct(rows, (a: AnswerRow) => a.groupId != gid, AnswerKey);
  }

  lemma OtherGroupsOk(gs: seq<GroupRow>, last: nat, gid: int)
    requires GroupsOk(gs, last)
    ensures GroupsOk(OtherGroups(gs, gid), last)
  {
    KeepAscending(gs, (g: GroupRow) => g.id != gid, GroupId);
  }

  // -------------------------------------------------------------- Inserting

  predicate HeldQuestion(qs: seq<QuestionRow>, q: string)
  {
    exists i :: 0 <= i < |qs| && qs[i].question == q
  }

  predicate HeldAnswer(rows: seq<AnswerRow>, gid: int, a: string)
  {
    exists i :: 0 <= i < |rows| && rows[i].groupId == gid && rows[i].answer == a
  }

  /** `INSERT OR IGNORE INTO questions (question, question_norm, group_id)`.
      SQLite allocates the AUTOINCREMENT id before it checks UNIQUE, so an
      ignored insert still uses up an id. */
  function WithQuestion(t: Tables, q: string, gid: int): Tables
  {
    if HeldQuestion(t.questions, q) then t.(questionSeq := t.questionSeq + 1)
    else t.(questions := t.questions + [QuestionRow(t.questionSeq + 1, q, gid)],
            questionSeq := t.questionSeq + 1)
  }

  /** The question inserts for `texts`, one after the other. */
  function WithQuestions(t: Tables, texts: seq<string>, gid: int): Tables
  {
    if texts == [] then t
    else WithQuestion(WithQuestions(t, texts[..|texts| - 1], gid), texts[|texts| - 1], gid)
  }

  /** `INSERT OR IGNORE INTO answers (group_id, answer)`; an ignored insert uses up an id too. */
  function WithAnswer(t: Tables, a: string, gid: int): Tables
  {
    if HeldAnswer(t.answers, gid, a) then t.(answerSeq := t.answerSeq + 1)
    else t.(answers := t.answers + [AnswerRow(t.answerSeq + 1, gid, a)], answerSeq := t.answerSeq + 1)
  }

  function WithAnswers(t: Tables, texts: seq<string>, gid: int): Tables
  {
    if texts == [] then t
    else WithAnswer(WithAnswers(t, texts[..|texts| - 1], gid), texts[|texts| - 1], gid)
  }

  /** One question insert: the other tables stay, the old rows stay first, at most
      the one new row is added and it belongs to `gid`, and the constraints hold. */
  lemma WithQuestionStep(m: Tables, q: string, gid: int)
    requires QuestionsOk(m.questions, m.questionSeq)
    ensures var r := WithQuestion(m, q, gid);
      && r.groups == m.groups && r.answers == m.answers
      && r.groupSeq == m.groupSeq && r.answerSeq == m.answerSeq && r.questionSeq == m.questionSeq + 1
      && m.questions <= r.questions && |r.questions| <= |m.questions| + 1
      && (|r.questions| > |m.questions| ==> r.questions[|m.questions|].groupId == gid && r.questions[|m.questions|].question == q)
      && HeldQuestion(r.questions, q)
      && QuestionsOk(r.questions, r.questionSeq)
  {
    if !HeldQuestion(m.questions, q) {
      var r := WithQuestion(m, q, gid);
      var row := QuestionRow(m.questionSeq + 1, q, gid);
      assert r.questions == m.questions + [row];
      assert r.questions[|m.questions|] == row;
      assert Distinct(r.questions, QuestionText) by {
        forall i, j | 0 <= i < j < |r.questions| ensures r.questions[i].question != r.questions[j].question {
          if j == |m.questions| {
            assert r.questions[i] == m.questions[i];
          }
        }
      }
      assert Ascending(r.questions, QuestionId) by {
        forall i, j | 0 <= i < j < |r.questions| ensures r.questions[i].id < r.questions[j].id {
          if j == |m.questions| {
            assert r.questions[i] == m.questions[i];
            assert m.questions[i] in m.questions;
          }
        }
      }
    }
  }

  /** A row once held stays held when rows are only appended. */
  lemma HeldQuestionGrows(a: seq<QuestionRow>, b: seq<QuestionRow>, q: string)
    requires a <= b && HeldQuestion(a, q)
    ensures HeldQuestion(b, q)
  {
    var i :| 0 <= i < |a| && a[i].question == q;
    assert b[i] == a[i];
  }

  /** What the question inserts do: the other tables stay, old rows stay first,
      every new row belongs to `gid` and carries one of the texts, every text
      ends up held by some row, each statement uses up one id, and the
      constraints still hold. */
  lemma {:induction false} WithQuestionsFacts(t: Tables, texts: seq<string>, gid: int)
    requires QuestionsOk(t.questions, t.questionSeq)
    ensures var r := WithQuestions(t, texts, gid);
      && r.groups == t.groups && r.answers == t.answers
      && r.groupSeq == t.groupSeq && r.answerSeq == t.answerSeq && r.questionSeq == t.questionSeq + |texts|
      && t.questions <= r.questions
      && (forall k :: |t.questions| <= k < |r.questions| ==> r.questions[k].groupId == gid && r.questions[k].question in texts)
      && (forall q :: q in texts ==> HeldQuestion(r.questions, q))
      && QuestionsOk(r.questions, r.questionSeq)
  {
    if texts != [] {
      var front, q := texts[..|texts| - 1], texts[|texts| - 1];
      WithQuestionsFacts(t, front, gid);
      var m := WithQuestions(t, front, gid);
      WithQuestionStep(m, q, gid);
      var r := WithQuestion(m, q, gid);
      assert r == WithQuestions(t, texts, gid);
      forall x | x in texts ensures HeldQuestion(r.questions, x) {
        if x != q {
          assert x in front;
          HeldQuestionGrows(m.questions, r.questions, x);
        }
      }
      forall k | |t.questions| <= k < |r.questions|
        ensures r.questions[k].groupId == gid && r.questions[k].question in texts
      {
        if k < |m.questions| {
          assert r.questions[k] == m.questions[k];
          assert m.questions[k].question in front;
        }
      }
    }
  }

  /** One answer insert, in the same terms. */
  lemma WithAnswerStep(m: Tables, a: string, gid: int)
    requires AnswersOk(m.answers, m.answerSeq)
    ensures var r := WithAnswer(m, a, gid);
      && r.groups == m.groups && r.questions == m.questions
      && r.groupSeq == m.groupSeq && r.questionSeq == m.questionSeq && r.answerSeq == m.answerSeq + 1
      && m.answers <= r.answers && |r.answers| <= |m.answers| + 1
      && (|r.answers| > |m.answers| ==> r.answers[|m.answers|].groupId == gid && r.answers[|m.answers|].answer == a)
      && HeldAnswer(r.answers, gid, a)
      && AnswersOk(r.answers, r.answerSeq)
  {
    if !HeldAnswer(m.answers, gid, a) {
      var r := WithAnswer(m, a, gid);
      var row := AnswerRow(m.answerSeq + 1, gid, a);
      assert r.answers == m.answers + [row];
      assert r.answers[|m.answers|] == row;
      assert Distinct(r.answers, AnswerKey) by {
        forall i, j | 0 <= i < j < |r.answers| ensures AnswerKey(r.answers[i]) != AnswerKey(r.answers[j]) {
          if j == |m.answers| {
            assert r.answers[i] == m.answers[i];
          }
        }
      }
      assert Ascending(r.answers, AnswerId) by {
        forall i, j | 0 <= i < j < |r.answers| ensures r.answers[i].id < r.answers[j].id {
          if j == |m.answers| {
            assert r.answers[i] == m.answers[i];
            assert m.answers[i] in m.answers;
          }
        }
      }
    }
  }

  lemma HeldAnswerGrows(a: seq<AnswerRow>, b: seq<AnswerRow>, gid: int, x: string)
    requires a <= b && HeldAnswer(a, gid, x)
    ensures HeldAnswer(b, gid, x)
  {
    var i :| 0 <= i < |a| && a[i].groupId == gid && a[i].answer == x;
    assert b[i] == a[i];
  }

  /** Answer inserts touch only the answer table. */
  lemma {:induction false} WithAnswersFrame(t: Tables, texts: seq<string>, gid: int)
    ensures var r := WithAnswers(t, texts, gid);
      r.groups == t.groups && r.questions == t.questions && r.groupSeq == t.groupSeq && r.questionSeq == t.questionSeq
  {
    if texts != [] { WithAnswersFrame(t, texts[..|texts| - 1], gid); }
  }

  /** What the answer inserts do, in the same terms. */
  lemma {:induction false} WithAnswersFacts(t: Tables, texts: seq<string>, gid: int)
    requires AnswersOk(t.answers, t.answerSeq)
    ensures var r := WithAnswers(t, texts, gid);
      && r.groups == t.groups && r.questions == t.questions
      && r.groupSeq == t.groupSeq && r.questionSeq == t.questionSeq && r.answerSeq == t.answerSeq + |texts|
      && t.answers <= r.answers
      && (forall k :: |t.answers| <= k < |r.answers| ==> r.answers[k].groupId == gid && r.answers[k].answer in texts)
      && (forall a :: a in texts ==> HeldAnswer(r.answers, gid, a))
      && AnswersOk(r.answers, r.answerSeq)
  {
    if texts != [] {
      var front, a := texts[..|texts| - 1], texts[|texts| - 1];
      WithAnswersFacts(t, front, gid);
      var m := WithAnswers(t, front, gid);
      WithAnswerStep(m, a, gid);
      var r := WithAnswer(m, a, gid);
      assert r == WithAnswers(t, texts, gid);
      forall x | x in texts ensures HeldAnswer(r.answers, gid, x) {
        if x != a {
          assert x in front;
          HeldAnswerGrows(m.answers, r.answers, gid, x);
        }
      }
      forall k | |t.answers| <= k < |r.answers|
        ensures r.answers[k].groupId == gid && r.answers[k].answer in texts
      {
        if k < |m.answers| {
          assert r.answers[k] == m.answers[k];
          assert m.answers[k].answer in front;
        }
      }
    }
  }

  // ------------------------------------------------------- Group operations

  /** `name or None` */
  function NameValue(name: string): Option<string>
  {
    if name == "" then None else Some(name)
  }

  /** The question texts that a raw `inputs` field produces, in order. */
  function Pieces(inputs: RawField): (r: seq<string>)
    ensures forall k :: 0 <= k < |r| ==> r[k] != [] && IsStripped(r[k])
  {
    SentencePieces(EnsureList(inputs))
  }

  /** `UPDATE groups SET name = ? WHERE id = gid` */
  function Renamed(gs: seq<GroupRow>, gid: int, name: Option<string>): (r: seq<GroupRow>)
    ensures |r| == |gs|
    ensures forall i :: 0 <= i < |gs| ==> r[i].id == gs[i].id
  {
    seq(|gs|, i requires 0 <= i < |gs| => if gs[i].id == gid then gs[i].(name := name) else gs[i])
  }

  /** The group row that `create_group` inserts first, under the next id. */
  function WithGroup(t: Tables, name: string): Tables
  {
    t.(groups := t.groups + [GroupRow(t.groupSeq + 1, NameValue(name))], groupSeq := t.groupSeq + 1)
  }

  /** The question inserts for `texts`, then the answer inserts for `outs`, all under `gid`. */
  function Filed(t: Tables, texts: seq<string>, outs: seq<string>, gid: int): Tables
  {
    WithAnswers(WithQuestions(t, texts, gid), outs, gid)
  }

  /** The tables after `create_group(name, inputs, outputs)`, where `texts` are the
      question pieces of `inputs` and `outs` the items of `outputs`; the new id is
      `t.groupSeq + 1`. */
  function Created(t: Tables, name: string, texts: seq<string>, outs: seq<string>): Tables
  {
    Filed(WithGroup(t, name), texts, outs, t.groupSeq + 1)
  }

  /** The tables after `update_group(gid, name, inputs, outputs)`, with `texts`
      and `outs` as for `Created`. */
  function Updated(t: Tables, gid: int, name: string, texts: seq<string>, outs: seq<string>): Tables
  {
    var t1 := t.(groups := Renamed(t.groups, gid, NameValue(name)), questions := OtherQuestions(t.questions, gid));
    var t2 := WithQuestions(t1, texts, gid);
    WithAnswers(t2.(answers := OtherAnswers(t2.answers, gid)), outs, gid)
  }

  /** The tables after `delete_group(gid)`. */
  function Deleted(t: Tables, gid: int): Tables
  {
    t.(answers := OtherAnswers(t.answers, gid), questions := OtherQuestions(t.questions, gid),
       groups := OtherGroups(t.groups, gid))
  }

  /** Rows appended for `gid` leave every other group's rows as they were. */
  lemma OtherGroupRowsKept(base: seq<QuestionRow>, extra: seq<QuestionRow>, arows: seq<AnswerRow>, aextra: seq<AnswerRow>, gid: int, h: int)
    requires h != gid
    requires forall x :: x in extra ==> x.groupId == gid
    requires forall x :: x in aextra ==> x.groupId == gid
    ensures QuestionsOf(base + extra, h) == QuestionsOf(base, h)
    ensures AnswersOf(arows + aextra, h) == AnswersOf(arows, h)
  {
    KeepAppend(base, extra, (q: QuestionRow) => q.groupId == h);
    KeepNone(extra, (q: QuestionRow) => q.groupId == h);
    KeepAppend(arows, aextra, (a: AnswerRow) => a.groupId == h);
    KeepNone(aextra, (a: AnswerRow) => a.groupId == h);
  }

  /** Deleting one group's rows leaves every other group's rows as they were. */
  lemma OtherGroupRowsSurvive(qs: seq<QuestionRow>, rows: seq<AnswerRow>, gid: int, h: int)
    requires h != gid
    ensures QuestionsOf(OtherQuestions(qs, gid), h) == QuestionsOf(qs, h)
    ensures AnswersOf(OtherAnswers(rows, gid), h) == AnswersOf(rows, h)
  {
    KeepKeep(qs, (q: QuestionRow) => q.groupId != gid, (q: QuestionRow) => q.groupId == h);
    KeepKeep(rows, (a: AnswerRow) => a.groupId != gid, (a: AnswerRow) => a.groupId == h);
  }

  /** The rows appended after a prefix, as a sequence. */
  lemma SplitAtPrefix<T>(a: seq<T>, b: seq<T>)
    requires a <= b
    ensures b == a + b[|a|..]
  {
  }

  /** Appending a row with a fresh id keeps the group table in order. */
  lemma {:induction false} AppendGroupOk(gs: seq<GroupRow>, last: nat, name: Option<string>)
    requires GroupsOk(gs, last)
    ensures GroupsOk(gs + [GroupRow(last + 1, name)], last + 1)
  {
    var r := gs + [GroupRow(last + 1, name)];
    forall i, j | 0 <= i < j < |r| ensures r[i].id < r[j].id {
      assert r[i] == gs[i];
      if j == |gs| { assert gs[i] in gs; } else { assert r[j] == gs[j]; }
    }
  }

  /** Filing keeps every constraint and touches no group row. */
  lemma FiledConsistent(t: Tables, texts: seq<string>, outs: seq<string>, gid: int)
    requires Consistent(t)
    ensures var r := Filed(t, texts, outs, gid);
      Consistent(r) && r.groups == t.groups && r.groupSeq == t.groupSeq
  {
    WithQuestionsFacts(t, texts, gid);
    WithAnswersFacts(WithQuestions(t, texts, gid), outs, gid);
  }

  /** Under the uniqueness constraint, a row appended after a prefix carries a
      text that the prefix does not hold. */
  lemma NewQuestionWasAbsent(a: seq<QuestionRow>, b: seq<QuestionRow>, k: int)
    requires a <= b && Distinct(b, QuestionText) && |a| <= k < |b|
    ensures !HeldQuestion(a, b[k].question)
  {
    forall i | 0 <= i < |a| ensures a[i].question != b[k].question {
      assert b[i] == a[i];
    }
  }

  /** The question rows that filing adds: old rows stay first, every new row
      belongs to `gid`, carries one of the texts and was not yet in the store
      (INSERT OR IGNORE), and every text ends up held by some row. */
  lemma FiledQuestions(t: Tables, texts: seq<string>, outs: seq<string>, gid: int)
    requires QuestionsOk(t.questions, t.questionSeq)
    ensures var r := Filed(t, texts, outs, gid);
      && t.questions <= r.questions
      && (forall k :: |t.questions| <= k < |r.questions| ==>
            r.questions[k].groupId == gid && r.questions[k].question in texts &&
            !HeldQuestion(t.questions, r.questions[k].question))
      && (forall q :: q in texts ==> HeldQuestion(r.questions, q))
  {
    var m := WithQuestions(t, texts, gid);
    WithQuestionsFacts(t, texts, gid);
    WithAnswersFrame(m, outs, gid);
    var r := Filed(t, texts, outs, gid);
    assert r.questions == m.questions;
    forall k | |t.questions| <= k < |r.questions| ensures !HeldQuestion(t.questions, r.questions[k].question) {
      NewQuestionWasAbsent(t.questions, r.questions, k);
    }
  }

  /** The answer rows that filing adds: old rows stay first, every new row belongs
      to `gid`, and afterwards `gid` holds exactly the texts it held before and
      the new ones. */
  lemma FiledAnswers(t: Tables, texts: seq<string>, outs: seq<string>, gid: int)
    requires AnswersOk(t.answers, t.answerSeq)
    ensures var r := Filed(t, texts, outs, gid);
      && t.answers <= r.answers
      && (forall k :: |t.answers| <= k < |r.answers| ==> r.answers[k].groupId == gid)
      && (forall x :: HeldAnswer(r.answers, gid, x) <==> x in outs || HeldAnswer(t.answers, gid, x))
  {
    var m := WithQuestions(t, texts, gid);
    WithQuestionsFrameAnswers(t, texts, gid);
    WithAnswersFacts(m, outs, gid);
    var r := Filed(t, texts, outs, gid);
    forall x ensures HeldAnswer(r.answers, gid, x) <==> x in outs || HeldAnswer(t.answers, gid, x) {
      if HeldAnswer(r.answers, gid, x) {
        var i :| 0 <= i < |r.answers| && r.answers[i].groupId == gid && r.answers[i].answer == x;
        if i < |t.answers| { assert t.answers[i] == r.answers[i]; }
      }
      if HeldAnswer(t.answers, gid, x) { HeldAnswerGrows(t.answers, r.answers, gid, x); }
    }
  }

  /** The rows after a prefix all belong to `gid`. */
  lemma TailQuestionsOf(a: seq<QuestionRow>, b: seq<QuestionRow>, gid: int)
    requires a <= b
    requires forall k :: |a| <= k < |b| ==> b[k].groupId == gid
    ensures b == a + b[|a|..] && forall x :: x in b[|a|..] ==> x.groupId == gid
  {
    forall x | x in b[|a|..] ensures x.groupId == gid {
      var k :| 0 <= k < |b[|a|..]| && b[|a|..][k] == x;
      assert b[|a| + k] == x;
    }
  }

  lemma TailAnswersOf(a: seq<AnswerRow>, b: seq<AnswerRow>, gid: int)
    requires a <= b
    requires forall k :: |a| <= k < |b| ==> b[k].groupId == gid
    ensures b == a + b[|a|..] && forall x :: x in b[|a|..] ==> x.groupId == gid
  {
    forall x | x in b[|a|..] ensures x.groupId == gid {
      var k :| 0 <= k < |b[|a|..]| && b[|a|..][k] == x;
      assert b[|a| + k] == x;
    }
  }

  /** Filing under `gid` leaves every other group with exactly the rows it had. */
  lemma FiledKeepsOthers(t: Tables, texts: seq<string>, outs: seq<string>, gid: int, h: int)
    requires QuestionsOk(t.questions, t.questionSeq) && AnswersOk(t.answers, t.answerSeq) && h != gid
    ensures var r := Filed(t, texts, outs, gid);
      QuestionsOf(r.questions, h) == QuestionsOf(t.questions, h) && AnswersOf(r.answers, h) == AnswersOf(t.answers, h)
  {
    var r := Filed(t, texts, outs, gid);
    FiledQuestions(t, texts, outs, gid);
    FiledAnswers(t, texts, outs, gid);
    TailQuestionsOf(t.questions, r.questions, gid);
    TailAnswersOf(t.answers, r.answers, gid);
    OtherGroupRowsKept(t.questions, r.questions[|t.questions|..], t.answers, r.answers[|t.answers|..], gid, h);
  }

  /** `create_group` keeps every constraint. */
  lemma CreatedConsistent(t: Tables, name: string, texts: seq<string>, outs: seq<string>)
    requires Consistent(t)
    ensures Consistent(Created(t, name, texts, outs))
  {
    AppendGroupOk(t.groups, t.groupSeq, NameValue(name));
    FiledConsistent(WithGroup(t, name), texts, outs, t.groupSeq + 1);
  }

  /** What `create_group` stores. The new group row comes last under the next id.
      Existing rows stay as they were. Every new question row belongs to the new
      group, carries one of the texts and was not yet in the store, so a text
      that another group already holds stays with that group; every text ends up
      held. The new group's answers are the output items, together with any rows
      already filed under the new id. */
  lemma CreatedRows(t: Tables, name: string, texts: seq<string>, outs: seq<string>)
    requires Consistent(t)
    ensures var r, gid := Created(t, name, texts, outs), t.groupSeq + 1;
      && r.groups == t.groups + [GroupRow(gid, NameValue(name))] && r.groupSeq == gid
      && t.questions <= r.questions && t.answers <= r.answers
      && (forall k :: |t.questions| <= k < |r.questions| ==>
            r.questions[k].groupId == gid && r.questions[k].question in texts &&
            !HeldQuestion(t.questions, r.questions[k].question))
      && (forall q :: q in texts ==> HeldQuestion(r.questions, q))
      && (forall x :: HeldAnswer(r.answers, gid, x) <==> x in outs || HeldAnswer(t.answers, gid, x))
  {
    var t1 := WithGroup(t, name);
    AppendGroupOk(t.groups, t.groupSeq, NameValue(name));
    FiledConsistent(t1, texts, outs, t.groupSeq + 1);
    FiledQuestions(t1, texts, outs, t.groupSeq + 1);
    FiledAnswers(t1, texts, outs, t.groupSeq + 1);
  }

  /** `create_group` leaves every other group with exactly the rows it had. */
  lemma CreatedKeepsOthers(t: Tables, name: string, texts: seq<string>, outs: seq<string>, h: int)
    requires Consistent(t) && h != t.groupSeq + 1
    ensures var r := Created(t, name, texts, outs);
      QuestionsOf(r.questions, h) == QuestionsOf(t.questions, h) && AnswersOf(r.answers, h) == AnswersOf(t.answers, h)
  {
    FiledKeepsOthers(WithGroup(t, name), texts, outs, t.groupSeq + 1, h);
  }

  lemma RenamedOk(gs: seq<GroupRow>, last: nat, gid: int, name: Option<string>)
    requires GroupsOk(gs, last)
    ensures GroupsOk(Renamed(gs, gid, name), last)
  {
    var r := Renamed(gs, gid, name);
    forall g | g in r ensures 0 < g.id <= last {
      var i :| 0 <= i < |r| && r[i] == g;
      assert gs[i] in gs;
    }
  }

  /** `update_group` keeps every constraint. */
  lemma UpdatedConsistent(t: Tables, gid: int, name: string, texts: seq<string>, outs: seq<string>)
    requires Consistent(t)
    ensures Consistent(Updated(t, gid, name, texts, outs))
  {
    var t1 := t.(groups := Renamed(t.groups, gid, NameValue(name)), questions := OtherQuestions(t.questions, gid));
    RenamedOk(t.groups, t.groupSeq, gid, NameValue(name));
    OtherQuestionsOk(t.questions, t.questionSeq, gid);
    assert GroupsOk(t1.groups, t1.groupSeq) && QuestionsOk(t1.questions, t1.questionSeq) && AnswersOk(t1.answers, t1.answerSeq);
    var t2 := WithQuestions(t1, texts, gid);
    WithQuestionsFacts(t1, texts, gid);
    var t3 := t2.(answers := OtherAnswers(t2.answers, gid));
    OtherAnswersOk(t2.answers, t2.answerSeq, gid);
    assert GroupsOk(t3.groups, t3.groupSeq) && QuestionsOk(t3.questions, t3.questionSeq) && AnswersOk(t3.answers, t3.answerSeq);
    var r := WithAnswers(t3, outs, gid);
    WithAnswersFacts(t3, outs, gid);
    assert GroupsOk(r.groups, r.groupSeq) && QuestionsOk(r.questions, r.questionSeq) && AnswersOk(r.answers, r.answerSeq);
    assert r == Updated(t, gid, name, texts, outs);
  }

  /** After `update_group` the group's row carries the new name, the group's
      questions are among the new texts, and every text is held, either by
      this group or by the group that already held it. */
  lemma UpdatedQuestions(t: Tables, gid: int, name: string, texts: seq<string>, outs: seq<string>)
    requires Consistent(t)
    ensures var r := Updated(t, gid, name, texts, outs);
      && |r.groups| == |t.groups|
      && (forall i :: 0 <= i < |t.groups| ==>
            r.groups[i] == if t.groups[i].id == gid then GroupRow(gid, NameValue(name)) else t.groups[i])
      && (forall x :: x in r.questions && x.groupId == gid ==> x.question in texts)
      && (forall q :: q in texts ==> HeldQuestion(r.questions, q))
  {
    var t1 := t.(groups := Renamed(t.groups, gid, NameValue(name)), questions := OtherQuestions(t.questions, gid));
    OtherQuestionsOk(t.questions, t.questionSeq, gid);
    var t2 := WithQuestions(t1, texts, gid);
    WithQuestionsFacts(t1, texts, gid);
    var t3 := t2.(answers := OtherAnswers(t2.answers, gid));
    var r := WithAnswers(t3, outs, gid);
    WithAnswersFrame(t3, outs, gid);
    assert r.questions == t2.questions && r.groups == t1.groups;
    forall x | x in r.questions ensures x.groupId == gid ==> x.question in texts {
      var k :| 0 <= k < |r.questions| && r.questions[k] == x;
      if k < |t1.questions| {
        assert t1.questions[k] == x;
        assert x in t1.questions;
      }
    }
  }

  /** After `update_group` the group's answers are exactly the output items. */
  lemma UpdatedAnswers(t: Tables, gid: int, name: string, texts: seq<string>, outs: seq<string>)
    requires Consistent(t)
    ensures var r := Updated(t, gid, name, texts, outs);
      forall x :: HeldAnswer(r.answers, gid, x) <==> x in outs
  {
    var t1 := t.(groups := Renamed(t.groups, gid, NameValue(name)), questions := OtherQuestions(t.questions, gid));
    var t2 := WithQuestions(t1, texts, gid);
    WithQuestionsFrameAnswers(t1, texts, gid);
    var t3 := t2.(answers := OtherAnswers(t2.answers, gid));
    OtherAnswersOk(t2.answers, t2.answerSeq, gid);
    var r := WithAnswers(t3, outs, gid);
    WithAnswersFacts(t3, outs, gid);
    assert r == Updated(t, gid, name, texts, outs);
    forall i | 0 <= i < |r.answers| ensures r.answers[i].groupId == gid ==> r.answers[i].answer in outs {
      if i < |t3.answers| {
        assert t3.answers[i] == r.answers[i];
        assert r.answers[i] in t3.answers;
      }
    }
  }

  /** Question inserts touch only the question table. */
  lemma {:induction false} WithQuestionsFrameAnswers(t: Tables, texts: seq<string>, gid: int)
    ensures var r := WithQuestions(t, texts, gid);
      r.groups == t.groups && r.answers == t.answers && r.groupSeq == t.groupSeq && r.answerSeq == t.answerSeq
  {
    if texts != [] { WithQuestionsFrameAnswers(t, texts[..|texts| - 1], gid); }
  }

  /** `update_group` leaves every other group with exactly the rows it had. */
  lemma UpdatedKeepsOthers(t: Tables, gid: int, name: string, texts: seq<string>, outs: seq<string>, h: int)
    requires Consistent(t) && h != gid
    ensures var r := Updated(t, gid, name, texts, outs);
      QuestionsOf(r.questions, h) == QuestionsOf(t.questions, h) && AnswersOf(r.answers, h) == AnswersOf(t.answers, h)
  {
    var t1 := t.(groups := Renamed(t.groups, gid, NameValue(name)), questions := OtherQuestions(t.questions, gid));
    OtherQuestionsOk(t.questions, t.questionSeq, gid);
    var t2 := WithQuestions(t1, texts, gid);
    WithQuestionsFacts(t1, texts, gid);
    var t3 := t2.(answers := OtherAnswers(t2.answers, gid));
    OtherAnswersOk(t2.answers, t2.answerSeq, gid);
    var r := WithAnswers(t3, outs, gid);
    WithAnswersFacts(t3, outs, gid);
    assert r == Updated(t, gid, name, texts, outs);
    TailQuestionsOf(t1.questions, r.questions, gid);
    TailAnswersOf(t3.answers, r.answers, gid);
    OtherGroupRowsKept(t1.questions, r.questions[|t1.questions|..], t3.answers, r.answers[|t3.answers|..], gid, h);
    OtherGroupRowsSurvive(t.questions, t.answers, gid, h);
  }

  /** `delete_group` keeps every constraint, leaves no row of the group in any
      table, and leaves every other group with exactly the rows it had. */
  lemma DeletedFacts(t: Tables, gid: int)
    requires Consistent(t)
    ensures var r := Deleted(t, gid);
      && Consistent(r)
      && (forall g :: g in r.groups <==> g in t.groups && g.id != gid)
      && (forall x :: x in r.questions ==> x.groupId != gid)
      && (forall x :: x in r.answers ==> x.groupId != gid)
      && (forall h :: h != gid ==> QuestionsOf(r.questions, h) == QuestionsOf(t.questions, h) &&
                                   AnswersOf(r.answers, h) == AnswersOf(t.answers, h))
  {
    OtherGroupsOk(t.groups, t.groupSeq, gid);
    OtherQuestionsOk(t.questions, t.questionSeq, gid);
    OtherAnswersOk(t.answers, t.answerSeq, gid);
    forall h | h != gid
      ensures QuestionsOf(OtherQuestions(t.questions, gid), h) == QuestionsOf(t.questions, h) &&
              AnswersOf(OtherAnswers(t.answers, gid), h) == AnswersOf(t.answers, h)
    {
      OtherGroupRowsSurvive(t.questions, t.answers, gid, h);
    }
  }

  // ------------------------------------------------------------------ Reads

  /** One group with its questions and answers, each in id order. */
  function View(t: Tables, g: GroupRow): GroupView
  {
    var qs, rows := QuestionsOf(t.questions, g.id), AnswersOf(t.answers, g.id);
    GroupView(g.id, g.name, QuestionTexts(qs), Ids(qs, QuestionId), AnswerTexts(rows), Ids(rows, AnswerId))
  }

  /** The views of `gs`, last row first. */
  function ViewsDesc(t: Tables, gs: seq<GroupRow>): (r: seq<GroupView>)
    ensures |r| == |gs|
    ensures forall k :: 0 <= k < |gs| ==> r[k] == View(t, gs[|gs| - 1 - k])
  {
    if gs == [] then [] else ViewsDesc(t, gs[1..]) + [View(t, gs[0])]
  }

  /** `get_all_groups`: every group, `ORDER BY id DESC`. */
  function AllGroupViews(t: Tables): seq<GroupView>
  {
    ViewsDesc(t, t.groups)
  }

  function FindGroup(gs: seq<GroupRow>, gid: int): (r: Option<GroupRow>)
    ensures r.Some? ==> r.value in gs && r.value.id == gid
    ensures r.None? <==> forall g :: g in gs ==> g.id != gid
  {
    if gs == [] then None else if gs[0].id == gid then Some(gs[0]) else FindGroup(gs[1..], gid)
  }

  /** `get_group_by_id`: the group with that id, or None. */
  function GroupById(t: Tables, gid: int): (r: Option<GroupView>)
    ensures r.None? <==> forall g :: g in t.groups ==> g.id != gid
    ensures r.Some? ==> r.value.id == gid
    ensures r.Some? ==> r.value.inputs == QuestionTexts(QuestionsOf(t.questions, gid)) &&
                        r.value.outputs == AnswerTexts(AnswersOf(t.answers, gid))
  {
    match FindGroup(t.groups, gid)
    case None => None
    case Some(g) => Some(View(t, g))
  }

  predicate Increasing(s: seq<int>) { forall i, j :: 0 <= i < j < |s| ==> s[i] < s[j] }

  /** Inside one view the rows come in id order and no text repeats. */
  lemma ViewOrdered(t: Tables, g: GroupRow)
    requires QuestionsOk(t.questions, t.questionSeq) && AnswersOk(t.answers, t.answerSeq)
    ensures var v := View(t, g);
      Increasing(v.inputIds) && Increasing(v.outputIds) && NoDuplicates(v.inputs) && NoDuplicates(v.outputs)
  {
    var qs, rows := QuestionsOf(t.questions, g.id), AnswersOf(t.answers, g.id);
    KeepAscending(t.questions, (q: QuestionRow) => q.groupId == g.id, QuestionId);
    KeepDistinct(t.questions, (q: QuestionRow) => q.groupId == g.id, QuestionText);
    KeepAscending(t.answers, (a: AnswerRow) => a.groupId == g.id, AnswerId);
    KeepDistinct(t.answers, (a: AnswerRow) => a.groupId == g.id, AnswerKey);
    forall i, j | 0 <= i < j < |rows| ensures rows[i].answer != rows[j].answer {
      assert rows[i] in rows && rows[j] in rows;
      assert AnswerKey(rows[i]) != AnswerKey(rows[j]);
    }
  }

  /** `get_all_groups` lists each group once, newest first. */
  lemma AllGroupsNewestFirst(t: Tables)
    requires Ascending(t.groups, GroupId)
    ensures var v := AllGroupViews(t);
      |v| == |t.groups| && forall i, j :: 0 <= i < j < |v| ==> v[i].id > v[j].id
  {
    var v, n := AllGroupViews(t), |t.groups|;
    forall i, j | 0 <= i < j < |v| ensures v[i].id > v[j].id {
      assert v[i] == View(t, t.groups[n - 1 - i]) && v[j] == View(t, t.groups[n - 1 - j]);
      assert GroupId(t.groups[n - 1 - j]) < GroupId(t.groups[n - 1 - i]);
    }
  }

  /** Every entry of `get_all_groups` lists its rows in id order without repeats. */
  lemma AllGroupsRowsOrdered(t: Tables)
    requires QuestionsOk(t.questions, t.questionSeq) && AnswersOk(t.answers, t.answerSeq)
    ensures var v := AllGroupViews(t);
      forall i :: 0 <= i < |v| ==>
        Increasing(v[i].inputIds) && Increasing(v[i].outputIds) && NoDuplicates(v[i].inputs) && NoDuplicates(v[i].outputs)
  {
    var v, n := AllGroupViews(t), |t.groups|;
    forall i | 0 <= i < |v|
      ensures Increasing(v[i].inputIds) && Increasing(v[i].outputIds) && NoDuplicates(v[i].inputs) && NoDuplicates(v[i].outputs)
    {
      assert v[i] == View(t, t.groups[n - 1 - i]);
      ViewOrdered(t, t.groups[n - 1 - i]);
    }
  }

  /** Ids in the group table are unique. */
  lemma UniqueGroupId(gs: seq<GroupRow>, i: int, j: int)
    requires Ascending(gs, GroupId) && 0 <= i < |gs| && 0 <= j < |gs|
    ensures gs[i].id == gs[j].id ==> i == j
  {
    if i < j { assert GroupId(gs[i]) < GroupId(gs[j]); }
    if j < i { assert GroupId(gs[j]) < GroupId(gs[i]); }
  }

  /** Looking a stored row up by its id finds that row. */
  lemma FindGroupFinds(gs: seq<GroupRow>, g: GroupRow)
    requires Ascending(gs, GroupId) && g in gs
    ensures FindGroup(gs, g.id) == Some(g)
  {
    var f := FindGroup(gs, g.id);
    var i :| 0 <= i < |gs| && gs[i] == f.value;
    var j :| 0 <= j < |gs| && gs[j] == g;
    UniqueGroupId(gs, i, j);
  }

  /** `get_group_by_id` returns the entry that `get_all_groups` lists for that id. */
  lemma GroupByIdAgrees(t: Tables, k: int)
    requires Ascending(t.groups, GroupId) && 0 <= k < |AllGroupViews(t)|
    ensures GroupById(t, AllGroupViews(t)[k].id) == Some(AllGroupViews(t)[k])
  {
    var g := t.groups[|t.groups| - 1 - k];
    FindGroupFinds(t.groups, g);
  }

  /** A row is held for the group exactly when its text is among the group's answers. */
  lemma HeldAnswerListed(rows: seq<AnswerRow>, gid: int, x: string)
    ensures HeldAnswer(rows, gid, x) <==> x in AnswerTexts(AnswersOf(rows, gid))
  {
    var sel := AnswersOf(rows, gid);
    if HeldAnswer(rows, gid, x) {
      var i :| 0 <= i < |rows| && rows[i].groupId == gid && rows[i].answer == x;
      assert rows[i] in sel;
      var j :| 0 <= j < |sel| && sel[j] == rows[i];
      assert AnswerTexts(sel)[j] == x;
    }
    if x in AnswerTexts(sel) {
      var j :| 0 <= j < |sel| && AnswerTexts(sel)[j] == x;
      assert sel[j] in rows;
      var i :| 0 <= i < |rows| && rows[i] == sel[j];
    }
  }

  /** After filing, every new answer text is listed among the group's answers. */
  lemma FiledListsOutputs(t: Tables, texts: seq<string>, outs: seq<string>, gid: int)
    requires AnswersOk(t.answers, t.answerSeq)
    ensures var r := Filed(t, texts, outs, gid);
      forall x :: x in outs ==> x in AnswerTexts(AnswersOf(r.answers, gid))
  {
    var r := Filed(t, texts, outs, gid);
    FiledAnswers(t, texts, outs, gid);
    forall x | x in outs ensures x in AnswerTexts(AnswersOf(r.answers, gid)) {
      HeldAnswerListed(r.answers, gid, x);
    }
  }

  /** After filing, every text that no row held before is listed among the group's questions. */
  lemma FiledListsPieces(t: Tables, texts: seq<string>, outs: seq<string>, gid: int)
    requires QuestionsOk(t.questions, t.questionSeq)
    ensures var r := Filed(t, texts, outs, gid);
      forall q :: q in texts && !HeldQuestion(t.questions, q) ==> q in QuestionTexts(QuestionsOf(r.questions, gid))
  {
    var r := Filed(t, texts, outs, gid);
    FiledQuestions(t, texts, outs, gid);
    forall q | q in texts && !HeldQuestion(t.questions, q) ensures q in QuestionTexts(QuestionsOf(r.questions, gid)) {
      var k :| 0 <= k < |r.questions| && r.questions[k].question == q;
      assert k >= |t.questions| by {
        forall i | 0 <= i < |t.questions| ensures r.questions[i].question != q {
          assert r.questions[i] == t.questions[i];
        }
      }
      var sel := QuestionsOf(r.questions, gid);
      assert r.questions[k] in sel;
      var j :| 0 <= j < |sel| && sel[j] == r.questions[k];
      assert QuestionTexts(sel)[j] == q;
    }
  }

  /** The group that `create_group` makes is found by `get_group_by_id` under the
      returned id, with the given name, every output item among its answers and
      every text that no row held before among its questions. */
  lemma CreatedGroupFound(t: Tables, name: string, texts: seq<string>, outs: seq<string>)
    requires Consistent(t)
    ensures var r := GroupById(Created(t, name, texts, outs), t.groupSeq + 1);
      && r.Some? && r.value.name == NameValue(name)
      && (forall x :: x in outs ==> x in r.value.outputs)
      && (forall q :: q in texts && !HeldQuestion(t.questions, q) ==> q in r.value.inputs)
  {
    var c, gid := Created(t, name, texts, outs), t.groupSeq + 1;
    var t1 := WithGroup(t, name);
    AppendGroupOk(t.groups, t.groupSeq, NameValue(name));
    FiledConsistent(t1, texts, outs, gid);
    FiledListsOutputs(t1, texts, outs, gid);
    FiledListsPieces(t1, texts, outs, gid);
    var row := GroupRow(gid, NameValue(name));
    assert c.groups[|c.groups| - 1] == row;
    FindGroupFinds(c.groups, row);
  }

  // ---------------------------------------------------------- Stored texts

  lemma {:induction false} WithQuestionsWellFormed(t: Tables, texts: seq<string>, gid: int)
    requires WellFormed(t)
    requires forall k :: 0 <= k < |texts| ==> texts[k] != [] && IsStripped(texts[k])
    ensures WellFormed(WithQuestions(t, texts, gid))
  {
    if texts != [] {
      var front, q := texts[..|texts| - 1], texts[|texts| - 1];
      WithQuestionsWellFormed(t, front, gid);
    }
  }

  lemma {:induction false} WithAnswersWellFormed(t: Tables, texts: seq<string>, gid: int)
    requires WellFormed(t)
    requires forall k :: 0 <= k < |texts| ==> IsParagraph(texts[k])
    ensures WellFormed(WithAnswers(t, texts, gid))
  {
    if texts != [] {
      var front, a := texts[..|texts| - 1], texts[|texts| - 1];
      WithAnswersWellFormed(t, front, gid);
    }
  }

  /** Filing cleaned texts keeps every stored text well formed. */
  lemma FiledWellFormed(t: Tables, texts: seq<string>, outs: seq<string>, gid: int)
    requires WellFormed(t)
    requires forall k :: 0 <= k < |texts| ==> texts[k] != [] && IsStripped(texts[k])
    requires forall k :: 0 <= k < |outs| ==> IsParagraph(outs[k])
    ensures WellFormed(Filed(t, texts, outs, gid))
  {
    WithQuestionsWellFormed(t, texts, gid);
    WithAnswersWellFormed(WithQuestions(t, texts, gid), outs, gid);
  }

  /** Every stored question is a stripped, non-empty sentence, and every stored
      answer is non-blank: `create_group` only ever inserts cleaned texts. */
  lemma CreatedWellFormed(t: Tables, name: string, texts: seq<string>, outs: seq<string>)
    requires WellFormed(t)
    requires forall k :: 0 <= k < |texts| ==> texts[k] != [] && IsStripped(texts[k])
    requires forall k :: 0 <= k < |outs| ==> IsParagraph(outs[k])
    ensures WellFormed(Created(t, name, texts, outs))
  {
    FiledWellFormed(WithGroup(t, name), texts, outs, t.groupSeq + 1);
  }

  /** The same for `update_group`. */
  lemma UpdatedWellFormed(t: Tables, gid: int, name: string, texts: seq<string>, outs: seq<string>)
    requires WellFormed(t)
    requires forall k :: 0 <= k < |texts| ==> texts[k] != [] && IsStripped(texts[k])
    requires forall k :: 0 <= k < |outs| ==> IsParagraph(outs[k])
    ensures WellFormed(Updated(t, gid, name, texts, outs))
  {
    var u1 := t.(groups := Renamed(t.groups, gid, NameValue(name)), questions := OtherQuestions(t.questions, gid));
    WithQuestionsWellFormed(u1, texts, gid);
    var u2 := WithQuestions(u1, texts, gid);
    WithAnswersWellFormed(u2.(answers := OtherAnswers(u2.answers, gid)), outs, gid);
  }

  /** Question inserts one list after another are the inserts of the joined list. */
  lemma {:induction false} WithQuestionsAppend(t: Tables, a: seq<string>, b: seq<string>, gid: int)
    ensures WithQuestions(WithQuestions(t, a, gid), b, gid) == WithQuestions(t, a + b, gid)
    decreases |b|
  {
    if b == [] {
      assert a + b == a;
    } else {
      var front, x := b[..|b| - 1], b[|b| - 1];
      WithQuestionsAppend(t, a, front, gid);
      assert a + b == (a + front) + [x];
      WithQuestionsSnoc(t, a + front, x, gid);
    }
  }

  lemma DeletedWellFormed(t: Tables, gid: int)
    requires WellFormed(t)
    ensures WellFormed(Deleted(t, gid))
  {
  }

  /** Appending one more text inserts it after the others. */
  lemma WithQuestionsSnoc(t: Tables, texts: seq<string>, q: string, gid: int)
    ensures WithQuestions(t, texts + [q], gid) == WithQuestion(WithQuestions(t, texts, gid), q, gid)
  {
    assert (texts + [q])[..|texts|] == texts;
  }

  lemma WithAnswersSnoc(t: Tables, texts: seq<string>, a: string, gid: int)
    ensures WithAnswers(t, texts + [a], gid) == WithAnswer(WithAnswers(t, texts, gid), a, gid)
  {
    assert (texts + [a])[..|texts|] == texts;
  }

  // ----------------------------------------------------------------- Store

  /** The database connection: the three tables, updated in place. */
  class Store {
    var groups: seq<GroupRow>
    var questions: seq<QuestionRow>
    var answers: seq<AnswerRow>
    var groupSeq: nat
    var questionSeq: nat
    var answerSeq: nat

    function State(): Tables
      reads this
    {
      Tables(groups, questions, answers, groupSeq, questionSeq, answerSeq)
    }

    predicate Valid()
      reads this
    {
      Consistent(State()) && WellFormed(State())
    }

    /** `init_db` on an empty database file. */
    constructor ()
      ensures Valid() && State() == Tables([], [], [], 0, 0, 0)
    {
      groups, questions, answers := [], [], [];
      groupSeq, questionSeq, answerSeq := 0, 0, 0;
    }

    /** One `INSERT OR IGNORE INTO questions` statement. */
    method InsertQuestion(q: string, gid: int)
      requires Valid() && q != [] && IsStripped(q)
      modifies this
      ensures Valid() && State() == WithQuestion(old(State()), q, gid)
    {
      ghost var t := State();
      WithQuestionStep(t, q, gid);
      if !HeldQuestion(questions, q) {
        questions := questions + [QuestionRow(questionSeq + 1, q, gid)];
      }
      questionSeq := questionSeq + 1;
      assert State() == WithQuestion(t, q, gid);
    }

    /** One `INSERT OR IGNORE INTO answers` statement. */
    method InsertAnswer(a: string, gid: int)
      requires Valid() && IsParagraph(a)
      modifies this
      ensures Valid() && State() == WithAnswer(old(State()), a, gid)
    {
      ghost var t := State();
      WithAnswerStep(t, a, gid);
      if !HeldAnswer(answers, gid, a) {
        answers := answers + [AnswerRow(answerSeq + 1, gid, a)];
      }
      answerSeq := answerSeq + 1;
      assert State() == WithAnswer(t, a, gid);
    }

    /** The sentences of one paragraph: a single sentence is stripped and
        inserted when non-empty; several are stripped and inserted one by one,
        skipping blank ones. */
    method InsertSentences(sentences: seq<string>, gid: int)
      requires Valid()
      modifies this
      ensures Valid() && State() == WithQuestions(old(State()), StripNonBlank(sentences), gid)
    {
      if |sentences| == 1 {
        var q := Strip(sentences[0]);
        assert StripNonBlank(sentences) == if q != [] then [q] else [] by {
          assert sentences[1..] == [];
        }
        if q != [] {
          InsertQuestion(q, gid);
          WithQuestionsSnoc(old(State()), [], q, gid);
        }
      } else {
        var k := 0;
        while k < |sentences|
          invariant 0 <= k <= |sentences|
          invariant Valid()
          invariant State() == WithQuestions(old(State()), StripNonBlank(sentences[..k]), gid)
        {
          var s := Strip(sentences[k]);
          ghost var done := StripNonBlank(sentences[..k]);
          StripNonBlankStep(sentences, k);
          if s != [] {
            InsertQuestion(s, gid);
            WithQuestionsSnoc(old(State()), done, s, gid);
          } else {
            assert done + [] == done;
          }
          k := k + 1;
        }
        assert sentences[..|sentences|] == sentences;
      }
    }

    /** The `for para in inputs_list` loop shared by `create_group` and
        `update_group`: each paragraph is split into sentences, and each
        stripped, non-empty sentence is inserted. */
    method InsertParagraphs(paras: seq<string>, gid: int)
      requires Valid()
      modifies this
      ensures Valid() && State() == WithQuestions(old(State()), SentencePieces(paras), gid)
    {
      var p := 0;
      while p < |paras|
        invariant 0 <= p <= |paras|
        invariant Valid()
        invariant State() == WithQuestions(old(State()), SentencePieces(paras[..p]), gid)
      {
        ghost var done := SentencePieces(paras[..p]);
        var sentences := SplitIntoSentences(paras[p]);
        InsertSentences(sentences, gid);
        WithQuestionsAppend(old(State()), done, StripNonBlank(sentences), gid);
        SentencePiecesStep(paras, p);
        p := p + 1;
      }
      assert paras[..|paras|] == paras;
    }

    /** The `for out in outputs_list` loop shared by `create_group` and `update_group`. */
    method InsertOutputs(outs: seq<string>, gid: int)
      requires Valid() && forall k :: 0 <= k < |outs| ==> IsParagraph(outs[k])
      modifies this
      ensures Valid() && State() == WithAnswers(old(State()), outs, gid)
    {
      var k := 0;
      while k < |outs|
        invariant 0 <= k <= |outs|
        invariant Valid()
        invariant State() == WithAnswers(old(State()), outs[..k], gid)
      {
        var out := outs[k];
        assert outs[..k + 1] == outs[..k] + [out];
        if Strip(out) != [] {
          InsertAnswer(out, gid);
          WithAnswersSnoc(old(State()), outs[..k], out, gid);
        }
        k := k + 1;
      }
      assert outs[..|outs|] == outs;
    }

    /** `create_group`: the new group's id. */
    method CreateGroup(name: string, inputs: RawField, outputs: RawField) returns (gid: int)
      requires Valid()
      modifies this
      ensures Valid() && gid == old(groupSeq) + 1
      ensures State() == Created(old(State()), name, Pieces(inputs), EnsureList(outputs))
    {
      ghost var t := State();
      AppendGroupOk(groups, groupSeq, NameValue(name));
      groups := groups + [GroupRow(groupSeq + 1, NameValue(name))];
      groupSeq := groupSeq + 1;
      gid := groupSeq;
      assert State() == WithGroup(t, name);
      var inputsList := EnsureList(inputs);
      InsertParagraphs(inputsList, gid);
      var outputsList := EnsureList(outputs);
      InsertOutputs(outputsList, gid);
    }

    /** `update_group`. */
    method UpdateGroup(gid: int, name: string, inputs: RawField, outputs: RawField)
      requires Valid()
      modifies this
      ensures Valid() && State() == Updated(old(State()), gid, name, Pieces(inputs), EnsureList(outputs))
    {
      ghost var t := State();
      RenamedOk(groups, groupSeq, gid, NameValue(name));
      OtherQuestionsOk(questions, questionSeq, gid);
      groups := Renamed(groups, gid, NameValue(name));
      questions := OtherQuestions(questions, gid);
      var inputsList := EnsureList(inputs);
      InsertParagraphs(inputsList, gid);
      OtherAnswersOk(answers, answerSeq, gid);
      answers := OtherAnswers(answers, gid);
      var outputsList := EnsureList(outputs);
      InsertOutputs(outputsList, gid);
    }

    /** `delete_group`. */
    method DeleteGroup(gid: int)
      requires Valid()
      modifies this
      ensures Valid() && State() == Deleted(old(State()), gid)
    {
      ghost var t := State();
      DeletedFacts(t, gid);
      DeletedWellFormed(t, gid);
      answers := OtherAnswers(answers, gid);
      questions := OtherQuestions(questions, gid);
      groups := OtherGroups(groups, gid);
      assert State() == Deleted(t, gid);
    }

    /** `get_all_groups`. */
    method GetAllGroups() returns (out: seq<GroupView>)
      requires Valid()
      ensures out == AllGroupViews(State())
    {
      out := [];
      var i := |groups|;
      while i > 0
        invariant 0 <= i <= |groups|
        invariant out == ViewsDesc(State(), groups[i..])
      {
        i := i - 1;
        assert groups[i..][1..] == groups[i + 1..];
        out := out + [View(State(), groups[i])];
      }
    }

    /** `get_random_answer_for_group`: one of the group's answers, or None when it
        has none; `random.choice` is any element. */
    method GetRandomAnswerForGroup(gid: int) returns (r: Option<string>)
      requires Valid()
      ensures r.None? <==> AnswersOf(answers, gid) == []
      ensures r.Some? ==> r.value in AnswerTexts(AnswersOf(answers, gid)) && !AllSpace(r.value)
    {
      var texts := AnswerTexts(AnswersOf(answers, gid));
      if texts == [] {
        return None;
      }
      assert texts[0] in texts;
      var a :| a in texts;
      var j :| 0 <= j < |texts| && texts[j] == a;
      assert AnswersOf(answers, gid)[j] in answers;
      r := Some(a);
    }
  }
}
