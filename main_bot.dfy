/**
 * `main.py`: the phrase rule of `add_or_merge_entry` (one exact `input` per
 * phrase), `answer_phrase` (exact trigger, then difflib's closest trigger),
 * `parse_question` with its yes/no branch, and `answer_question`. A `Bot`
 * holds the two pieces of state the file mutates: `kb["knowledge"]` and the
 * module-level `recent_phrase_responses`.
 */
module MainBot {
  import opened Common
  import opened Text
  import opened Fuzzy
  import opened Knowledge

  // ---------------------------------------------------------------------------
  // add_or_merge_entry
  // ---------------------------------------------------------------------------

  /** The phrase at which the loops comparing `entry["input"]` with a trigger
      `inp` stop: one whose input equals `inp`, or one where either key is
      missing, since the comparison then raises KeyError. */
  function PhraseKey(inp: Option<string>): Entry -> bool
  {
    (x: Entry) => x.Phrase? && (x.trigger.None? || inp.None? || x.trigger == inp)
  }

  /** `add_or_merge_entry(kb, e)`: the new knowledge list, or the exception. */
  function Added(kb: seq<Entry>, e: Entry): Result<seq<Entry>>
  {
    if !e.Phrase? then Ok(AddedCommon(kb, e))
    else match First(kb, PhraseKey(e.trigger))
      case None => Ok(kb + [e])
      case Some(j) =>
        if kb[j].trigger.None? || e.trigger.None? then Err(KeyError)
        else Ok(kb[j := kb[j].(outputs := MergeOutputs(kb[j].outputs, e.outputs))])
  }

  /** The knowledge list after the call; an exception leaves it untouched. */
  function After(kb: seq<Entry>, e: Entry): seq<Entry>
  {
    match Added(kb, e)
    case Ok(k) => k
    case Err(_) => kb
  }

  /** A phrase whose input is already held merges into that entry: only the
      missing outputs are appended and the list keeps its length. */
  lemma PhraseMerged(kb: seq<Entry>, u: string, inputs: Option<seq<string>>, outputs: seq<string>, j: nat)
    requires j < |kb| && kb[j].Phrase? && kb[j].trigger == Some(u)
    requires forall i :: 0 <= i < j && kb[i].Phrase? ==> kb[i].trigger.Some? && kb[i].trigger != Some(u)
    ensures Added(kb, Phrase(Some(u), inputs, outputs)) == Ok(kb[j := kb[j].(outputs := MergeOutputs(kb[j].outputs, outputs))])
  {
    FirstIs(kb, PhraseKey(Some(u)), j);
  }

  /** A phrase with a new input is appended, provided every stored phrase has an input. */
  lemma PhraseAppended(kb: seq<Entry>, u: string, inputs: Option<seq<string>>, outputs: seq<string>)
    requires forall i :: 0 <= i < |kb| && kb[i].Phrase? ==> kb[i].trigger.Some? && kb[i].trigger != Some(u)
    ensures Added(kb, Phrase(Some(u), inputs, outputs)) == Ok(kb + [Phrase(Some(u), inputs, outputs)])
  {
    assert forall i :: 0 <= i < |kb| ==> !PhraseKey(Some(u))(kb[i]);
  }

  /** The call raises exactly when a phrase without `input` is met (or the new
      phrase has none and any phrase is met) before a phrase with the same input. */
  lemma AddedRaises(kb: seq<Entry>, e: Entry)
    ensures Added(kb, e).Err? <==> exists j :: RaisesAt(kb, e, j)
    ensures Added(kb, e).Err? ==> Added(kb, e).error == KeyError
  {
    if e.Phrase? {
      match First(kb, PhraseKey(e.trigger))
      case None =>
        forall j | 0 <= j < |kb| && kb[j].Phrase? ensures kb[j].trigger.Some? && e.trigger.Some? {
          assert !PhraseKey(e.trigger)(kb[j]);
        }
      case Some(j) =>
        forall i | 0 <= i < j ensures !(kb[i].Phrase? && kb[i].trigger == e.trigger) {
          assert !PhraseKey(e.trigger)(kb[i]);
        }
        if kb[j].trigger.None? || e.trigger.None? { assert RaisesAt(kb, e, j); }
    }
  }

  /** The phrase at `j` lacks an input (or the new phrase does) and no earlier phrase has the new input. */
  predicate RaisesAt(kb: seq<Entry>, e: Entry, j: int)
  {
    e.Phrase? && 0 <= j < |kb| && kb[j].Phrase? && (kb[j].trigger.None? || e.trigger.None?) &&
    forall i :: 0 <= i < j ==> !(kb[i].Phrase? && kb[i].trigger == e.trigger)
  }

  /** Adding the same entry twice leaves the same list as adding it once. */
  lemma AddedIdempotent(kb: seq<Entry>, e: Entry)
    ensures After(After(kb, e), e) == After(kb, e)
  {
    if !e.Phrase? {
      AddedCommonIdempotent(kb, e);
    } else {
      var key := PhraseKey(e.trigger);
      match First(kb, key)
      case None =>
        FirstAfterAppend(kb, key, e);
        MergeOutputsPresent(e.outputs, e.outputs);
        assert e.(outputs := e.outputs) == e;
        assert (kb + [e])[|kb| := e] == kb + [e];
      case Some(j) =>
        if kb[j].trigger.Some? && e.trigger.Some? {
          var x := kb[j].(outputs := MergeOutputs(kb[j].outputs, e.outputs));
          FirstAfterUpdate(kb, key, j, x);
          MergeOutputsIdempotent(kb[j].outputs, e.outputs);
          assert kb[j := x][j := x] == kb[j := x];
        }
    }
  }

  /** The dedup invariant survives every call. */
  lemma AddedDeduped(kb: seq<Entry>, e: Entry)
    requires Deduped(kb)
    ensures Deduped(After(kb, e))
  {
    if !e.Phrase? {
      AddedCommonDeduped(kb, e);
    } else {
      match First(kb, PhraseKey(e.trigger))
      case None => PhraseChangeDeduped(kb, |kb|, e);
      case Some(j) => PhraseChangeDeduped(kb, j, kb[j].(outputs := MergeOutputs(kb[j].outputs, e.outputs)));
    }
  }

  // ---------------------------------------------------------------------------
  // answer_phrase
  // ---------------------------------------------------------------------------

  const PhraseCutoff: real := 0.7

  /** `[entry["input"] for entry in kb["knowledge"] if entry["type"] == "phrase"]`,
      built only once the exact loop has found every phrase to have an input. */
  function PhraseInputs(kb: seq<Entry>): (r: seq<string>)
    ensures forall m :: m in r <==> exists i :: 0 <= i < |kb| && kb[i].Phrase? && kb[i].trigger == Some(m)
  {
    if kb == [] then []
    else
      assert forall i :: 0 < i < |kb| ==> kb[i] == kb[1..][i - 1];
      (if kb[0].Phrase? && kb[0].trigger.Some? then [kb[0].trigger.value] else []) + PhraseInputs(kb[1..])
  }

  function PhraseWith(m: string): Entry -> bool { (x: Entry) => x.Phrase? && x.trigger == Some(m) }

  lemma PhraseInputsFound(kb: seq<Entry>, m: string)
    requires m in PhraseInputs(kb)
    ensures First(kb, PhraseWith(m)).Some?
  {
    var i :| 0 <= i < |kb| && kb[i].Phrase? && kb[i].trigger == Some(m);
    assert PhraseWith(m)(kb[i]);
  }

  /** `answer_phrase(kb, user_input)` and the window after it: the outputs of
      the first phrase whose input is the stripped, lower-cased text, else of
      the first phrase whose input is difflib's closest match (cutoff 0.7). */
  function PhraseReply(kb: seq<Entry>, userInput: string, ratio: (string, string) -> real,
                       recent: seq<string>): (r: Said<Result<Option<string>>>)
    ensures r.reply.Err? ==> r.recent == recent
    ensures r.reply.Ok? && r.reply.value.Some? ==>
      exists i :: 0 <= i < |kb| && kb[i].Phrase? && r.reply.value.value in kb[i].outputs
    ensures |recent| <= WindowSize ==> |r.recent| <= WindowSize
    ensures NoDuplicates(recent) ==> NoDuplicates(r.recent)
  {
    var u := Strip(Lower(userInput));
    match First(kb, PhraseKey(Some(u)))
    case Some(j) =>
      if kb[j].trigger.None? then Said(Err(KeyError), recent)
      else Optional(Chosen(kb[j].outputs, recent))
    case None =>
      match CloseMatch(u, PhraseInputs(kb), PhraseCutoff, ratio)
      case None => Said(Ok(None), recent)
      case Some(m) =>
        PhraseInputsFound(kb, m);
        Optional(Chosen(kb[First(kb, PhraseWith(m)).value].outputs, recent))
  }

  /** After a phrase is taught (without an exception), asking its input gets one of its outputs. */
  lemma PhraseLearned(kb: seq<Entry>, question: string, inputs: Option<seq<string>>, outputs: seq<string>,
                      ratio: (string, string) -> real, recent: seq<string>)
    requires outputs != []
    requires Added(kb, Phrase(Some(Strip(Lower(question))), inputs, outputs)).Ok?
    ensures var k := After(kb, Phrase(Some(Strip(Lower(question))), inputs, outputs));
      var r := PhraseReply(k, question, ratio, recent);
      r.reply.Ok? && r.reply.value.Some? &&
      exists i :: 0 <= i < |k| && k[i].Phrase? && k[i].trigger == Some(Strip(Lower(question))) && r.reply.value.value in k[i].outputs
  {
    var u := Strip(Lower(question));
    var e := Phrase(Some(u), inputs, outputs);
    var key := PhraseKey(Some(u));
    match First(kb, key)
    case None =>
      FirstAfterAppend(kb, key, e);
    case Some(j) =>
      var x := kb[j].(outputs := MergeOutputs(kb[j].outputs, outputs));
      FirstAfterUpdate(kb, key, j, x);
      assert outputs[0] in x.outputs;
  }

  // ---------------------------------------------------------------------------
  // parse_question and the reasoning step of answer_question
  // ---------------------------------------------------------------------------

  const YesNoStarters: set<string> :=
    {"is", "are", "do", "does", "did", "was", "were", "can", "could", "will", "would", "have", "has", "had"}

  const Colors: set<string> := {"red", "blue", "green", "yellow", "black", "white", "orange", "purple"}

  /** The yes/no branch of `parse_question` on the tokens of the cleaned text. */
  function YesNoParse(tokens: seq<string>): (p: Parsed)
    requires forall k :: 0 <= k < |tokens| ==> IsToken(tokens[k])
    ensures p.qtype == Some(YesNo) && p.obj == (if |tokens| >= 3 then Some(tokens[|tokens| - 1]) else None)
    ensures p.subject.Some? <==> p.obj.Some?
    ensures p.subject.Some? ==> ArticleFree(p.subject.value)
    ensures p.obj.Some? ==> IsToken(p.obj.value) && p.pred == Some(if p.obj.value in Colors then "has_color" else "is")
    ensures p.obj.None? ==> p.pred.None?
  {
    if |tokens| >= 3 then
      var obj := tokens[|tokens| - 1];
      Parsed(Some(YesNo), Some(RemoveArticles(tokens[1])), Some(if obj in Colors then "has_color" else "is"), Some(obj))
    else Parsed(Some(YesNo), None, None, None)
  }

  /** `parse_question(text)` */
  function Parse(text: string): (p: Parsed)
    ensures var tokens := Tokenize(Strip(Lower(text)));
      (p == NotParsed <==> tokens == [] || (tokens[0] !in YesNoStarters && tokens[0] !in WhWords)) &&
      (tokens != [] && tokens[0] in YesNoStarters ==> p == YesNoParse(tokens)) &&
      (tokens != [] && tokens[0] !in YesNoStarters && tokens[0] in WhWords ==> p.qtype == Some(Wh))
    ensures p.qtype.None? ==> p == NotParsed
    ensures p.subject.Some? ==> ArticleFree(p.subject.value)
  {
    var t := Strip(Lower(text));
    var tokens := Tokenize(t);
    if tokens == [] then NotParsed
    else if tokens[0] in YesNoStarters then YesNoParse(tokens)
    else if tokens[0] in WhWords then WhParse(t, tokens)
    else NotParsed
  }

  /** The reply of `answer_question` once math, phrases and examples gave nothing. */
  function Reason(kb: seq<Entry>, input: string): string
  {
    var p := Parse(input);
    if p.qtype == Some(YesNo) then
      if p.subject.None? || p.pred.None? || p.obj.None? then "I don't understand the question."
      else if AssocMatches(kb, p.subject, p.pred, p.obj) != [] then "Yes" else "No"
    else if p.qtype == Some(Wh) then WhReply(kb, input, p)
    else FallbackReply(kb, input)
  }

  /** A complete yes/no question is answered "Yes" exactly when a stored
      association agrees with its non-empty subject, predicate and object. */
  lemma YesNoReply(kb: seq<Entry>, input: string)
    requires var p := Parse(input); p.qtype == Some(YesNo) && p.subject.Some? && p.pred.Some? && p.obj.Some?
    ensures var p := Parse(input);
      (Reason(kb, input) == "Yes" <==> exists a :: Association(a) in kb && AssocPasses(a, p.subject, p.pred, p.obj)) &&
      (Reason(kb, input) == "Yes" || Reason(kb, input) == "No")
  {
    var p := Parse(input);
    AssocMatchesMembers(kb, p.subject, p.pred, p.obj);
    var m := AssocMatches(kb, p.subject, p.pred, p.obj);
    if m != [] { assert m[0] in m; }
  }

  /** When the word after the starter is an article (`is the sky blue`), the
      subject comes out empty and, being falsy, no longer filters: any
      association with that predicate and object answers "Yes". */
  lemma ArticleSubjectIgnored(kb: seq<Entry>, input: string)
    requires var tokens := Tokenize(Strip(Lower(input)));
      |tokens| >= 3 && tokens[0] in YesNoStarters && IsArticle(tokens[1])
    ensures var p := Parse(input);
      p.subject == Some([]) && p.pred.Some? && p.obj.Some? &&
      (Reason(kb, input) == "Yes" <==> exists a :: Association(a) in kb && AssocPasses(a, None, p.pred, p.obj))
  {
    var tokens := Tokenize(Strip(Lower(input)));
    LowerIdentity(tokens[1]);
    RemoveLoneArticle(tokens[1]);
    var p := Parse(input);
    AssocMatchesMembers(kb, p.subject, p.pred, p.obj);
    AssocMatchesMembers(kb, None, p.pred, p.obj);
    var m := AssocMatches(kb, p.subject, p.pred, p.obj);
    if m != [] { assert m[0] in m; }
  }

  /** `answer_question(kb, input_text)` given the window before the call. */
  function Answer(kb: seq<Entry>, input: string, ratio: (string, string) -> real,
                  eval: string -> Option<string>, recent: seq<string>): Said<Result<string>>
  {
    Dispatch(TryMath(input, eval), PhraseReply(kb, input, ratio, recent), ExampleAnswer(kb, input, ratio),
             Reason(kb, input), recent)
  }

  /** The bot state of `main.py`: the knowledge list and the recent-replies window. */
  class Bot {
    var knowledge: seq<Entry>
    var recent: seq<string>

    /** A bot over a loaded knowledge list, with an empty window. */
    constructor(kb: seq<Entry>)
      ensures knowledge == kb && recent == []
    {
      knowledge := kb;
      recent := [];
    }

    /** `add_or_merge_entry(kb, e)`; the exception, if any, is returned. */
    method AddOrMergeEntry(e: Entry) returns (err: Option<PyError>)
      modifies this
      ensures knowledge == After(old(knowledge), e) && recent == old(recent)
      ensures err == (match Added(old(knowledge), e) case Ok(_) => None case Err(x) => Some(x))
    {
      if !e.Phrase? {
        knowledge := AddCommon(knowledge, e);
        return None;
      }
      var j := IndexWhere(knowledge, PhraseKey(e.trigger));
      if j.None? {
        knowledge := knowledge + [e];
        return None;
      }
      var entry := knowledge[j.value];
      if entry.trigger.None? || e.trigger.None? {
        return Some(KeyError);
      }
      var outs := AppendMissing(entry.outputs, e.outputs);
      knowledge := knowledge[j.value := entry.(outputs := outs)];
      return None;
    }

    /** `answer_phrase(kb, user_input)` */
    method AnswerPhrase(userInput: string, ratio: (string, string) -> real) returns (r: Result<Option<string>>)
      modifies this
      ensures Said(r, recent) == PhraseReply(old(knowledge), userInput, ratio, old(recent))
      ensures knowledge == old(knowledge)
    {
      var u := Strip(Lower(userInput));
      var j := IndexWhere(knowledge, PhraseKey(Some(u)));
      if j.Some? {
        if knowledge[j.value].trigger.None? {
          return Err(KeyError);
        }
        var reply, now := PickReply(knowledge[j.value].outputs, recent);
        recent := now;
        return Optional(Said(reply, now)).reply;
      }
      var matches := CloseMatch(u, PhraseInputs(knowledge), PhraseCutoff, ratio);
      if matches.None? {
        return Ok(None);
      }
      PhraseInputsFound(knowledge, matches.value);
      var k := IndexWhere(knowledge, PhraseWith(matches.value));
      var reply, now := PickReply(knowledge[k.value].outputs, recent);
      recent := now;
      return Optional(Said(reply, now)).reply;
    }

    /** `answer_question(kb, input_text)` */
    method AnswerQuestion(input: string, ratio: (string, string) -> real, eval: string -> Option<string>)
      returns (r: Result<string>)
      modifies this
      ensures Said(r, recent) == Answer(old(knowledge), input, ratio, eval, old(recent))
      ensures knowledge == old(knowledge)
    {
      var math := TryMath(input, eval);
      if math.Some? {
        return Ok(math.value);
      }
      var phrase := AnswerPhrase(input, ratio);
      if phrase.Err? {
        return Err(phrase.error);
      }
      if phrase.value.Some? && phrase.value.value != [] {
        return Ok(phrase.value.value);
      }
      var example := AnswerExample(knowledge, input, ratio);
      if example.Some? && example.value != [] {
        return Ok(example.value);
      }
      var reply := ReasonAbout(knowledge, input);
      return Ok(reply);
    }
  }

  /** Step 3 of `answer_question`, with the lookups run as loops. */
  method ReasonAbout(kb: seq<Entry>, input: string) returns (r: string)
    ensures r == Reason(kb, input)
  {
    var p := Parse(input);
    if p.qtype == Some(YesNo) {
      if p.subject.None? || p.pred.None? || p.obj.None? {
        return "I don't understand the question.";
      }
      var matches := FindAssociation(kb, p.subject, p.pred, p.obj);
      return if matches != [] then "Yes" else "No";
    } else if p.qtype == Some(Wh) {
      r := AnswerWh(kb, input, p);
    } else {
      var facts := FindFactsOrConcepts(kb, input);
      return if facts != [] then facts[0] else "I don't know the answer to that.";
    }
  }
}
