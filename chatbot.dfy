/**
 * `chatbot.py`: the multi-trigger phrase rule of `add_or_merge_entry`,
 * `answer_phrase` over (trigger, outputs) pairs scored by fuzzywuzzy,
 * the WH-only `parse_question`, and `answer_question`. A `Bot` holds
 * `kb["knowledge"]` and the module-level `recent_phrase_responses`.
 */
module Chatbot {
  import opened Common
  import opened Text
  import opened Fuzzy
  import opened Knowledge

  // ---------------------------------------------------------------------------
  // add_or_merge_entry
  // ---------------------------------------------------------------------------

  /** The triggers of a stored phrase: its `inputs` list, else its single `input`, else none. */
  function Triggers(x: Entry): seq<string>
    requires x.Phrase?
  {
    if x.triggers.Some? then x.triggers.value
    else if x.trigger.Some? then [x.trigger.value]
    else []
  }

  /** `new_entry.get("inputs", [])`: a single `input` of the new phrase is not consulted. */
  function NewTriggers(e: Entry): seq<string>
    requires e.Phrase?
  {
    if e.triggers.Some? then e.triggers.value else []
  }

  /** A stored phrase sharing a trigger with `ts`. */
  function SharesTrigger(ts: seq<string>): Entry -> bool
  {
    (x: Entry) => x.Phrase? && exists t :: t in ts && t in Triggers(x)
  }

  /** `add_or_merge_entry(kb, e)`: a phrase merges its outputs into the first
      stored phrase sharing one of its triggers and is appended otherwise. */
  function Added(kb: seq<Entry>, e: Entry): seq<Entry>
  {
    if !e.Phrase? then AddedCommon(kb, e)
    else match First(kb, SharesTrigger(NewTriggers(e)))
      case None => kb + [e]
      case Some(j) => kb[j := kb[j].(outputs := MergeOutputs(kb[j].outputs, e.outputs))]
  }

  /** The first stored phrase with a common trigger receives the missing outputs; nothing else changes. */
  lemma PhraseMerged(kb: seq<Entry>, e: Entry, j: nat)
    requires e.Phrase? && j < |kb| && kb[j].Phrase?
    requires exists t :: t in NewTriggers(e) && t in Triggers(kb[j])
    requires forall i :: 0 <= i < j && kb[i].Phrase? ==> forall t :: t in NewTriggers(e) ==> t !in Triggers(kb[i])
    ensures |Added(kb, e)| == |kb|
    ensures Added(kb, e)[j] == kb[j].(outputs := MergeOutputs(kb[j].outputs, e.outputs))
    ensures forall i :: 0 <= i < |kb| && i != j ==> Added(kb, e)[i] == kb[i]
  {
    FirstIs(kb, SharesTrigger(NewTriggers(e)), j);
  }

  /** A phrase without an `inputs` list shares nothing and is always appended,
      so adding it twice stores it twice: the call is not idempotent for it. */
  lemma NoInputsAppended(kb: seq<Entry>, e: Entry)
    requires e.Phrase? && NewTriggers(e) == []
    ensures Added(kb, e) == kb + [e]
    ensures Added(Added(kb, e), e) == kb + [e, e]
  {
    assert forall x :: !SharesTrigger([])(x);
    assert kb + [e] + [e] == kb + [e, e];
  }

  /** Any other entry added twice leaves the list as adding it once. */
  lemma AddedIdempotent(kb: seq<Entry>, e: Entry)
    requires e.Phrase? ==> NewTriggers(e) != []
    ensures Added(Added(kb, e), e) == Added(kb, e)
  {
    if !e.Phrase? {
      AddedCommonIdempotent(kb, e);
    } else {
      var key := SharesTrigger(NewTriggers(e));
      match First(kb, key)
      case None =>
        assert NewTriggers(e)[0] in Triggers(e);
        FirstAfterAppend(kb, key, e);
        MergeOutputsPresent(e.outputs, e.outputs);
        assert e.(outputs := e.outputs) == e;
        assert (kb + [e])[|kb| := e] == kb + [e];
      case Some(j) =>
        var x := kb[j].(outputs := MergeOutputs(kb[j].outputs, e.outputs));
        assert Triggers(x) == Triggers(kb[j]);
        FirstAfterUpdate(kb, key, j, x);
        MergeOutputsIdempotent(kb[j].outputs, e.outputs);
        assert kb[j := x][j := x] == kb[j := x];
    }
  }

  /** The dedup invariant survives every call. */
  lemma AddedDeduped(kb: seq<Entry>, e: Entry)
    requires Deduped(kb)
    ensures Deduped(Added(kb, e))
  {
    if !e.Phrase? {
      AddedCommonDeduped(kb, e);
    } else {
      match First(kb, SharesTrigger(NewTriggers(e)))
      case None => PhraseChangeDeduped(kb, |kb|, e);
      case Some(j) => PhraseChangeDeduped(kb, j, kb[j].(outputs := MergeOutputs(kb[j].outputs, e.outputs)));
    }
  }

  // ---------------------------------------------------------------------------
  // answer_phrase
  // ---------------------------------------------------------------------------

  /** One element of `trigger_response_pairs`. */
  datatype TriggerPair = TriggerPair(trigger: string, outputs: seq<string>)

  /** The pairs one entry contributes: one per trigger of a phrase. */
  function PairsOf(x: Entry): (r: seq<TriggerPair>)
    ensures x.Phrase? ==> |r| == |Triggers(x)| && forall i :: 0 <= i < |r| ==> r[i] == TriggerPair(Triggers(x)[i], x.outputs)
    ensures !x.Phrase? ==> r == []
  {
    if x.Phrase? then
      var ts := Triggers(x);
      seq(|ts|, i requires 0 <= i < |ts| => TriggerPair(ts[i], x.outputs))
    else []
  }

  /** `trigger_response_pairs`, in knowledge order. */
  function TriggerPairs(kb: seq<Entry>): seq<TriggerPair>
    decreases |kb|
  {
    if kb == [] then [] else TriggerPairs(kb[..|kb| - 1]) + PairsOf(kb[|kb| - 1])
  }

  /** A pair is collected exactly when some stored phrase has that trigger and those outputs. */
  lemma {:induction false} TriggerPairsMembers(kb: seq<Entry>)
    ensures forall t, o :: TriggerPair(t, o) in TriggerPairs(kb) <==>
      exists i :: 0 <= i < |kb| && kb[i].Phrase? && t in Triggers(kb[i]) && o == kb[i].outputs
    decreases |kb|
  {
    if kb != [] {
      var front := kb[..|kb| - 1];
      var x := kb[|kb| - 1];
      TriggerPairsMembers(front);
      assert forall i :: 0 <= i < |front| ==> kb[i] == front[i];
      forall t, o ensures TriggerPair(t, o) in PairsOf(x) <==> x.Phrase? && t in Triggers(x) && o == x.outputs {
        if x.Phrase? && t in Triggers(x) && o == x.outputs {
          var i :| 0 <= i < |Triggers(x)| && Triggers(x)[i] == t;
          assert PairsOf(x)[i] == TriggerPair(t, o);
        }
      }
    }
  }

  /** The pair-building loops of `answer_phrase`. */
  method CollectTriggerPairs(kb: seq<Entry>) returns (pairs: seq<TriggerPair>)
    ensures pairs == TriggerPairs(kb)
  {
    pairs := [];
    var i := 0;
    while i < |kb|
      invariant 0 <= i <= |kb|
      invariant pairs == TriggerPairs(kb[..i])
    {
      assert kb[..i + 1][..i] == kb[..i];
      var entry := kb[i];
      if entry.Phrase? {
        var triggers := Triggers(entry);
        var k := 0;
        while k < |triggers|
          invariant 0 <= k <= |triggers|
          invariant pairs == TriggerPairs(kb[..i]) + PairsOf(entry)[..k]
        {
          assert PairsOf(entry)[..k + 1] == PairsOf(entry)[..k] + [TriggerPair(triggers[k], entry.outputs)];
          pairs := pairs + [TriggerPair(triggers[k], entry.outputs)];
          k := k + 1;
        }
        assert PairsOf(entry)[..k] == PairsOf(entry);
      }
      i := i + 1;
    }
    assert kb[..|kb|] == kb;
  }

  /** `[trig for trig, _ in trigger_response_pairs]` */
  function TriggerList(pairs: seq<TriggerPair>): (r: seq<string>)
    ensures |r| == |pairs| && forall i :: 0 <= i < |r| ==> r[i] == pairs[i].trigger
  {
    seq(|pairs|, i requires 0 <= i < |pairs| => pairs[i].trigger)
  }

  function TriggerIs(t: string): TriggerPair -> bool { (p: TriggerPair) => p.trigger == t }

  const Threshold: nat := 75

  /** The pair whose outputs answer: the first one whose trigger is extractOne's best
      match, which is the pair extractOne picked, since an earlier pair with the same
      trigger would have had the same score. */
  function BestPair(pairs: seq<TriggerPair>, userInput: string, score: (string, string) -> nat): (k: nat)
    requires pairs != []
    ensures k < |pairs|
    ensures forall i :: 0 <= i < |pairs| ==> score(userInput, pairs[i].trigger) <= score(userInput, pairs[k].trigger)
    ensures forall i :: 0 <= i < k ==> score(userInput, pairs[i].trigger) < score(userInput, pairs[k].trigger)
    ensures forall i :: 0 <= i < k ==> pairs[i].trigger != pairs[k].trigger
  {
    var ts := TriggerList(pairs);
    var best := ExtractOne(userInput, ts, score);
    FirstIs(pairs, TriggerIs(ts[best]), best);
    First(pairs, TriggerIs(ts[best])).value
  }

  /** `answer_phrase(kb, user_input)` and the window after it. */
  function PhraseReply(kb: seq<Entry>, userInput: string, score: (string, string) -> nat,
                       recent: seq<string>): (r: Said<Result<Option<string>>>)
    ensures (forall k :: 0 <= k < |TriggerPairs(kb)| ==> score(userInput, TriggerPairs(kb)[k].trigger) < Threshold) ==>
      r == Said(Ok(None), recent)
    ensures r.reply.Ok? && r.reply.value.Some? ==>
      var pairs := TriggerPairs(kb);
      exists k :: 0 <= k < |pairs| && r.reply.value.value in pairs[k].outputs &&
        Threshold <= score(userInput, pairs[k].trigger) &&
        forall i :: 0 <= i < |pairs| ==> score(userInput, pairs[i].trigger) <= score(userInput, pairs[k].trigger)
    ensures var pairs := TriggerPairs(kb);
      pairs != [] && Threshold <= score(userInput, pairs[BestPair(pairs, userInput, score)].trigger) ==>
      r == Optional(Chosen(pairs[BestPair(pairs, userInput, score)].outputs, recent))
    ensures (exists k :: 0 <= k < |TriggerPairs(kb)| && Threshold <= score(userInput, TriggerPairs(kb)[k].trigger)) ==>
      r.reply != Ok(None)
    ensures r.reply.Err? ==> r.recent == recent
    ensures |recent| <= WindowSize ==> |r.recent| <= WindowSize
    ensures NoDuplicates(recent) ==> NoDuplicates(r.recent)
  {
    var pairs := TriggerPairs(kb);
    if pairs == [] then Said(Ok(None), recent)
    else
      var k := BestPair(pairs, userInput, score);
      if score(userInput, pairs[k].trigger) < Threshold then Said(Ok(None), recent)
      else
        var c := Chosen(pairs[k].outputs, recent);
        var o := Optional(c);
        assert o.reply.Ok? && o.reply.value.Some? ==>
          0 <= k < |pairs| && o.reply.value.value in pairs[k].outputs && Threshold <= score(userInput, pairs[k].trigger) &&
          forall i :: 0 <= i < |pairs| ==> score(userInput, pairs[i].trigger) <= score(userInput, pairs[k].trigger);
        o
  }

  /** No phrase holds `u`, so no pair has it as trigger. */
  lemma NoPairWithTrigger(kb: seq<Entry>, u: string)
    requires forall i :: 0 <= i < |kb| && kb[i].Phrase? ==> u !in Triggers(kb[i])
    ensures forall i :: 0 <= i < |TriggerPairs(kb)| ==> TriggerPairs(kb)[i].trigger != u
  {
    var pairs := TriggerPairs(kb);
    TriggerPairsMembers(kb);
    forall i | 0 <= i < |pairs| ensures pairs[i].trigger != u {
      assert TriggerPair(pairs[i].trigger, pairs[i].outputs) in pairs;
    }
  }

  /** The pairs of one phrase: the first with trigger `u` carries its outputs. */
  lemma FirstPairOfPhrase(x: Entry, u: string) returns (k: nat)
    requires x.Phrase? && u in Triggers(x)
    ensures k < |PairsOf(x)| && PairsOf(x)[k] == TriggerPair(u, x.outputs)
    ensures forall i :: 0 <= i < k ==> PairsOf(x)[i].trigger != u
  {
    var here, ts := PairsOf(x), Triggers(x);
    var i0 :| 0 <= i0 < |ts| && ts[i0] == u;
    assert TriggerIs(u)(here[i0]);
    k := First(here, TriggerIs(u)).value;
  }

  /** The first pair with trigger `u` comes from the first phrase holding `u`, and carries its outputs. */
  lemma {:induction false} FirstPairOfTrigger(kb: seq<Entry>, u: string, j: nat) returns (k: nat)
    requires j < |kb| && kb[j].Phrase? && u in Triggers(kb[j])
    requires forall i :: 0 <= i < j && kb[i].Phrase? ==> u !in Triggers(kb[i])
    ensures k < |TriggerPairs(kb)| && TriggerPairs(kb)[k] == TriggerPair(u, kb[j].outputs)
    ensures forall i :: 0 <= i < k ==> TriggerPairs(kb)[i].trigger != u
    decreases |kb|
  {
    var front, last := kb[..|kb| - 1], kb[|kb| - 1];
    var before, here := TriggerPairs(front), PairsOf(last);
    assert TriggerPairs(kb) == before + here;
    assert forall i :: 0 <= i < |front| ==> front[i] == kb[i];
    if j < |kb| - 1 {
      k := FirstPairOfTrigger(front, u, j);
    } else {
      NoPairWithTrigger(front, u);
      var k0 := FirstPairOfPhrase(last, u);
      k := |before| + k0;
    }
  }

  /** Where a phrase taught with the single trigger `u` ends up: at the first
      phrase holding `u`, which then also holds the taught outputs. */
  lemma TaughtAt(kb: seq<Entry>, u: string, outputs: seq<string>) returns (j: nat)
    requires outputs != []
    ensures var k := Added(kb, Phrase(None, Some([u]), outputs));
      && j < |k| && k[j].Phrase? && u in Triggers(k[j]) && outputs[0] in k[j].outputs
      && forall i :: 0 <= i < j && k[i].Phrase? ==> u !in Triggers(k[i])
  {
    var e := Phrase(None, Some([u]), outputs);
    var key := SharesTrigger(NewTriggers(e));
    var k := Added(kb, e);
    assert u in NewTriggers(e) && Triggers(e) == [u];
    match First(kb, key)
    case None =>
      FirstAfterAppend(kb, key, e);
      j := |kb|;
    case Some(h) =>
      var x := kb[h].(outputs := MergeOutputs(kb[h].outputs, outputs));
      assert Triggers(x) == Triggers(kb[h]);
      FirstAfterUpdate(kb, key, h, x);
      assert outputs[0] in x.outputs;
      j := h;
    assert First(k, key) == Some(j);
    forall i | 0 <= i < j && k[i].Phrase? ensures u !in Triggers(k[i]) {
      assert !key(k[i]);
    }
  }

  /** A question scoring best, strictly, against `u` and at least the threshold
      is answered from the first phrase holding `u`. */
  lemma AnsweredByHolder(kb: seq<Entry>, u: string, j: nat, score: (string, string) -> nat, recent: seq<string>)
    requires j < |kb| && kb[j].Phrase? && u in Triggers(kb[j])
    requires forall i :: 0 <= i < j && kb[i].Phrase? ==> u !in Triggers(kb[i])
    requires Threshold <= score(u, u) && forall t :: t != u ==> score(u, t) < score(u, u)
    ensures PhraseReply(kb, u, score, recent) == Optional(Chosen(kb[j].outputs, recent))
  {
    var pk := FirstPairOfTrigger(kb, u, j);
    var pairs := TriggerPairs(kb);
    var b := BestPair(pairs, u, score);
    assert score(u, pairs[pk].trigger) <= score(u, pairs[b].trigger);
    assert pairs[b].trigger == u;
    assert b == pk;
  }

  /** A taught phrase answers a question that scores, against the new trigger,
      at least the threshold and strictly above every other trigger: the reply is
      the window choice over the outputs of the phrase now holding that trigger. */
  lemma PhraseLearned(kb: seq<Entry>, u: string, outputs: seq<string>, score: (string, string) -> nat, recent: seq<string>)
    requires outputs != []
    requires Threshold <= score(u, u) && forall t :: t != u ==> score(u, t) < score(u, u)
    ensures var k := Added(kb, Phrase(None, Some([u]), outputs));
      var r := PhraseReply(k, u, score, recent);
      r.reply.Ok? && r.reply.value.Some? &&
      exists j :: 0 <= j < |k| && k[j].Phrase? && u in Triggers(k[j]) && outputs[0] in k[j].outputs &&
        r == Optional(Chosen(k[j].outputs, recent))
  {
    var k := Added(kb, Phrase(None, Some([u]), outputs));
    var j := TaughtAt(kb, u, outputs);
    AnsweredByHolder(k, u, j, score, recent);
    assert Chosen(k[j].outputs, recent).reply.Ok?;
  }

  // ---------------------------------------------------------------------------
  // parse_question (WH questions only) and answer_question
  // ---------------------------------------------------------------------------

  /** `parse_question(text)`: nothing unless the first token is a WH word. */
  function Parse(text: string): (p: Parsed)
    ensures var tokens := Tokenize(Strip(Lower(text)));
      (p == NotParsed <==> tokens == [] || tokens[0] !in WhWords) &&
      (p != NotParsed ==> p.qtype == Some(Wh))
    ensures p.subject.Some? ==> ArticleFree(p.subject.value)
  {
    var t := Strip(Lower(text));
    var tokens := Tokenize(t);
    if tokens == [] || tokens[0] !in WhWords then NotParsed else WhParse(t, tokens)
  }

  /** The cleaned text of `what color is X` is the text itself. */
  lemma ColorCleaned(x: string)
    requires x != [] && IsStripped(x) && HasNoUpper(x)
    ensures Strip(Lower("what color is " + x)) == "what color is " + x
  {
    var t := "what color is " + x;
    assert HasNoUpper(t) by {
      forall i | 0 <= i < |t| ensures !IsUpper(t[i]) {
        if i >= 14 { assert t[i] == x[i - 14]; }
      }
    }
    LowerIdentity(t);
    assert t[|t| - 1] == x[|x| - 1];
    StripIdentity(t);
  }

  /** Two words separated by a space open the token list. */
  lemma TwoWords(a: string, b: string, t: string)
    requires a != [] && forall i :: 0 <= i < |a| ==> IsWordChar(a[i])
    requires b != [] && forall i :: 0 <= i < |b| ==> IsWordChar(b[i])
    requires t == [] || !IsWordChar(t[0])
    ensures Words(a + (" " + (b + t))) == [a, b] + Words(t)
  {
    var u := b + t;
    var v := " " + u;
    WordsPrefix(b, t);
    WordsAfterNonWord(" ", u);
    WordsPrefix(a, v);
    assert [a] + ([b] + Words(t)) == [a, b] + Words(t);
  }

  /** Its first two tokens are `what` and `color`. */
  lemma ColorTokens(x: string)
    ensures var tokens := Words("what color is " + x);
      |tokens| >= 2 && tokens[0] == "what" && tokens[1] == "color"
  {
    var t := " is " + x;
    assert "what color is " + x == "what" + (" " + ("color" + t));
    TwoWords("what", "color", t);
  }

  /** `what color is X` (lower-case, one line) asks for the `has_color` of X without its articles. */
  lemma ColorQuestion(x: string)
    requires x != [] && IsStripped(x) && HasNoUpper(x) && '\n' !in x
    ensures Parse("what color is " + x) == Parsed(Some(Wh), Some(RemoveArticles(x)), Some("has_color"), None)
  {
    var t := "what color is " + x;
    ColorCleaned(x);
    LowerIdentity(t);
    ColorTokens(x);
    var tokens := Tokenize(t);
    assert tokens[0] == "what" && "color" in tokens;
    SearchTailAtStart("what color is ", x);
    StripIdentity(x);
  }

  /** The reply of `answer_question` once math, phrases and examples gave nothing. */
  function Reason(kb: seq<Entry>, input: string): string
  {
    var p := Parse(input);
    if p.qtype == Some(Wh) then WhReply(kb, input, p) else FallbackReply(kb, input)
  }

  /** `answer_question(kb, input_text)` given the window before the call. */
  function Answer(kb: seq<Entry>, input: string, score: (string, string) -> nat, ratio: (string, string) -> real,
                  eval: string -> Option<string>, recent: seq<string>): Said<Result<string>>
  {
    Dispatch(TryMath(input, eval), PhraseReply(kb, input, score, recent), ExampleAnswer(kb, input, ratio),
             Reason(kb, input), recent)
  }

  /** The bot state of `chatbot.py`: the knowledge list and the recent-replies window. */
  class Bot {
    var knowledge: seq<Entry>
    var recent: seq<string>

    /** A bot over a loaded knowledge list, with an empty window. */
    constructor(kb: seq<Entry>)
      ensures knowledge == kb && recent == []
    {
      knowledge := kb;
      recent := [];
    }

    /** `add_or_merge_entry(kb, e)` */
    method AddOrMergeEntry(e: Entry)
      modifies this
      ensures knowledge == Added(old(knowledge), e) && recent == old(recent)
    {
      if !e.Phrase? {
        knowledge := AddCommon(knowledge, e);
        return;
      }
      var j := IndexWhere(knowledge, SharesTrigger(NewTriggers(e)));
      if j.None? {
        knowledge := knowledge + [e];
        return;
      }
      var entry := knowledge[j.value];
      var outs := AppendMissing(entry.outputs, e.outputs);
      knowledge := knowledge[j.value := entry.(outputs := outs)];
    }

    /** `answer_phrase(kb, user_input)` */
    method AnswerPhrase(userInput: string, score: (string, string) -> nat) returns (r: Result<Option<string>>)
      modifies this
      ensures Said(r, recent) == PhraseReply(old(knowledge), userInput, score, old(recent))
      ensures knowledge == old(knowledge)
    {
      var pairs := CollectTriggerPairs(knowledge);
      if pairs == [] {
        return Ok(None);
      }
      var triggers := TriggerList(pairs);
      var best := ExtractOne(userInput, triggers, score);
      var k := IndexWhere(pairs, TriggerIs(triggers[best]));
      assert k.value == BestPair(pairs, userInput, score);
      if score(userInput, pairs[k.value].trigger) < Threshold {
        return Ok(None);
      }
      var reply, now := PickReply(pairs[k.value].outputs, recent);
      recent := now;
      return Optional(Said(reply, now)).reply;
    }

    /** `answer_question(kb, input_text)` */
    method AnswerQuestion(input: string, score: (string, string) -> nat, ratio: (string, string) -> real,
                          eval: string -> Option<string>) returns (r: Result<string>)
      modifies this
      ensures Said(r, recent) == Answer(old(knowledge), input, score, ratio, eval, old(recent))
      ensures knowledge == old(knowledge)
    {
      var math := TryMath(input, eval);
      if math.Some? {
        return Ok(math.value);
      }
      var phrase := AnswerPhrase(input, score);
      if phrase.Err? {
        return Err(phrase.error);
      }
      if phrase.value.Some? && phrase.value.value != [] {
        return Ok(phrase.value.value);
      }
      var example := AnswerExample(knowledge, input, ratio);
      if example.Some? && example.value != [] {
        return Ok(example.value);
      }
      var reply := ReasonAbout(knowledge, input);
      return Ok(reply);
    }
  }

  /** The reasoning step of `answer_question`, with the lookups run as loops. */
  method ReasonAbout(kb: seq<Entry>, input: string) returns (r: string)
    ensures r == Reason(kb, input)
  {
    var p := Parse(input);
    if p.qtype == Some(Wh) {
      r := AnswerWh(kb, input, p);
    } else {
      var facts := FindFactsOrConcepts(kb, input);
      r := if facts != [] then facts[0] else "I don't know the answer to that.";
    }
  }
}
