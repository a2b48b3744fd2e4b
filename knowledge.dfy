/**
 * The flat knowledge base shared by the two command-line bots (`main.py` and
 * `chatbot.py`): its entries, the helpers both files define identically
 * (`tokenize`, `remove_articles`, `try_math`, `find_association`,
 * `find_facts_or_concepts`, `answer_example`), the type-specific dedup rules
 * of `add_or_merge_entry` that the two files share, and the anti-repetition
 * window `recent_phrase_responses`.
 */
module Knowledge {
  import opened Common
  import opened Text
  import opened Fuzzy

  /** The `content` dictionary of an association entry. */
  datatype Assoc = Assoc(subject: string, pred: string, obj: string)

  /** The four entry types whose payload is one `content` string. */
  datatype ContentKind = Fact | Concept | Rule | Instruction

  /** One element of `kb["knowledge"]`. A phrase may carry a single trigger
      (key `"input"`), a list of triggers (key `"inputs"`), both or neither;
      `Other` is an entry whose `"type"` none of the functions recognises. */
  datatype Entry =
    | Association(content: Assoc)
    | Phrase(trigger: Option<string>, triggers: Option<seq<string>>, outputs: seq<string>)
    | Example(input: string, output: string)
    | Content(kind: ContentKind, text: string)
    | Other(typeName: string)

  // ---------------------------------------------------------------------------
  // The `for entry in ...: if ...: return` searches
  // ---------------------------------------------------------------------------

  /** The index of the first element satisfying `p`, or None. */
  function First<T>(s: seq<T>, p: T -> bool): (r: Option<nat>)
    ensures r.Some? ==> r.value < |s| && p(s[r.value]) && forall i :: 0 <= i < r.value ==> !p(s[i])
    ensures r.None? <==> forall i :: 0 <= i < |s| ==> !p(s[i])
    decreases |s|
  {
    if s == [] then None
    else if p(s[0]) then Some(0)
    else match First(s[1..], p)
      case None => None
      case Some(k) => Some(k + 1)
  }

  lemma FirstIs<T>(s: seq<T>, p: T -> bool, j: nat)
    requires j < |s| && p(s[j]) && forall i :: 0 <= i < j ==> !p(s[i])
    ensures First(s, p) == Some(j)
  {
  }

  /** Two tests that agree everywhere find the same first element. */
  lemma FirstSameTest<T>(s: seq<T>, p: T -> bool, q: T -> bool)
    requires forall x :: p(x) == q(x)
    ensures First(s, p) == First(s, q)
  {
    if First(s, p).Some? { FirstIs(s, q, First(s, p).value); }
  }

  /** Replacing the first hit by another hit keeps it the first hit. */
  lemma FirstAfterUpdate<T>(s: seq<T>, p: T -> bool, j: nat, v: T)
    requires First(s, p) == Some(j) && p(v)
    ensures First(s[j := v], p) == Some(j)
  {
    FirstIs(s[j := v], p, j);
  }

  /** With no hit so far, an appended hit is the first one. */
  lemma FirstAfterAppend<T>(s: seq<T>, p: T -> bool, v: T)
    requires First(s, p) == None && p(v)
    ensures First(s + [v], p) == Some(|s|)
  {
    FirstIs(s + [v], p, |s|);
  }

  /** The search loop of every `for entry in kb["knowledge"]: if ...: ...; return`. */
  method IndexWhere<T>(s: seq<T>, p: T -> bool) returns (r: Option<nat>)
    ensures r == First(s, p)
  {
    var i := 0;
    while i < |s|
      invariant 0 <= i <= |s|
      invariant forall k :: 0 <= k < i ==> !p(s[k])
    {
      if p(s[i]) {
        FirstIs(s, p, i);
        return Some(i);
      }
      i := i + 1;
    }
    return None;
  }

  // ---------------------------------------------------------------------------
  // tokenize and remove_articles
  // ---------------------------------------------------------------------------

  /** A token: a non-empty run of lower-case word characters. */
  predicate IsToken(w: string)
  {
    w != [] && HasNoUpper(w) && forall i :: 0 <= i < |w| ==> IsWordChar(w[i])
  }

  /** `tokenize(text)`: the word runs of `text.lower()`, left to right. */
  function Tokenize(text: string): (tokens: seq<string>)
    ensures forall k :: 0 <= k < |tokens| ==> IsToken(tokens[k])
  {
    WordsNoUpper(Lower(text));
    Words(Lower(text))
  }

  /** `set(tokenize(text))` */
  function TokenSet(text: string): set<string>
  {
    set w | w in Tokenize(text)
  }

  /** Joining the tokens with single spaces and tokenizing again gives them back. */
  lemma TokenizeJoin(text: string)
    ensures Tokenize(Join(Tokenize(text), " ")) == Tokenize(text)
  {
    var ws := Tokenize(text);
    JoinNoUpper(ws, " ");
    LowerIdentity(Join(ws, " "));
    WordsJoin(ws);
  }

  /** Tokenizing is blind to case: `tokenize(s.lower()) == tokenize(s)`. */
  lemma TokenizeLower(text: string)
    ensures Tokenize(Lower(text)) == Tokenize(text)
  {
    LowerIdentity(Lower(text));
  }

  predicate IsArticle(w: string) { w == "the" || w == "a" || w == "an" }

  /** `re.sub(r"\b(the|a|an)\b", "", s, flags=re.IGNORECASE)`. Both `\b`
      anchors force the match to be a whole word run, so each word equal to an
      article up to case is deleted and every other character stays. */
  function DropArticles(s: string): string
    decreases |s|
  {
    if s == [] then []
    else if !IsWordChar(s[0]) then [s[0]] + DropArticles(s[1..])
    else
      var k := WordRun(s);
      (if IsArticle(Lower(s[..k])) then [] else s[..k]) + DropArticles(s[k..])
  }

  /** `remove_articles(text)`: stripped, and its words are the input's words
      minus the articles, in order. */
  function RemoveArticles(text: string): (r: string)
    ensures IsStripped(r)
    ensures Words(r) == NonArticles(Words(text))
  {
    DropArticlesWords(text);
    WordsStrip(DropArticles(text));
    Strip(DropArticles(text))
  }

  /** Stripped, and no word of it is an article up to case. */
  predicate ArticleFree(s: string)
  {
    IsStripped(s) && forall k :: 0 <= k < |Words(s)| ==> !IsArticle(Lower(Words(s)[k]))
  }

  /** The words that are not articles up to case, in order. */
  function NonArticles(ws: seq<string>): (r: seq<string>)
    ensures forall k :: 0 <= k < |r| ==> !IsArticle(Lower(r[k]))
    ensures forall w :: w in r <==> w in ws && !IsArticle(Lower(w))
  {
    if ws == [] then []
    else (if IsArticle(Lower(ws[0])) then [] else [ws[0]]) + NonArticles(ws[1..])
  }

  lemma {:induction false} DropArticlesWords(s: string)
    ensures Words(DropArticles(s)) == NonArticles(Words(s))
    decreases |s|
  {
    if s != [] {
      if !IsWordChar(s[0]) {
        WordsAfterNonWord([s[0]], DropArticles(s[1..]));
        DropArticlesWords(s[1..]);
      } else {
        var k := WordRun(s);
        var w, rest := s[..k], s[k..];
        var ws := Words(rest);
        DropArticlesWords(rest);
        assert Words(s) == [w] + ws;
        assert ([w] + ws)[1..] == ws;
        if !IsArticle(Lower(w)) {
          assert DropArticles(s) == w + DropArticles(rest);
          WordsPrefix(w, DropArticles(rest));
          assert NonArticles([w] + ws) == [w] + NonArticles(ws);
        } else {
          assert DropArticles(s) == DropArticles(rest);
          assert NonArticles([w] + ws) == NonArticles(ws);
        }
      }
    }
  }

  /** A lone article is removed entirely. */
  lemma RemoveLoneArticle(w: string)
    requires forall i :: 0 <= i < |w| ==> IsWordChar(w[i])
    requires IsArticle(Lower(w))
    ensures RemoveArticles(w) == []
  {
    assert w + [] == w;
    WordRunExact(w, []);
    assert w[..|w|] == w && w[|w|..] == [];
    assert DropArticles(w) == [] + DropArticles([]);
  }

  // ---------------------------------------------------------------------------
  // try_math: the operator-word rewrite and the character-class gate
  // ---------------------------------------------------------------------------

  /** The `replacements` dictionary of `try_math`, in insertion order. */
  const MathWords: seq<(string, string)> :=
    [("plus", "+"), ("minus", "-"), ("times", "*"), ("x", "*"), ("divided by", "/")]

  /** `for word, symbol in rules: text = text.replace(word, symbol)` */
  function RewriteWith(s: string, rules: seq<(string, string)>): string
    requires forall k :: 0 <= k < |rules| ==> rules[k].0 != []
    decreases |rules|
  {
    if rules == [] then s else RewriteWith(Replace(s, rules[0].0, rules[0].1), rules[1..])
  }

  /** The text `try_math` hands to the gate: lower-cased, operator words replaced. */
  function MathRewrite(text: string): string
  {
    RewriteWith(Lower(text), MathWords)
  }

  // The regular-expression class of the gate: digits and + - * / space ( ) .
  predicate MathChar(c: char)
  {
    IsDigit(c) || c == '+' || c == '-' || c == '*' || c == '/' || c == ' ' || c == '(' || c == ')' || c == '.'
  }

  predicate IsLetter(c: char) { 'a' <= c <= 'z' || IsUpper(c) }

  /** `try_math(text)`. `eval` stands for `str(eval(...))`, None when it raises. */
  function TryMath(text: string, eval: string -> Option<string>): (r: Option<string>)
    ensures r.Some? ==> var t := MathRewrite(text);
      t != [] && (forall i :: 0 <= i < |t| ==> MathChar(t[i])) && r == eval(t)
    ensures var t := MathRewrite(text);
      t != [] && (forall i :: 0 <= i < |t| ==> MathChar(t[i])) ==> r == eval(t)
  {
    var t := MathRewrite(text);
    if t != [] && forall i :: 0 <= i < |t| ==> MathChar(t[i]) then eval(t) else None
  }

  lemma {:induction false} RewriteAbsent(s: string, rules: seq<(string, string)>)
    requires forall k :: 0 <= k < |rules| ==> rules[k].0 != [] && rules[k].0[0] !in s
    ensures RewriteWith(s, rules) == s
    decreases |rules|
  {
    if rules != [] {
      ReplaceAbsent(s, rules[0].0, rules[0].1);
      RewriteAbsent(s, rules[1..]);
    }
  }

  lemma {:induction false} RewriteKeeps(s: string, rules: seq<(string, string)>, c: char)
    requires forall k :: 0 <= k < |rules| ==> rules[k].0 != [] && c !in rules[k].0
    requires c in s
    ensures c in RewriteWith(s, rules)
    decreases |rules|
  {
    if rules != [] {
      ReplaceKeeps(s, rules[0].0, rules[0].1, c);
      RewriteKeeps(Replace(s, rules[0].0, rules[0].1), rules[1..], c);
    }
  }

  /** Rules whose words are non-empty and whose symbols are non-empty and share
      no character with any rule's word. */
  predicate SymbolRules(rules: seq<(string, string)>)
  {
    forall k :: 0 <= k < |rules| ==>
      rules[k].0 != [] && rules[k].1 != [] &&
      (forall h, c :: 0 <= h < |rules| && c in rules[k].1 ==> c !in rules[h].0)
  }

  /** A word absent from the text stays absent through symbol rules that avoid its characters. */
  lemma {:induction false} RewriteKeepsOut(s: string, rules: seq<(string, string)>, w: string)
    requires forall k :: 0 <= k < |rules| ==> rules[k].0 != [] && rules[k].1 != [] && forall c :: c in rules[k].1 ==> c !in w
    requires w != [] && !Occurs(w, s)
    ensures !Occurs(w, RewriteWith(s, rules))
    decreases |rules|
  {
    if rules != [] {
      ReplaceLeavesNo(s, rules[0].0, rules[0].1, w);
      RewriteKeepsOut(Replace(s, rules[0].0, rules[0].1), rules[1..], w);
    }
  }

  /** After the rewrite no rule's word occurs any more: each word is replaced
      away by its own rule, and no later symbol brings it back. */
  lemma {:induction false} RewriteRemoves(s: string, rules: seq<(string, string)>)
    requires SymbolRules(rules)
    ensures forall k :: 0 <= k < |rules| ==> !Occurs(rules[k].0, RewriteWith(s, rules))
    decreases |rules|
  {
    if rules != [] {
      var w, rest := rules[0].0, rules[1..];
      var s1 := Replace(s, w, rules[0].1);
      assert RewriteWith(s, rules) == RewriteWith(s1, rest);
      ReplaceLeavesNo(s, w, rules[0].1, w);
      assert forall k :: 0 <= k < |rest| ==> rest[k] == rules[k + 1];
      RewriteKeepsOut(s1, rest, w);
      RewriteRemoves(s1, rest);
    }
  }

  /** No operator word of `try_math` survives into the text the gate sees. */
  lemma MathWordsGone(text: string)
    ensures forall k :: 0 <= k < |MathWords| ==> !Occurs(MathWords[k].0, MathRewrite(text))
  {
    assert SymbolRules(MathWords) by {
      forall k, h, c | 0 <= k < |MathWords| && 0 <= h < |MathWords| && c in MathWords[k].1
        ensures c !in MathWords[h].0
      {
        var w := MathWords[h].0;
        assert forall j :: 0 <= j < |w| ==> IsLetter(w[j]) || w[j] == ' ';
      }
    }
    RewriteRemoves(Lower(text), MathWords);
  }

  /** The first rewrite of `try_math` turns "2 plus 2" into "2 + 2". */
  lemma PlusReplaced()
    ensures Replace("2 plus 2", "plus", "+") == "2 + 2"
  {
    assert Replace(" 2", "plus", "+") == " 2";
    assert Replace("plus 2", "plus", "+") == "+ 2";
    assert Replace(" plus 2", "plus", "+") == " + 2";
  }

  /** `try_math("2 plus 2")` evaluates `2 + 2`. */
  lemma TwoPlusTwo(eval: string -> Option<string>)
    ensures TryMath("2 plus 2", eval) == eval("2 + 2")
  {
    PlusRewritten();
    var t := "2 + 2";
    assert forall i :: 0 <= i < |t| ==> MathChar(t[i]);
  }

  /** The rewrite of `try_math` turns "2 plus 2" into "2 + 2". */
  lemma PlusRewritten()
    ensures MathRewrite("2 plus 2") == "2 + 2"
  {
    LowerIdentity("2 plus 2");
    PlusReplaced();
    RewriteWithFirst("2 plus 2", MathWords);
    OtherWordsAbsent();
  }

  /** One rule of the rewrite, then the rest. */
  lemma RewriteWithFirst(s: string, rules: seq<(string, string)>)
    requires rules != [] && forall k :: 0 <= k < |rules| ==> rules[k].0 != []
    ensures RewriteWith(s, rules) == RewriteWith(Replace(s, rules[0].0, rules[0].1), rules[1..])
  {
  }

  /** No operator word but "plus" starts with a character of "2 + 2". */
  lemma OtherWordsAbsent()
    ensures RewriteWith("2 + 2", MathWords[1..]) == "2 + 2"
  {
    assert forall k :: 1 <= k < |MathWords| ==> MathWords[k].0[0] !in "2 + 2";
    RewriteAbsent("2 + 2", MathWords[1..]);
  }

  /** Text already made of the allowed characters reaches `eval` unchanged. */
  lemma PlainArithmetic(text: string, eval: string -> Option<string>)
    requires text != [] && forall i :: 0 <= i < |text| ==> MathChar(text[i])
    ensures MathRewrite(text) == text
    ensures TryMath(text, eval) == eval(text)
  {
    LowerIdentity(text);
    assert forall k :: 0 <= k < |MathWords| ==> IsLetter(MathWords[k].0[0]);
    RewriteAbsent(text, MathWords);
  }

  /** A character that is neither a letter nor allowed by the gate cannot be
      rewritten away, so `try_math` gives None whatever `eval` does. */
  lemma ForeignCharRejected(text: string, eval: string -> Option<string>, i: int)
    requires 0 <= i < |text| && !MathChar(text[i]) && !IsLetter(text[i])
    ensures TryMath(text, eval) == None
  {
    var c := text[i];
    assert Lower(text)[i] == c;
    forall k | 0 <= k < |MathWords| ensures c !in MathWords[k].0 {
      var w := MathWords[k].0;
      assert forall j :: 0 <= j < |w| ==> IsLetter(w[j]) || w[j] == ' ';
    }
    RewriteKeeps(Lower(text), MathWords, c);
  }

  // ---------------------------------------------------------------------------
  // find_association and find_facts_or_concepts
  // ---------------------------------------------------------------------------

  /** Python truthiness of an optional keyword argument: given and non-empty. */
  predicate Given(o: Option<string>) { o.Some? && o.value != [] }

  /** The three `if field and assoc.get(...) != field: continue` tests. */
  predicate AssocPasses(a: Assoc, subject: Option<string>, pred: Option<string>, obj: Option<string>)
  {
    (!Given(subject) || a.subject == subject.value) &&
    (!Given(pred) || a.pred == pred.value) &&
    (!Given(obj) || a.obj == obj.value)
  }

  /** The list `find_association` builds: the passing association contents, in knowledge order. */
  function AssocMatches(kb: seq<Entry>, subject: Option<string>, pred: Option<string>, obj: Option<string>): seq<Assoc>
    decreases |kb|
  {
    if kb == [] then []
    else
      var front := AssocMatches(kb[..|kb| - 1], subject, pred, obj);
      var x := kb[|kb| - 1];
      if x.Association? && AssocPasses(x.content, subject, pred, obj) then front + [x.content] else front
  }

  /** The result holds exactly the stored associations that agree with every non-empty field. */
  lemma {:induction false} AssocMatchesMembers(kb: seq<Entry>, subject: Option<string>, pred: Option<string>, obj: Option<string>)
    ensures forall a :: a in AssocMatches(kb, subject, pred, obj) <==>
      Association(a) in kb && AssocPasses(a, subject, pred, obj)
    decreases |kb|
  {
    if kb != [] {
      var front := kb[..|kb| - 1];
      AssocMatchesMembers(front, subject, pred, obj);
      assert kb == front + [kb[|kb| - 1]];
    }
  }

  /** The result follows knowledge order: the search distributes over concatenation. */
  lemma {:induction false} AssocMatchesAppend(k1: seq<Entry>, k2: seq<Entry>, subject: Option<string>, pred: Option<string>, obj: Option<string>)
    ensures AssocMatches(k1 + k2, subject, pred, obj) == AssocMatches(k1, subject, pred, obj) + AssocMatches(k2, subject, pred, obj)
    decreases |k2|
  {
    if k2 == [] {
      assert k1 + k2 == k1;
    } else {
      assert (k1 + k2)[..|k1 + k2| - 1] == k1 + k2[..|k2| - 1];
      AssocMatchesAppend(k1, k2[..|k2| - 1], subject, pred, obj);
    }
  }

  /** With no passing association the result is empty. */
  lemma {:induction false} AssocMatchesNone(kb: seq<Entry>, subject: Option<string>, pred: Option<string>, obj: Option<string>)
    requires forall i :: 0 <= i < |kb| ==> !PassingAssoc(subject, pred, obj)(kb[i])
    ensures AssocMatches(kb, subject, pred, obj) == []
    decreases |kb|
  {
    if kb != [] {
      AssocMatchesNone(kb[..|kb| - 1], subject, pred, obj);
    }
  }

  /** `matches[0]` is the content of the first passing association. */
  lemma AssocMatchesHead(kb: seq<Entry>, subject: Option<string>, pred: Option<string>, obj: Option<string>)
    ensures var m := AssocMatches(kb, subject, pred, obj);
      match First(kb, PassingAssoc(subject, pred, obj))
      case None => m == []
      case Some(j) => m != [] && m[0] == kb[j].content
  {
    match First(kb, PassingAssoc(subject, pred, obj))
    case None =>
      AssocMatchesNone(kb, subject, pred, obj);
    case Some(j) =>
      var front := kb[..j];
      assert kb == front + [kb[j]] + kb[j + 1..];
      AssocMatchesNone(front, subject, pred, obj);
      AssocMatchesAppend(front, [kb[j]], subject, pred, obj);
      AssocMatchesAppend(front + [kb[j]], kb[j + 1..], subject, pred, obj);
      assert [kb[j]][..0] == [];
  }

  function PassingAssoc(subject: Option<string>, pred: Option<string>, obj: Option<string>): Entry -> bool
  {
    (x: Entry) => x.Association? && AssocPasses(x.content, subject, pred, obj)
  }

  /** `find_association(kb, subject, predicate, obj)` */
  method FindAssociation(kb: seq<Entry>, subject: Option<string>, pred: Option<string>, obj: Option<string>)
    returns (r: seq<Assoc>)
    ensures r == AssocMatches(kb, subject, pred, obj)
  {
    r := [];
    var i := 0;
    while i < |kb|
      invariant 0 <= i <= |kb|
      invariant r == AssocMatches(kb[..i], subject, pred, obj)
    {
      assert kb[..i + 1][..i] == kb[..i];
      var entry := kb[i];
      if entry.Association? && AssocPasses(entry.content, subject, pred, obj) {
        r := r + [entry.content];
      }
      i := i + 1;
    }
    assert kb[..|kb|] == kb;
  }

  predicate IsFactLike(x: Entry) { x.Content? && (x.kind == Fact || x.kind == Concept) }

  /** `input_tokens & set(tokenize(content))` is not empty. */
  predicate Shares(tokens: set<string>, text: string) { tokens * TokenSet(text) != {} }

  /** The fact and concept contents sharing a token with `tokens`, in knowledge order. */
  function FactsSharing(kb: seq<Entry>, tokens: set<string>): seq<string>
    decreases |kb|
  {
    if kb == [] then []
    else
      var front := FactsSharing(kb[..|kb| - 1], tokens);
      var x := kb[|kb| - 1];
      if IsFactLike(x) && Shares(tokens, x.text) then front + [x.text] else front
  }

  /** The result holds exactly the fact and concept texts that share a word with the input. */
  lemma {:induction false} FactsSharingMembers(kb: seq<Entry>, tokens: set<string>)
    ensures forall t :: t in FactsSharing(kb, tokens) <==>
      exists i :: 0 <= i < |kb| && IsFactLike(kb[i]) && kb[i].text == t &&
        exists w :: w in tokens && w in Tokenize(t)
    decreases |kb|
  {
    if kb != [] {
      var front := kb[..|kb| - 1];
      FactsSharingMembers(front, tokens);
      assert forall i :: 0 <= i < |front| ==> kb[i] == front[i];
      var x := kb[|kb| - 1];
      if IsFactLike(x) {
        if Shares(tokens, x.text) {
          var w :| w in tokens * TokenSet(x.text);
          assert w in Tokenize(x.text);
        } else {
          assert forall w :: w in tokens && w in Tokenize(x.text) ==> w in tokens * TokenSet(x.text);
        }
      }
    }
  }

  lemma {:induction false} FactsSharingAppend(k1: seq<Entry>, k2: seq<Entry>, tokens: set<string>)
    ensures FactsSharing(k1 + k2, tokens) == FactsSharing(k1, tokens) + FactsSharing(k2, tokens)
    decreases |k2|
  {
    if k2 == [] {
      assert k1 + k2 == k1;
    } else {
      assert (k1 + k2)[..|k1 + k2| - 1] == k1 + k2[..|k2| - 1];
      FactsSharingAppend(k1, k2[..|k2| - 1], tokens);
    }
  }

  /** `find_facts_or_concepts(kb, input_text)` */
  method FindFactsOrConcepts(kb: seq<Entry>, input: string) returns (r: seq<string>)
    ensures r == FactsSharing(kb, TokenSet(input))
  {
    var inputTokens := TokenSet(input);
    r := [];
    var i := 0;
    while i < |kb|
      invariant 0 <= i <= |kb|
      invariant r == FactsSharing(kb[..i], inputTokens)
    {
      assert kb[..i + 1][..i] == kb[..i];
      var entry := kb[i];
      if IsFactLike(entry) {
        var contentTokens := TokenSet(entry.text);
        if inputTokens * contentTokens != {} {
          r := r + [entry.text];
        }
      }
      i := i + 1;
    }
    assert kb[..|kb|] == kb;
  }

  // ---------------------------------------------------------------------------
  // add_or_merge_entry: the rules both files share
  // ---------------------------------------------------------------------------

  /** `output not in entry["outputs"]` then append, for each new output in order. */
  function MergeOutputs(have: seq<string>, extra: seq<string>): (r: seq<string>)
    ensures |have| <= |r| <= |have| + |extra| && r[..|have|] == have
    ensures forall x :: x in r <==> x in have || x in extra
    decreases |extra|
  {
    if extra == [] then have
    else
      var m := MergeOutputs(have, extra[..|extra| - 1]);
      var x := extra[|extra| - 1];
      assert extra == extra[..|extra| - 1] + [x];
      assert (m + [x])[..|have|] == m[..|have|];
      if x in m then m else m + [x]
  }

  /** Merging never introduces a repeated output. */
  lemma {:induction false} MergeOutputsNoDuplicates(have: seq<string>, extra: seq<string>)
    requires NoDuplicates(have)
    ensures NoDuplicates(MergeOutputs(have, extra))
    decreases |extra|
  {
    if extra != [] {
      MergeOutputsNoDuplicates(have, extra[..|extra| - 1]);
    }
  }

  /** Outputs that are all present already change nothing. */
  lemma {:induction false} MergeOutputsPresent(have: seq<string>, extra: seq<string>)
    requires forall x :: x in extra ==> x in have
    ensures MergeOutputs(have, extra) == have
    decreases |extra|
  {
    if extra != [] {
      assert forall x :: x in extra[..|extra| - 1] ==> x in extra;
      MergeOutputsPresent(have, extra[..|extra| - 1]);
      assert extra[|extra| - 1] in extra;
    }
  }

  lemma MergeOutputsIdempotent(have: seq<string>, extra: seq<string>)
    ensures MergeOutputs(MergeOutputs(have, extra), extra) == MergeOutputs(have, extra)
  {
    MergeOutputsPresent(MergeOutputs(have, extra), extra);
  }

  /** Past the prefix `have`, each output of `r` is missing from `have` and from the
      outputs before it. */
  predicate AppendsFresh(have: seq<string>, r: seq<string>)
  {
    forall a :: |have| <= a < |r| ==> r[a] !in have && r[a] !in r[|have|..a]
  }

  lemma AppendsFreshSnoc(have: seq<string>, m: seq<string>, x: string)
    requires |have| <= |m| && m[..|have|] == have && AppendsFresh(have, m) && x !in m
    ensures AppendsFresh(have, m + [x])
  {
    var r := m + [x];
    forall a | |have| <= a < |r|
      ensures r[a] !in have && r[a] !in r[|have|..a]
    {
      if a < |m| {
        assert r[a] == m[a] && r[|have|..a] == m[|have|..a];
      } else {
        assert r[|have|..a] == m[|have|..];
      }
    }
  }

  /** Every appended output was missing from the old list and is appended once. */
  lemma {:induction false} MergeOutputsFresh(have: seq<string>, extra: seq<string>)
    ensures AppendsFresh(have, MergeOutputs(have, extra))
    decreases |extra|
  {
    if extra != [] {
      var e := extra[..|extra| - 1];
      var m := MergeOutputs(have, e);
      MergeOutputsFresh(have, e);
      var x := extra[|extra| - 1];
      if x !in m {
        AppendsFreshSnoc(have, m, x);
      }
    }
  }

  /** `x` sits before `y` in `r`, both at positions `lo` or later. */
  predicate Before(r: seq<string>, lo: nat, x: string, y: string)
  {
    exists a, b :: lo <= a < b < |r| && r[a] == x && r[b] == y
  }

  /** The outputs are appended in the order of their first occurrence among the
      new outputs: one first met before another is appended before it. */
  lemma {:induction false} MergeOutputsOrder(have: seq<string>, extra: seq<string>, i: int, j: int)
    requires 0 <= i < j < |extra|
    requires extra[i] !in have && extra[j] !in have && extra[j] !in extra[..j]
    ensures Before(MergeOutputs(have, extra), |have|, extra[i], extra[j])
    decreases |extra|
  {
    var e := extra[..|extra| - 1];
    var m := MergeOutputs(have, e);
    var r := MergeOutputs(have, extra);
    assert r[..|m|] == m;
    if j < |extra| - 1 {
      assert e[..j] == extra[..j];
      MergeOutputsOrder(have, e, i, j);
      var a, b :| |have| <= a < b < |m| && m[a] == extra[i] && m[b] == extra[j];
      assert r[a] == m[a] && r[b] == m[b];
    } else {
      assert e == extra[..j];
      assert extra[i] in e;
      assert r == m + [extra[j]];
      assert m == m[..|have|] + m[|have|..];
      var t := m[|have|..];
      assert extra[i] in t;
      var a' :| 0 <= a' < |t| && t[a'] == extra[i];
      assert r[|have| + a'] == extra[i] && r[|m|] == extra[j];
    }
  }

  /** The inner `for output in new_entry["outputs"]` loop. */
  method AppendMissing(have: seq<string>, extra: seq<string>) returns (r: seq<string>)
    ensures r == MergeOutputs(have, extra)
  {
    r := have;
    var i := 0;
    while i < |extra|
      invariant 0 <= i <= |extra|
      invariant r == MergeOutputs(have, extra[..i])
    {
      assert extra[..i + 1][..i] == extra[..i];
      if extra[i] !in r {
        r := r + [extra[i]];
      }
      i := i + 1;
    }
    assert extra[..|extra|] == extra;
  }

  /** x is what the dedup loop for the kind of y stops at: the same association
      content, an example with the same input, or content of the same type that
      agrees up to case. Phrases have their own, file-specific rule. */
  predicate Same(x: Entry, y: Entry)
  {
    match y
    case Association(a) => x.Association? && x.content == a
    case Example(inp, _) => x.Example? && x.input == inp
    case Content(k, t) => x.Content? && x.kind == k && Lower(x.text) == Lower(t)
    case _ => false
  }

  function SameAs(e: Entry): Entry -> bool { (x: Entry) => Same(x, e) }

  /** `add_or_merge_entry` for every type but "phrase": an association or
      content entry already present leaves the list alone, an example already
      present is overwritten in place, anything new is appended, and an entry
      of an unknown type is ignored. */
  function AddedCommon(kb: seq<Entry>, e: Entry): seq<Entry>
    requires !e.Phrase?
  {
    if e.Other? then kb
    else match First(kb, SameAs(e))
      case None => kb + [e]
      case Some(j) => if e.Example? then kb[j := e] else kb
  }

  /** `add_or_merge_entry` for every type but "phrase", with its search loops. */
  method AddCommon(kb: seq<Entry>, e: Entry) returns (r: seq<Entry>)
    requires !e.Phrase?
    ensures r == AddedCommon(kb, e)
  {
    if e.Other? { return kb; }
    var j := IndexWhere(kb, SameAs(e));
    match j
    case None => r := kb + [e];
    case Some(j) => r := if e.Example? then kb[j := e] else kb;
  }

  /** An association already stored is not added again; a new one goes at the end. */
  lemma AddAssociation(kb: seq<Entry>, a: Assoc)
    ensures Association(a) in kb ==> AddedCommon(kb, Association(a)) == kb
    ensures Association(a) !in kb ==> AddedCommon(kb, Association(a)) == kb + [Association(a)]
  {
    var e := Association(a);
    if e in kb {
      var i :| 0 <= i < |kb| && kb[i] == e;
      assert SameAs(e)(kb[i]);
    } else {
      assert forall i :: 0 <= i < |kb| ==> !SameAs(e)(kb[i]);
    }
  }

  /** An example for a known input overwrites that entry in place and nothing
      else; for a new input it is appended. */
  lemma AddExample(kb: seq<Entry>, input: string, output: string)
    ensures var r := AddedCommon(kb, Example(input, output));
      Example(input, output) in r &&
      ((exists i :: 0 <= i < |kb| && kb[i].Example? && kb[i].input == input) ==>
        |r| == |kb| && forall i :: 0 <= i < |kb| && !(kb[i].Example? && kb[i].input == input) ==> r[i] == kb[i]) &&
      ((forall i :: 0 <= i < |kb| ==> !(kb[i].Example? && kb[i].input == input)) ==> r == kb + [Example(input, output)])
  {
    var e := Example(input, output);
    assert forall x :: SameAs(e)(x) <==> x.Example? && x.input == input;
    match First(kb, SameAs(e))
    case None =>
      assert (kb + [e])[|kb|] == e;
    case Some(j) =>
      var r := kb[j := e];
      assert r[j] == e;
      assert forall i :: 0 <= i < |kb| && i != j ==> r[i] == kb[i];
  }

  /** Same-type content equal up to case is not added again; other content is appended. */
  lemma AddContent(kb: seq<Entry>, kind: ContentKind, text: string)
    ensures (exists i :: 0 <= i < |kb| && kb[i].Content? && kb[i].kind == kind && Lower(kb[i].text) == Lower(text)) ==>
      AddedCommon(kb, Content(kind, text)) == kb
    ensures (forall i :: 0 <= i < |kb| ==> !(kb[i].Content? && kb[i].kind == kind && Lower(kb[i].text) == Lower(text))) ==>
      AddedCommon(kb, Content(kind, text)) == kb + [Content(kind, text)]
  {
    var e := Content(kind, text);
    assert forall x :: SameAs(e)(x) <==> x.Content? && x.kind == kind && Lower(x.text) == Lower(text);
  }

  /** Adding the same non-phrase entry twice is the same as adding it once. */
  lemma AddedCommonIdempotent(kb: seq<Entry>, e: Entry)
    requires !e.Phrase?
    ensures AddedCommon(AddedCommon(kb, e), e) == AddedCommon(kb, e)
  {
    if !e.Other? {
      assert Same(e, e) by { if e.Content? { } }
      match First(kb, SameAs(e))
      case None => FirstAfterAppend(kb, SameAs(e), e);
      case Some(j) =>
        if e.Example? { FirstAfterUpdate(kb, SameAs(e), j, e); }
    }
  }

  /** No two entries that the dedup rules would merge: distinct association
      contents, one example per input, and one same-type content per text up to case. */
  predicate Deduped(kb: seq<Entry>)
  {
    forall i, j :: 0 <= i < j < |kb| ==> !Same(kb[i], kb[j])
  }

  lemma SameSymmetric(x: Entry, y: Entry)
    ensures Same(x, y) == Same(y, x)
  {
  }

  lemma AddedCommonDeduped(kb: seq<Entry>, e: Entry)
    requires !e.Phrase? && Deduped(kb)
    ensures Deduped(AddedCommon(kb, e))
  {
    if !e.Other? {
      match First(kb, SameAs(e))
      case None =>
        forall i | 0 <= i < |kb| ensures !Same(kb[i], e) { assert !SameAs(e)(kb[i]); }
      case Some(j) =>
        if e.Example? {
          var r := kb[j := e];
          forall i, k | 0 <= i < k < |r| ensures !Same(r[i], r[k]) {
            if i == j { SameSymmetric(r[k], kb[j]); } else if k == j { } else { }
          }
        }
    }
  }

  /** Replacing or appending a phrase never breaks the dedup invariant. */
  lemma PhraseChangeDeduped(kb: seq<Entry>, j: nat, x: Entry)
    requires Deduped(kb) && x.Phrase? && j <= |kb|
    ensures j < |kb| ==> Deduped(kb[j := x])
    ensures j == |kb| ==> Deduped(kb + [x])
  {
  }

  // ---------------------------------------------------------------------------
  // The anti-repetition window `recent_phrase_responses`
  // ---------------------------------------------------------------------------

  const WindowSize: nat := 5

  /** `recent.append(x)`, then `recent.pop(0)` if it grew past five. */
  function Pushed(recent: seq<string>, x: string): (r: seq<string>)
    ensures |recent| <= WindowSize ==> |r| <= WindowSize
    ensures |recent| < WindowSize ==> r == recent + [x]
    ensures |recent| >= WindowSize ==> r == recent[1..] + [x]
    ensures r != [] && r[|r| - 1] == x
    ensures forall y :: y in r ==> y in recent || y == x
    ensures NoDuplicates(recent) && x !in recent ==> NoDuplicates(r)
  {
    var w := recent + [x];
    if |w| > WindowSize then w[1..] else w
  }

  function NotRecent(recent: seq<string>): string -> bool { (x: string) => x !in recent }

  /** A reply and the window after it. */
  datatype Said<T> = Said(reply: T, recent: seq<string>)

  /** The output loop of `answer_phrase`: the first output not said recently is
      said and remembered; if every output is recent, `outputs[0]` is said and
      the window stays; with no outputs at all `outputs[0]` raises. */
  function Chosen(outputs: seq<string>, recent: seq<string>): (r: Said<Result<string>>)
    ensures (exists k :: 0 <= k < |outputs| && outputs[k] !in recent) ==>
      exists k :: 0 <= k < |outputs| && r.reply == Ok(outputs[k]) && outputs[k] !in recent &&
        (forall i :: 0 <= i < k ==> outputs[i] in recent) && r.recent == Pushed(recent, outputs[k])
    ensures (forall k :: 0 <= k < |outputs| ==> outputs[k] in recent) ==>
      r.recent == recent && r.reply == (if outputs == [] then Err(IndexError) else Ok(outputs[0]))
    ensures r.reply.Ok? ==> r.reply.value in outputs
    ensures |recent| <= WindowSize ==> |r.recent| <= WindowSize
    ensures NoDuplicates(recent) ==> NoDuplicates(r.recent)
  {
    match First(outputs, NotRecent(recent))
    case Some(k) => Said(Ok(outputs[k]), Pushed(recent, outputs[k]))
    case None => if outputs == [] then Said(Err(IndexError), recent) else Said(Ok(outputs[0]), recent)
  }

  /** The output loop of `answer_phrase`, on the window it updates. */
  method PickReply(outputs: seq<string>, recent: seq<string>) returns (reply: Result<string>, now: seq<string>)
    ensures Said(reply, now) == Chosen(outputs, recent)
  {
    var i := 0;
    while i < |outputs|
      invariant 0 <= i <= |outputs|
      invariant forall k :: 0 <= k < i ==> outputs[k] in recent
    {
      if outputs[i] !in recent {
        FirstIs(outputs, NotRecent(recent), i);
        now := recent + [outputs[i]];
        if |now| > WindowSize {
          now := now[1..];
        }
        return Ok(outputs[i]), now;
      }
      i := i + 1;
    }
    if outputs == [] {
      return Err(IndexError), recent;
    }
    return Ok(outputs[0]), recent;
  }

  /** A chosen reply as `answer_phrase` returns it. */
  function Optional(s: Said<Result<string>>): Said<Result<Option<string>>>
  {
    Said(match s.reply case Ok(v) => Ok(Some(v)) case Err(e) => Err(e), s.recent)
  }

  // ---------------------------------------------------------------------------
  // answer_example (identical in both files)
  // ---------------------------------------------------------------------------

  const ExampleCutoff: real := 0.7

  function ExampleFor(input: string): Entry -> bool { (x: Entry) => x.Example? && x.input == input }

  /** `[entry["input"] for entry in kb["knowledge"] if entry["type"] == "example"]` */
  function ExampleInputs(kb: seq<Entry>): (r: seq<string>)
    ensures forall m :: m in r <==> exists i :: 0 <= i < |kb| && kb[i].Example? && kb[i].input == m
  {
    if kb == [] then []
    else
      assert forall i :: 0 < i < |kb| ==> kb[i] == kb[1..][i - 1];
      (if kb[0].Example? then [kb[0].input] else []) + ExampleInputs(kb[1..])
  }

  /** `answer_example(kb, user_input)`: the output of the first example whose
      input is the stripped, lower-cased question, else of the first example
      whose input is difflib's closest match (cutoff 0.7), else None. */
  function ExampleAnswer(kb: seq<Entry>, userInput: string, ratio: (string, string) -> real): (r: Option<string>)
    ensures r.Some? ==> exists i :: 0 <= i < |kb| && kb[i].Example? && kb[i].output == r.value
  {
    var u := Strip(Lower(userInput));
    match First(kb, ExampleFor(u))
    case Some(j) => Some(kb[j].output)
    case None =>
      match CloseMatch(u, ExampleInputs(kb), ExampleCutoff, ratio)
      case None => None
      case Some(m) =>
        ExampleInputsFound(kb, m);
        Some(kb[First(kb, ExampleFor(m)).value].output)
  }

  /** An exact hit answers with the first example for the normalised question. */
  lemma ExampleExactHit(kb: seq<Entry>, userInput: string, ratio: (string, string) -> real, j: nat)
    requires var u := Strip(Lower(userInput));
      j < |kb| && kb[j].Example? && kb[j].input == u &&
      forall i :: 0 <= i < j ==> !(kb[i].Example? && kb[i].input == u)
    ensures ExampleAnswer(kb, userInput, ratio) == Some(kb[j].output)
  {
    FirstIs(kb, ExampleFor(Strip(Lower(userInput))), j);
  }

  /** No answer means no example input equals the question or comes close enough to it. */
  lemma ExampleNone(kb: seq<Entry>, userInput: string, ratio: (string, string) -> real)
    requires ExampleAnswer(kb, userInput, ratio).None?
    ensures var u := Strip(Lower(userInput));
      forall i :: 0 <= i < |kb| && kb[i].Example? ==> kb[i].input != u && ratio(kb[i].input, u) < ExampleCutoff
  {
    var u := Strip(Lower(userInput));
    forall i | 0 <= i < |kb| && kb[i].Example?
      ensures kb[i].input != u && ratio(kb[i].input, u) < ExampleCutoff
    {
      assert !ExampleFor(u)(kb[i]);
      assert kb[i].input in ExampleInputs(kb);
    }
  }

  lemma ExampleInputsFound(kb: seq<Entry>, m: string)
    requires m in ExampleInputs(kb)
    ensures First(kb, ExampleFor(m)).Some?
  {
    var i :| 0 <= i < |kb| && kb[i].Example? && kb[i].input == m;
    assert ExampleFor(m)(kb[i]);
  }

  /** `answer_example`, with its search loops. */
  method AnswerExample(kb: seq<Entry>, userInput: string, ratio: (string, string) -> real) returns (r: Option<string>)
    ensures r == ExampleAnswer(kb, userInput, ratio)
  {
    var u := Strip(Lower(userInput));
    var j := IndexWhere(kb, ExampleFor(u));
    if j.Some? { return Some(kb[j.value].output); }
    var matches := CloseMatch(u, ExampleInputs(kb), ExampleCutoff, ratio);
    if matches.None? { return None; }
    ExampleInputsFound(kb, matches.value);
    var k := IndexWhere(kb, ExampleFor(matches.value));
    return Some(kb[k.value].output);
  }

  /** After teaching an example for the normalised question, asking it returns that output. */
  lemma ExampleLearned(kb: seq<Entry>, question: string, output: string, ratio: (string, string) -> real)
    ensures var u := Strip(Lower(question));
      ExampleAnswer(AddedCommon(kb, Example(u, output)), question, ratio) == Some(output)
  {
    var u := Strip(Lower(question));
    var e := Example(u, output);
    FirstSameTest(kb, SameAs(e), ExampleFor(u));
    var r := AddedCommon(kb, e);
    match First(kb, ExampleFor(u))
    case None => FirstAfterAppend(kb, ExampleFor(u), e);
    case Some(j) => FirstAfterUpdate(kb, ExampleFor(u), j, e);
  }

  // ---------------------------------------------------------------------------
  // parse_question: the WH branch both files share, and the replies
  // ---------------------------------------------------------------------------

  datatype QType = YesNo | Wh

  /** The tuple `(qtype, subject, predicate, obj)`. */
  datatype Parsed = Parsed(qtype: Option<QType>, subject: Option<string>, pred: Option<string>, obj: Option<string>)

  const NotParsed: Parsed := Parsed(None, None, None, None)

  const WhWords: set<string> := {"what", "who", "where", "when", "why", "how"}

  /** Length of the run of characters other than newline at the front (what `.+` consumes). */
  function LineRun(s: string): (k: nat)
    ensures k <= |s|
    ensures forall i :: 0 <= i < k ==> s[i] != '\n'
    ensures k < |s| ==> s[k] == '\n'
  {
    if s == [] || s[0] == '\n' then 0 else 1 + LineRun(s[1..])
  }

  /** Group 1 of `re.search(pat + "(.+)", text)` for a literal `pat`: at the
      leftmost position where `pat` is followed by a character other than newline,
      the rest of that line. */
  function SearchTail(pat: string, text: string): (r: Option<string>)
    ensures r.Some? ==> r.value != [] && '\n' !in r.value
    decreases |text|
  {
    if |text| <= |pat| then None
    else if text[..|pat|] == pat && text[|pat|] != '\n' then
      var g := text[|pat|..];
      Some(g[..LineRun(g)])
    else SearchTail(pat, text[1..])
  }

  /** A text that is the pattern followed by one line yields that line. */
  lemma SearchTailAtStart(pat: string, g: string)
    requires g != [] && '\n' !in g
    ensures SearchTail(pat, pat + g) == Some(g)
  {
    var text := pat + g;
    assert text[..|pat|] == pat && text[|pat|..] == g;
    assert text[|pat|] == g[0];
    assert LineRun(g) == |g| by {
      assert forall i :: 0 <= i < |g| ==> g[i] != '\n';
    }
    assert g[..|g|] == g;
  }

  /** The WH branch of `parse_question` on the cleaned text `t` and its tokens. */
  function WhParse(t: string, tokens: seq<string>): (p: Parsed)
    ensures p.qtype == Some(Wh) && p.obj.None?
    ensures p.subject.Some? ==> ArticleFree(p.subject.value)
    ensures p.pred.Some? ==> p.pred.value == "has_color" && p.subject.Some?
  {
    if "color" in tokens then
      match SearchTail("what color is ", t)
      case Some(g) => Parsed(Some(Wh), Some(RemoveArticles(Strip(g))), Some("has_color"), None)
      case None => Parsed(Some(Wh), None, None, None)
    else
      match SearchTail("what is ", t)
      case Some(g) => Parsed(Some(Wh), Some(RemoveArticles(Strip(g))), None, None)
      case None => Parsed(Some(Wh), None, None, None)
  }

  /** `predicate.replace('_', ' ')` */
  function Spaced(pred: string): string { Replace(pred, "_", " ") }

  /** The "wh" branch of `answer_question`. */
  function WhReply(kb: seq<Entry>, input: string, p: Parsed): string
  {
    if p.subject.None? then
      var facts := FactsSharing(kb, TokenSet(input));
      if facts != [] then facts[0] else "I don't know."
    else if Given(p.pred) then
      var m := AssocMatches(kb, p.subject, p.pred, None);
      if m != [] then m[0].obj else "I don't know the " + Spaced(p.pred.value) + " of " + p.subject.value + "."
    else
      // the inline loop tokenizes `entry["content"].lower()`, which TokenizeLower shows is `tokenize(content)`
      var facts := FactsSharing(kb, TokenSet(p.subject.value));
      if facts != [] then facts[0] else "I don't know about " + p.subject.value + "."
  }

  /** The "wh" branch of `answer_question`, with the lookups run as loops. */
  method AnswerWh(kb: seq<Entry>, input: string, p: Parsed) returns (r: string)
    ensures r == WhReply(kb, input, p)
  {
    if p.subject.None? {
      var facts := FindFactsOrConcepts(kb, input);
      return if facts != [] then facts[0] else "I don't know.";
    }
    if Given(p.pred) {
      var matches := FindAssociation(kb, p.subject, p.pred, None);
      return if matches != [] then matches[0].obj
        else "I don't know the " + Spaced(p.pred.value) + " of " + p.subject.value + ".";
    }
    var facts := FindFactsOrConcepts(kb, p.subject.value);
    return if facts != [] then facts[0] else "I don't know about " + p.subject.value + ".";
  }

  /** The last branch of `answer_question`. */
  function FallbackReply(kb: seq<Entry>, input: string): string
  {
    var facts := FactsSharing(kb, TokenSet(input));
    if facts != [] then facts[0] else "I don't know the answer to that."
  }

  /** A WH colour question is answered with the object of the first association
      for that subject and `has_color`, or with the "I don't know" sentence. */
  lemma WhColorReply(kb: seq<Entry>, input: string, subject: string)
    requires subject != []
    ensures var r := WhReply(kb, input, Parsed(Some(Wh), Some(subject), Some("has_color"), None));
      match First(kb, PassingAssoc(Some(subject), Some("has_color"), None))
      case Some(j) => r == kb[j].content.obj && kb[j].content.subject == subject && kb[j].content.pred == "has_color"
      case None => r == "I don't know the " + Spaced("has_color") + " of " + subject + "."
  {
    AssocMatchesHead(kb, Some(subject), Some("has_color"), None);
  }

  // ---------------------------------------------------------------------------
  // answer_question: the order of the strategies
  // ---------------------------------------------------------------------------

  /** `answer_question` once each strategy's result is known: `try_math` if it
      gave a value, else a non-empty phrase reply (an exception from
      `answer_phrase` propagates), else a non-empty example answer, else the
      reasoning reply. Only `answer_phrase` touches the window. */
  function Dispatch(math: Option<string>, phrase: Said<Result<Option<string>>>, example: Option<string>,
                    reason: string, recent: seq<string>): (r: Said<Result<string>>)
    ensures math.Some? ==> r == Said(Ok(math.value), recent)
    ensures math.None? ==> r.recent == phrase.recent
    ensures math.None? && phrase.reply.Err? ==> r.reply == Err(phrase.reply.error)
    ensures math.None? && phrase.reply.Ok? && phrase.reply.value.Some? && phrase.reply.value.value != [] ==>
      r.reply == Ok(phrase.reply.value.value)
    ensures math.None? && phrase.reply.Ok? && (phrase.reply.value.None? || phrase.reply.value.value == []) ==>
      r.reply == Ok(if example.Some? && example.value != [] then example.value else reason)
  {
    if math.Some? then Said(Ok(math.value), recent)
    else match phrase.reply
      case Err(e) => Said(Err(e), phrase.recent)
      case Ok(Some(s)) =>
        if s != [] then Said(Ok(s), phrase.recent)
        else if example.Some? && example.value != [] then Said(Ok(example.value), phrase.recent)
        else Said(Ok(reason), phrase.recent)
      case Ok(None) =>
        if example.Some? && example.value != [] then Said(Ok(example.value), phrase.recent)
        else Said(Ok(reason), phrase.recent)
  }
}
