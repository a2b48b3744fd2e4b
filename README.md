# A verified model of the chatbot's knowledge engines

The repository has two chatbots. This project models the logic of both, over ASCII text.

**The grouped Q&A service (`V2/chat.py`).**
- The text normaliser, the paragraph and sentence splitters, and the empty cases of `similarity`.
- The three SQLite tables: `groups`, `questions` with a UNIQUE question text, and `answers` with a UNIQUE `(group_id, answer)`. They are held by the class `ChatStore.Store`, whose methods run the `INSERT OR IGNORE` and `DELETE` statements of `create_group`, `update_group` and `delete_group` one after the other.
- The per-message matcher `find_best_matches_for_message`.
- The reply assembly of `/api/chat`.
- The fuzzy scope filter of `/api/groups`.

**The flat knowledge-list bots (`main.py` and `chatbot.py`).** Each bot is a class `Bot` with two fields: the `knowledge` list and the module-level window `recent_phrase_responses`. The model covers:
- `add_or_merge_entry`;
- `answer_phrase` and its window of at most five recent replies;
- `answer_example`;
- the `try_math` rewrite and character gate;
- `find_association` and `find_facts_or_concepts`;
- `tokenize`, `remove_articles` and `parse_question`;
- the priority order of `answer_question`.

The two files share most of this code. Module `Knowledge` holds the shared part. Modules `MainBot` and `Chatbot` hold what differs:
- `main.py` keys a phrase by one `input`. `chatbot.py` keys it by a list of `inputs`.
- `main.py` matches phrases with difflib. `chatbot.py` matches them with fuzzywuzzy at threshold 75.
- Only `main.py` parses yes/no questions.

Modules:
- `Common`: `Option`, `Result`, Python's `KeyError`/`IndexError`, `NoDuplicates`.
- `Text`: ASCII `\w`, `\s`, `lower`, `strip`, `re.findall(r"\b\w+\b")`, `str.join`, `str.replace`.
- `Fuzzy`: the two fuzzy-matching library calls, over an abstract score.
  - `get_close_matches(..., n=1)` keeps the candidate with the greatest `(score, text)` pair, as difflib's heap does.
  - `extractOne` keeps the first candidate with the greatest score.
- `ChatText`, `ChatStore`, `ChatMatch`: `V2/chat.py`.
- `Knowledge`, `MainBot`, `Chatbot`: `main.py` and `chatbot.py`.

Oracles for code this model does not contain:
- `SequenceMatcher.ratio`, `token_sort_ratio` and the admin `similarity` are function parameters.
- `eval` is a function `string -> Option<string>`; `None` stands for an exception.
- `random.choice` is a nondeterministic choice among the group's answers.

Behaviour of the code worth noting, which the model reproduces:
- **Question uniqueness.** The UNIQUE constraint sits on the raw `question` column, and `question_norm` has none. Two questions that differ only in case or punctuation are both stored, and the matcher's index keeps the first.
- **`question_norm` is not stored.** It is always written as `normalize_text(question)`, so the model computes it from the question (`ChatStore.Norm`).
- **difflib ties.** Among equally scored candidates, `get_close_matches(n=1)` returns the greater string, whatever the candidates' order.
- **Group id 0.** `if gid:` in `/api/chat` treats group id 0 like "no match".
- **`chatbot.py` phrases without an `inputs` list.** They never merge, so adding the same one twice stores it twice (`Chatbot.NoInputsAppended`).
- **`KeyError` in `main.py`.** `main.py` reads `entry["input"]` of every stored phrase before the one it is looking for. A knowledge list written by `chatbot.py`'s trainer, whose phrases carry only `inputs`, makes `add_or_merge_entry` and `answer_phrase` raise `KeyError`. The model returns `Err(KeyError)` and leaves the list unchanged (`MainBot.AddedRaises`).
- **Ignored inserts use up ids.** SQLite allocates an AUTOINCREMENT id before it checks the UNIQUE constraints, so an `INSERT OR IGNORE` that is ignored still advances the table's counter. The model advances it too (`ChatStore.WithQuestion`, `ChatStore.WithAnswer`), and the next stored row's id skips the ignored one.
- **Answers filed under a missing group.** `update_group` on an id with no group row still deletes and inserts that id's answer rows, since nothing ties `answers.group_id` to `groups`. A later `create_group` that receives that id inherits those answers (`ChatStore.CreatedRows`).
- **Articles as subjects.** In a yes/no question whose second token is an article (`is the sky blue`), the subject becomes `""`. `find_association` then ignores the subject altogether (`MainBot.ArticleSubjectIgnored`).

## Model

| member | source | states |
|---|---|---|
| ChatText.NormalizeText | V2/chat.py:17-23 | None gives ""; any result is lower-case word characters separated by single inner spaces, with no leading or trailing space |
| ChatText.NormalShape | V2/chat.py:20-22 | the stages lower, drop punctuation, collapse whitespace, strip produce a normal text |
| ChatText.NormalFixpoint | V2/chat.py:17-23 | a text already in normal form normalises to itself |
| ChatText.NormalizeIdempotent | V2/chat.py:17-23 | normalising twice equals normalising once |
| ChatText.PunctuationOnlyNormalizesEmpty | V2/chat.py:21-22 | a text of punctuation only normalises to "" |
| ChatText.CollapseSpaces | V2/chat.py:22 | the result is empty exactly when the text is; it never has two spaces in a row; a text of lower-case word characters and whitespace collapses to lower-case word characters and spaces |
| ChatText.RemovePunct | V2/chat.py:21 | `[^\w\s]` removal: the result is no longer than the text and holds only word and space characters; a text made only of them is kept whole, a text with none of them becomes empty, and no capital is introduced |
| ChatText.RemovePunctOne | V2/chat.py:21 | one character is kept exactly when it is a word or space character |
| ChatText.RemovePunctAppend | V2/chat.py:21 | removal from `a + b` is removal from `a` followed by removal from `b`, so the kept characters survive in the text's order |
| ChatText.SplitBlankLines | V2/chat.py:29 | the split of `\r?\n\s*\r?\n` returns at least one part |
| ChatText.SplitBlankLinesCuts | V2/chat.py:29 | the split is one part, the whole segment, exactly when no match starts at or after the scan position; otherwise the first part ends where the leftmost match starts and the other parts are the split resumed where that match ends |
| ChatText.SplitBlankLinesShift | V2/chat.py:29 | the split is local: past a prefix of `o` characters, the scan of the whole text cuts as the scan of the rest alone |
| ChatText.SplitBlankLinesAfter | V2/chat.py:29 | the split resumed right after a prefix is the split of what follows it |
| ChatText.BlankLinesJoin | V2/chat.py:29 | a paragraph without a blank line, a blank-line separator, then more text: the split cuts once, after the paragraph, and goes on as the split of the rest |
| ChatText.SplitParagraphs | V2/chat.py:26-31 | empty input gives [] |
| ChatText.OneParagraph | V2/chat.py:26-31 | a stripped, non-empty text without a blank line is the single paragraph |
| ChatText.ParagraphsJoin | V2/chat.py:26-31 | a stripped paragraph without a blank line, a separator matching `\r?\n\s*\r?\n` whole, then a stripped non-empty text `b`: the paragraphs are that paragraph followed by the paragraphs of `b` |
| ChatText.ParagraphsAreNonBlank | V2/chat.py:26-31 | every paragraph is non-blank and has no trailing whitespace |
| ChatText.SingleLineParagraph | V2/chat.py:26-31 | a one-line, non-blank text is the single paragraph `text.strip()` |
| ChatText.SplitSentenceBreaks | V2/chat.py:33 | every part but the last is non-empty and ends in one of `. ? ! ; :` |
| ChatText.SplitSentenceBreaksCuts | V2/chat.py:33 | the split is one part, the whole segment, exactly when no terminal mark followed by whitespace lies at or after the scan position; otherwise the first part ends at the leftmost such whitespace |
| ChatText.SplitSentenceBreaksShift | V2/chat.py:33 | the split is local: past a prefix of `o` characters that ends in whitespace, the scan of the whole text cuts as the scan of the rest alone |
| ChatText.SplitSentenceBreaksAfter | V2/chat.py:33 | the split resumed right after a prefix ending in whitespace is the split of what follows it |
| ChatText.SentenceBreaksJoin | V2/chat.py:33 | a sentence ending in a terminal mark and without an inner break, whitespace, then text starting with a non-space: the split cuts once, after the sentence, and goes on as the split of the rest |
| ChatText.SplitIntoSentences | V2/chat.py:35-39 | defines `split_into_sentences`: `[text.strip()]` without a terminal mark, else the stripped non-blank parts of the lookbehind split |
| ChatText.OneSentence | V2/chat.py:35-39 | a stripped, non-empty text without a terminal mark followed by whitespace is the single sentence |
| ChatText.SentencesJoin | V2/chat.py:35-39 | a stripped sentence ending in a terminal mark and without an inner break, whitespace, then text `b` starting with a non-space: the sentences are that sentence followed by the sentences of `b` |
| ChatText.StripNonBlank | V2/chat.py:38 | the kept parts are non-empty and stripped, and there are no more than were given |
| ChatText.StripNonBlankKeepsTerminals | V2/chat.py:38 | stripping and dropping blanks keeps every part but the last ending in a terminal mark |
| ChatText.SentencesShape | V2/chat.py:35-39 | without a terminal mark the result is exactly `[text.strip()]`, even ""; otherwise every piece is non-empty and stripped, and every piece but the last ends in a terminal mark |
| ChatText.Similarity | V2/chat.py:86-94 | 1.0 when both sides are empty or None; 0.0 when either normalises to "" (but not both empty); otherwise the ratio of the two normal forms |
| ChatText.PunctuationOnlySimilarity | V2/chat.py:88-93 | two non-empty punctuation-only strings score 0.0, not 1.0 |
| ChatText.EnsureList | V2/chat.py:97-109 | None gives []; a list gives `RStripItems` of its items; a text gives its `split_paragraphs`; every item is non-blank and has no trailing whitespace |
| ChatText.RStripItems | V2/chat.py:101 | every kept item is non-blank and has no trailing whitespace, and there are no more than were given |
| ChatText.RStripItemsSnoc | V2/chat.py:101 | one more item adds nothing when it is None or blank, and otherwise adds its `rstrip()` at the end, so the kept items come in order |
| ChatText.SentencePieces | V2/chat.py:118-134 | every question text the paragraph loop yields is non-empty and stripped |
| ChatStore.Keep | V2/chat.py:184 | a `WHERE` clause keeps exactly the rows meeting it |
| ChatStore.KeepAscending | V2/chat.py:184 | a `WHERE` clause keeps the id order |
| ChatStore.Consistent | V2/chat.py:59-79 | defines the schema's constraints: ids ascending and no greater than the AUTOINCREMENT counter, question text unique, answer unique per group |
| ChatStore.WithQuestion | V2/chat.py:123-126 | defines one `INSERT OR IGNORE INTO questions`: a held text adds no row; a new text is appended under the next id; either way the counter advances by one |
| ChatStore.WithAnswer | V2/chat.py:139 | defines one `INSERT OR IGNORE INTO answers`, in the same way, with uniqueness per group |
| ChatStore.Created | V2/chat.py:111-141 | defines `create_group`: the group row under the next id, then the question inserts, then the answer inserts, all under that id |
| ChatStore.Updated | V2/chat.py:143-170 | defines `update_group` in statement order: rename, delete the group's questions, insert the new ones, delete its answers, insert the new ones |
| ChatStore.Deleted | V2/chat.py:172-177 | defines `delete_group`: the rows of the group are removed from all three tables |
| ChatStore.View | V2/chat.py:184-192 | defines one listed group: its name and its question and answer texts and ids, in id order |
| ChatStore.AllGroupViews | V2/chat.py:179-194 | defines the `get_all_groups` list: one view per group row, last row first |
| ChatStore.FindGroup | V2/chat.py:198 | `SELECT ... WHERE id=?`: a found row is stored and has the id; None exactly when no row has it |
| ChatStore.Store.constructor | V2/chat.py:55-83 | the new database is empty, with all counters at 0 |
| ChatStore.Store.InsertQuestion | V2/chat.py:123-126 | one `INSERT OR IGNORE INTO questions`: the new state is the function `WithQuestion` of the old one, and the table invariants still hold |
| ChatStore.Store.InsertAnswer | V2/chat.py:139 | one `INSERT OR IGNORE INTO answers`: the new state is `WithAnswer` of the old one, and the invariants still hold |
| ChatStore.Store.InsertSentences | V2/chat.py:119-134 | the sentences of one paragraph are inserted, stripped, with blanks skipped |
| ChatStore.Store.InsertParagraphs | V2/chat.py:118-134 | the paragraph loop inserts exactly the sentence pieces, in order |
| ChatStore.Store.InsertOutputs | V2/chat.py:136-139 | the output loop inserts every cleaned output, in order |
| ChatStore.Store.CreateGroup | V2/chat.py:111-141 | returns the next group id; the new state is `Created` of the old state, the cleaned inputs and the cleaned outputs |
| ChatStore.Store.UpdateGroup | V2/chat.py:143-170 | the new state is `Updated` of the old state and the cleaned lists |
| ChatStore.Store.DeleteGroup | V2/chat.py:172-177 | the new state is `Deleted` of the old state |
| ChatStore.Store.GetAllGroups | V2/chat.py:179-194 | returns the group views, newest first |
| ChatStore.Store.GetRandomAnswerForGroup | V2/chat.py:251-261 | None exactly when the group has no answer row; otherwise one of the group's answers, never blank |
| ChatStore.WithQuestionsFacts | V2/chat.py:123-134 | question inserts touch no other table, keep the old rows first, file new rows only under the group and only for given texts, leave every given text held by some row, use up exactly one id per statement (ignored ones included), and keep the ids and the uniqueness of question text |
| ChatStore.WithAnswersFacts | V2/chat.py:137-139 | the same for answer inserts, one id per statement, with answer text unique within its group |
| ChatStore.FiledQuestions | V2/chat.py:117-134 | every new question row is a given text that no row held before; a text already held by another group stays with that group |
| ChatStore.FiledAnswers | V2/chat.py:136-139 | afterwards the group holds an answer exactly when it held it before or it is among the outputs |
| ChatStore.CreatedConsistent | V2/chat.py:111-141 | `create_group` keeps the schema's constraints: ids ascending and below the counters, question text unique, answer unique per group |
| ChatStore.CreatedRows | V2/chat.py:111-141 | the new group row comes last under the next id, with `name or None`; new questions are new texts of the group; its answers are its outputs, plus any answers already filed under the new id (left by an `update_group` on an id not yet created) |
| ChatStore.CreatedKeepsOthers | V2/chat.py:111-141 | every other group keeps exactly its question and answer rows |
| ChatStore.CreatedWellFormed | V2/chat.py:117-139 | stored questions stay non-empty and stripped, and stored answers non-blank and right-stripped |
| ChatStore.CreatedGroupFound | V2/chat.py:196-210 | `get_group_by_id` on the new id finds the group, with its name, every output, and every input that was not held before |
| ChatStore.UpdatedConsistent | V2/chat.py:143-170 | `update_group` keeps the schema's constraints |
| ChatStore.UpdatedQuestions | V2/chat.py:145-164 | only the group's name changes in the group table; the group's questions are among the new inputs, and every new input is held |
| ChatStore.UpdatedAnswers | V2/chat.py:165-169 | afterwards the group's answers are exactly the new outputs |
| ChatStore.UpdatedKeepsOthers | V2/chat.py:143-170 | every other group keeps exactly its rows |
| ChatStore.UpdatedWellFormed | V2/chat.py:147-169 | stored texts stay well formed |
| ChatStore.DeletedFacts | V2/chat.py:172-177 | the constraints hold afterwards; the group row and all its question and answer rows are gone; every other group keeps exactly its rows |
| ChatStore.DeletedWellFormed | V2/chat.py:172-177 | stored texts stay well formed |
| ChatStore.GroupById | V2/chat.py:196-210 | None exactly when no group has the id; otherwise the group's questions and answers in id order |
| ChatStore.AllGroupsNewestFirst | V2/chat.py:181 | `get_all_groups` lists every group once, by descending id |
| ChatStore.AllGroupsRowsOrdered | V2/chat.py:184-192 | each listed group's inputs and outputs come in ascending id order, without repeats |
| ChatStore.GroupByIdAgrees | V2/chat.py:179-210 | `get_group_by_id` returns the very entry that `get_all_groups` lists for that id |
| ChatStore.FindGroupFinds | V2/chat.py:198 | looking up a stored group's id finds that group |
| ChatStore.HeldAnswerListed | V2/chat.py:185 | a group holds an answer exactly when the answer is in its listed outputs |
| ChatStore.WithQuestionsAppend | V2/chat.py:118-134 | inserting one list of texts after another is inserting their concatenation |
| ChatMatch.MessagePieces | V2/chat.py:213-224 | an empty message has no pieces; every piece is non-empty and stripped |
| ChatMatch.CollectPieces | V2/chat.py:217-224 | the paragraph and sentence loops collect exactly the message's pieces |
| ChatMatch.SentencesOfParagraphs | V2/chat.py:219-224 | the loop over paragraphs yields their sentence pieces in document order |
| ChatMatch.CleanSentences | V2/chat.py:221-224 | the inner loop keeps each sentence stripped and skips blanks |
| ChatMatch.BuildIndex | V2/chat.py:227-235 | the loop over the question rows builds `IndexOf` of the rows |
| ChatMatch.IndexOf | V2/chat.py:228-235 | `norm_list` and the keys of `norm_map` are the same set, none of them empty |
| ChatMatch.IndexFacts | V2/chat.py:228-235 | `norm_list` has no repeats and holds every non-empty normal form; each maps to the first row carrying it |
| ChatMatch.MatchPiece | V2/chat.py:238-248 | the result carries its piece |
| ChatMatch.MatchPieceFacts | V2/chat.py:243-246 | a matched piece names the first row of a best-scoring normal form with ratio at least 0.5; a piece is unmatched exactly when every normal form scores below 0.5 |
| ChatMatch.MatchesPerPiece | V2/chat.py:213-249 | an empty message gives []; otherwise exactly one result per piece, in order |
| ChatMatch.NoTriggersNoMatches | V2/chat.py:240-241 | with no usable stored question every result is unmatched |
| ChatMatch.MatchEach | V2/chat.py:237-249 | the results loop computes one match per piece, in order |
| ChatMatch.FindBestMatchesForMessage | V2/chat.py:213-249 | returns `Matches` of the stored questions and the message |
| ChatMatch.Matches | V2/chat.py:213-249 | defines the matcher's result: `MatchAll` over the index of the stored questions and the message's pieces |
| ChatMatch.Flags | V2/chat.py:288 | one `{text, matched}` flag per match, with `matched` the truthiness of the group id |
| ChatMatch.AssembleReplies | V2/chat.py:276-285 | one reply per match: an answer of the matched group, "I know that question but don't have answers yet.", or "I don't know that yet. Add it in Q&A." |
| ChatMatch.ApiChat | V2/chat.py:270-288 | a blank message is the error, and only a blank message; otherwise the replies joined by a blank line, with one piece flag per match |
| ChatMatch.NoTriggersUnknownReplies | V2/chat.py:240-285 | with no usable stored question every piece gets the "I don't know that yet" reply |
| ChatMatch.BestOver | V2/chat.py:316-331 | the running `max` bounds the start value and every score, and equals one of them |
| ChatMatch.BestSimilarity | V2/chat.py:321-331 | the `max` loop computes `BestOver` |
| ChatMatch.Scores | V2/chat.py:315-332 | one `(best_score, g)` pair per group, in order |
| ChatMatch.ScoreGroups | V2/chat.py:315-332 | the scoring loop computes `Scores` |
| ChatMatch.ScopeScore | V2/chat.py:317-331 | defines `best_score` per scope: the name for `group`, the inputs or the outputs from 0.0, and name, inputs and outputs for any other scope |
| ChatMatch.Passes | V2/chat.py:339-351 | defines the filter's test: 0.25 for `group`, 0.45 for `input`/`output`, name 0.25 or best input/output 0.45 for `all`, and nothing else passes |
| ChatMatch.InsertDesc | V2/chat.py:338 | inserting one entry adds exactly that element to the multiset |
| ChatMatch.SortDesc | V2/chat.py:338 | the sort is a permutation |
| ChatMatch.InsertDescSorted | V2/chat.py:338 | inserting keeps the list in descending score order |
| ChatMatch.InsertDescStable | V2/chat.py:338 | inserting keeps equal-score entries in arrival order |
| ChatMatch.SortDescFacts | V2/chat.py:338 | `sorted(..., reverse=True)` is descending, a permutation and stable |
| ChatMatch.FilterScored | V2/chat.py:337-351 | the filter loop keeps the sorted groups that pass, in order |
| ChatMatch.SearchGroups | V2/chat.py:308-352 | the GET branch returns `Search` of the listed groups |
| ChatMatch.Search | V2/chat.py:308-352 | defines the GET branch: every group for a blank filter, else the groups that pass, taken from the scores sorted in descending order |
| ChatMatch.SearchWithoutFilter | V2/chat.py:311-312 | an empty or blank filter returns every group, as listed |
| ChatMatch.SearchMembers | V2/chat.py:335-351 | a group is returned exactly when it meets its scope's threshold: name 0.25; inputs or outputs 0.45; `all` name 0.25 or best input/output 0.45 |
| ChatMatch.SearchOrdered | V2/chat.py:338-351 | returned groups come in descending score order |
| ChatMatch.SearchUnknownScope | V2/chat.py:326-351 | an unrecognised scope returns no group |
| Fuzzy.CloseMatch | V2/chat.py:243 | `get_close_matches(n=1)`: a candidate scoring at least the cutoff, unbeaten by any other under the (score, text) order; None exactly when every candidate scores below the cutoff |
| Fuzzy.CloseMatchKeepsMax | V2/chat.py:243 | a candidate that beats the best of the others under the (score, text) order beats every candidate |
| Fuzzy.ExtractOne | chatbot.py:123 | the index of the first choice with the greatest score |
| Text.Words | main.py:20 | every token is a non-empty run of word characters |
| Text.WordsJoin | main.py:20 | tokens joined by spaces split back into the same tokens |
| Text.WordsStrip | main.py:72-73 | stripping the text changes no token |
| Text.Lower | main.py:34 | `str.lower()` over ASCII: same length, each character lowered |
| Text.Strip | main.py:72 | `str.strip()`: the result is stripped, and empty exactly when the text is all whitespace |
| Text.Replace | main.py:36 | defines `s.replace(pat, rep)`: leftmost non-overlapping occurrences replaced, scanning left to right |
| Text.ReplaceLeavesNo | main.py:36 | with a non-empty `rep` sharing no character with `w`, no occurrence of `pat` survives the replacement, and no new occurrence of `w` is created |
| Knowledge.First | main.py:211-214 | the `for ... if ...: return` search: the first index passing the test, or None exactly when none passes |
| Knowledge.IndexWhere | main.py:211-214 | the search loop computes `First` |
| Knowledge.Tokenize | main.py:19-20 | every token is a lower-case run of word characters |
| Knowledge.TokenizeJoin | main.py:19-20 | tokenising the space-joined tokens gives the tokens back |
| Knowledge.TokenizeLower | main.py:197 | tokenising a lower-cased text equals tokenising the text |
| Knowledge.RemoveArticles | main.py:22-23 | the result is stripped, and its words are the text's words without any article "the"/"a"/"an" in any case |
| Knowledge.NonArticles | main.py:22-23 | the kept words are exactly the non-article words |
| Knowledge.DropArticlesWords | main.py:22-23 | deleting whole-word articles removes exactly the article tokens |
| Knowledge.DropArticles | main.py:23 | defines the article deletion of `remove_articles`: each whole word run that is `the`, `a` or `an`, in any case, is deleted |
| Knowledge.RemoveLoneArticle | main.py:22-23 | a lone article becomes "" |
| Knowledge.TryMath | main.py:25-44 | the lower-cased, rewritten text is handed to `eval` exactly when it is non-empty and all digits, `+ - * / ( ) .` or space, and the answer is what `eval` gives for it; otherwise None |
| Knowledge.PlainArithmetic | main.py:34-44 | an arithmetic text passes the rewrite unchanged and is handed to `eval` |
| Knowledge.ForeignCharRejected | main.py:34-44 | a character that is neither a letter nor allowed makes the result None |
| Knowledge.RewriteAbsent | main.py:35-36 | replacements whose words do not occur change nothing |
| Knowledge.RewriteKeeps | main.py:35-36 | a character not in any replaced word survives the rewrite |
| Knowledge.MathRewrite | main.py:34-36 | defines the text the gate sees: lower-cased, then each `replacements` rule applied in dictionary order |
| Knowledge.RewriteKeepsOut | main.py:35-36 | a word absent from the text stays absent through rules whose symbols avoid its characters |
| Knowledge.RewriteRemoves | main.py:35-36 | after the rewrite no rule's word occurs, when every symbol is non-empty and shares no character with any rule's word |
| Knowledge.MathWordsGone | main.py:27-36 | none of `plus`, `minus`, `times`, `x`, `divided by` occurs in the text the gate sees |
| Knowledge.TwoPlusTwo | main.py:25-44 | `try_math("2 plus 2")` hands `2 + 2` to `eval` |
| Knowledge.PlusRewritten | main.py:34-36 | the rewrite turns `2 plus 2` into `2 + 2` |
| Knowledge.PlusReplaced | main.py:36 | `"2 plus 2".replace("plus", "+")` is `2 + 2` |
| Knowledge.AssocMatchesMembers | main.py:46-59 | an association is returned exactly when it is stored and equals every non-empty supplied field |
| Knowledge.AssocMatchesAppend | main.py:46-59 | the results over two lists are the results of the first, then of the second (knowledge order) |
| Knowledge.AssocMatchesNone | main.py:46-59 | with no passing association the result is [] |
| Knowledge.AssocMatchesHead | main.py:46-59 | the first result is the first passing association in knowledge order |
| Knowledge.AssocMatches | main.py:46-59 | defines the `find_association` results: the stored associations agreeing with every given field, in knowledge order |
| Knowledge.FindAssociation | main.py:46-59 | the loop computes `AssocMatches` |
| Knowledge.FactsSharingMembers | main.py:61-69 | a content is returned exactly when a stored fact or concept has it and shares a token with the input |
| Knowledge.FactsSharingAppend | main.py:61-69 | results follow knowledge order |
| Knowledge.FactsSharing | main.py:61-69 | defines the `find_facts_or_concepts` results: fact and concept texts sharing a token with the input, in knowledge order |
| Knowledge.FindFactsOrConcepts | main.py:61-69 | the loop computes `FactsSharing` of the input's tokens |
| Knowledge.MergeOutputs | main.py:221-223 | the old outputs stay first; only outputs not present are appended; the result holds exactly the old and new outputs |
| Knowledge.MergeOutputsNoDuplicates | main.py:221-223 | a duplicate-free output list stays duplicate-free |
| Knowledge.MergeOutputsPresent | main.py:221-223 | merging outputs already present changes nothing |
| Knowledge.MergeOutputsIdempotent | main.py:221-223 | merging the same outputs twice equals merging once |
| Knowledge.MergeOutputsFresh | main.py:221-223 | each appended output was missing from the old list and is appended only once |
| Knowledge.MergeOutputsOrder | main.py:221-223 | missing outputs are appended in the order they first occur among the new outputs |
| Knowledge.AppendMissing | main.py:221-223 | the append loop computes `MergeOutputs` |
| Knowledge.AddCommon | main.py:207-240 | the non-phrase rules of `add_or_merge_entry`, as a loop |
| Knowledge.AddAssociation | main.py:210-215 | an association already stored leaves the list unchanged; otherwise it is appended at the end |
| Knowledge.AddExample | main.py:227-233 | the example is present afterwards; an existing input is overwritten in place, the length unchanged and every other entry kept; a new input is appended |
| Knowledge.AddContent | main.py:235-240 | a same-type entry with the same content up to case leaves the list unchanged; otherwise the entry is appended |
| Knowledge.AddedCommon | main.py:210-240 | defines `add_or_merge_entry` for every type but phrase: a stored association or same-type content up to case is a no-op, an example upserts, anything else is appended; an unknown type changes nothing |
| Knowledge.AddedCommonIdempotent | main.py:207-240 | adding a non-phrase entry twice equals adding it once |
| Knowledge.AddedCommonDeduped | main.py:207-240 | no two entries of the list collide under the dedup rule, before and after |
| Knowledge.PhraseChangeDeduped | main.py:217-225 | updating or appending a phrase keeps the dedup invariant |
| Knowledge.Pushed | main.py:118-120 | first in, first out: below five replies the reply is appended; at five the oldest is dropped and the reply appended; so the window stays within 5, the pushed reply is last, and no duplicate is added |
| Knowledge.Chosen | main.py:116-122 | the first output not recent is returned and pushed; if all are recent, `outputs[0]` is returned with the window unchanged, and no outputs raise IndexError; the window stays within 5 and duplicate-free |
| Knowledge.PickReply | main.py:116-122 | the window loop computes `Chosen` |
| Knowledge.ExampleInputs | main.py:151 | the list holds exactly the stored example inputs |
| Knowledge.ExampleAnswer | main.py:142-159 | any answer is the output of a stored example |
| Knowledge.ExampleExactHit | main.py:145-148 | the first example whose input is the stripped, lower-cased question answers |
| Knowledge.ExampleNone | main.py:142-159 | None only when no example input equals the question and every one scores below 0.7 |
| Knowledge.AnswerExample | main.py:142-159 | the loops compute `ExampleAnswer` |
| Knowledge.ExampleLearned | main.py:227-233 | after an example is added, asking its input returns its output |
| Knowledge.SearchTail | main.py:93 | the captured `(.+)` is non-empty and stays on one line |
| Knowledge.SearchTailAtStart | main.py:93 | a pattern at the start captures the rest of the line |
| Knowledge.WhParse | main.py:91-102 | a WH parse has no object; its subject is free of articles; its predicate, if any, is "has_color" with a subject |
| Knowledge.AnswerWh | main.py:186-201 | the WH branch, with its loop, computes `WhReply` |
| Knowledge.WhColorReply | main.py:190-192 | a colour question answers with the object of the first matching `has_color` association, else "I don't know the has color of X." |
| Knowledge.WhReply | main.py:186-201 | defines the WH branch: no subject gives the first fact sharing a token with the input; a predicate gives the first association's object or the "I don't know the ... of ..." sentence; otherwise the first fact sharing a token with the subject or "I don't know about ..." |
| Knowledge.FallbackReply | main.py:203-205 | defines the last branch: the first fact or concept sharing a token with the input, or "I don't know the answer to that." |
| Knowledge.Dispatch | main.py:161-175 | math first; then a phrase error, or a non-empty phrase reply; then a non-empty example; then the reasoning reply; the window is the phrase step's |
| MainBot.PhraseMerged | main.py:217-225 | a phrase whose input is held merges into that entry: only missing outputs are appended and the length is unchanged |
| MainBot.PhraseAppended | main.py:217-225 | when every stored phrase has an `input` and none equals the new one, the phrase is appended (a stored phrase without `input` raises KeyError instead, see `AddedRaises`) |
| MainBot.AddedRaises | main.py:219 | the call raises exactly when the scan meets a phrase without `input` before a match, or the new phrase has none; the error is KeyError |
| MainBot.AddedIdempotent | main.py:207-240 | applying `add_or_merge_entry` twice equals applying it once |
| MainBot.AddedDeduped | main.py:207-240 | the dedup invariant is preserved |
| MainBot.Added | main.py:207-240 | defines `add_or_merge_entry`: a phrase merges its outputs into the first phrase with its input, is appended when none has it, and raises KeyError when the scan meets a phrase without `input`; other types go to `AddedCommon` |
| MainBot.After | main.py:207-240 | defines the knowledge list after the call: the new list, or the old one when the call raised |
| MainBot.PhraseInputs | main.py:125 | the list holds exactly the stored phrase inputs |
| MainBot.PhraseReply | main.py:110-139 | a reply is an output of a stored phrase; an error leaves the window unchanged; the window stays within 5 and duplicate-free |
| MainBot.PhraseLearned | main.py:110-122 | after a phrase is taught, asking its input returns one of that phrase's outputs |
| MainBot.YesNoParse | main.py:82-89 | with 3 or more tokens: subject from token 2 without articles, object the last token, predicate "has_color" for a colour, else "is"; with fewer, no fields |
| MainBot.Parse | main.py:71-105 | on the tokens of the stripped lower-case text: no parse exactly when there are none or the first is neither a yes/no starter nor a WH word; a yes/no starter gives the `YesNoParse` of the tokens; otherwise a WH word gives a WH parse; any subject is free of articles |
| MainBot.YesNoReply | main.py:180-184 | "Yes" exactly when a stored association matches subject, predicate and object; otherwise "No" |
| MainBot.ArticleSubjectIgnored | main.py:82-89 | when token 2 is an article the subject is "", and the answer ignores the subject |
| MainBot.Reason | main.py:177-205 | defines the reasoning step: the yes/no answer ("I don't understand the question.", "Yes", "No"), the WH reply, or the fallback reply |
| MainBot.Answer | main.py:161-205 | defines `answer_question`: `Dispatch` of `try_math`, `answer_phrase`, `answer_example` and the reasoning step |
| MainBot.Bot.constructor | main.py:108 | the window starts empty |
| MainBot.Bot.AddOrMergeEntry | main.py:207-240 | the new knowledge is `After` of the old; an exception is reported and leaves it unchanged; the window is untouched |
| MainBot.Bot.AnswerPhrase | main.py:110-139 | reply and new window are `PhraseReply` of the old state; knowledge unchanged |
| MainBot.Bot.AnswerQuestion | main.py:161-205 | reply and new window are `Answer` of the old state; knowledge unchanged |
| MainBot.ReasonAbout | main.py:177-205 | computes the reasoning reply `Reason` |
| Chatbot.PhraseMerged | chatbot.py:203-215 | a phrase merges into the first stored phrase sharing a trigger with its `inputs`: only missing outputs are appended, nothing else changes |
| Chatbot.NoInputsAppended | chatbot.py:211-216 | a phrase without an `inputs` list is always appended, so adding it twice stores it twice |
| Chatbot.AddedIdempotent | chatbot.py:193-232 | any other entry added twice equals adding it once |
| Chatbot.AddedDeduped | chatbot.py:193-232 | the dedup invariant is preserved |
| Chatbot.Added | chatbot.py:193-232 | defines `add_or_merge_entry`: a phrase merges its outputs into the first phrase sharing one of its `inputs`, and is appended otherwise; other types go to `AddedCommon` |
| Chatbot.PairsOf | chatbot.py:107-116 | one pair per trigger of a phrase, from `inputs`, else from `input`; none for other entries |
| Chatbot.TriggerPairs | chatbot.py:105-116 | defines `trigger_response_pairs`: the pairs of every entry, in knowledge order |
| Chatbot.TriggerPairsMembers | chatbot.py:105-116 | a pair is collected exactly when a stored phrase has that trigger and those outputs |
| Chatbot.CollectTriggerPairs | chatbot.py:105-116 | the nested loops build `TriggerPairs` |
| Chatbot.TriggerList | chatbot.py:119 | the triggers of the pairs, in order |
| Chatbot.BestPair | chatbot.py:123-130 | the answering pair is the first with the greatest score: every earlier pair scores strictly less and none has its trigger |
| Chatbot.PhraseReply | chatbot.py:103-139 | no triggers, or a best score below 75, gives None with the window unchanged; a best score of 75 or more gives the window choice `Chosen` over the outputs of the first pair with the greatest score, whose trigger is extractOne's pick, so some reply or the IndexError, never None; a reply comes from a best-scoring pair; the window stays within 5 and duplicate-free |
| Chatbot.FirstPairOfTrigger | chatbot.py:128-130 | the first pair with trigger `u` comes from the first phrase holding `u` and carries that phrase's outputs |
| Chatbot.TaughtAt | chatbot.py:203-216 | a phrase taught with the single trigger `u` lands at the first phrase holding `u`, which then also holds the taught outputs |
| Chatbot.AnsweredByHolder | chatbot.py:123-137 | a question scoring at least 75 against `u`, and strictly more than against any other trigger, gets the window choice over the outputs of the first phrase holding `u` |
| Chatbot.PhraseLearned | chatbot.py:103-137 | after a phrase is taught with trigger `u`, a question scoring at least 75 against `u` and unbeaten by other triggers gets a reply: the window choice over the outputs of the phrase holding `u`, which include the taught ones |
| Chatbot.Parse | chatbot.py:73-97 | no parse exactly when there are no tokens or the first is not a WH word; otherwise a WH parse; any subject is free of articles |
| Chatbot.ColorQuestion | chatbot.py:84-88 | `what color is X` parses to ("wh", X without articles, "has_color", None) |
| Chatbot.Reason | chatbot.py:171-191 | defines the reasoning step: the WH reply, or the fallback reply |
| Chatbot.Answer | chatbot.py:158-191 | defines `answer_question`: `Dispatch` of `try_math`, `answer_phrase`, `answer_example` and the reasoning step |
| Chatbot.Bot.constructor | chatbot.py:101 | the window starts empty |
| Chatbot.Bot.AddOrMergeEntry | chatbot.py:193-232 | the new knowledge is `Added` of the old; the window is untouched |
| Chatbot.Bot.AnswerPhrase | chatbot.py:103-139 | reply and new window are `PhraseReply` of the old state; knowledge unchanged |
| Chatbot.Bot.AnswerQuestion | chatbot.py:158-191 | reply and new window are `Answer` of the old state; knowledge unchanged |
| Chatbot.ReasonAbout | chatbot.py:168-191 | computes the reasoning reply `Reason` |

## Left out

- The Flask routes' transport (request parsing, JSON responses, status codes), the HTML and JavaScript templates, and `webui.py`: these are presentation. Only the reply assembly of `/api/chat` and the GET filter of `/api/groups` are modelled.
- `get_db`, `close_db`, `init_db`: SQLite connection plumbing. The schema's constraints appear as `ChatStore.Consistent`, a store of three row sequences and three AUTOINCREMENT counters.
- SQL NULL in the group's `name` column, written by the `INSERT INTO groups` of `create_group` and the `UPDATE groups` of `update_group`: the model holds `name or None` as an `Option<string>`.
- `SequenceMatcher.ratio`, `get_close_matches`' `quick_ratio` prefilters, fuzzywuzzy's `token_sort_ratio`, and the admin `similarity` score. These are floating-point library code, modelled as abstract functions. The prefilters are upper bounds of the ratio and cannot change the chosen candidate.
- `eval` in `try_math`: a general Python evaluator, taken as a parameter.
- `random.choice`: any element of the answer list.
- `load_knowledge`, `save_knowledge`, `training_session`, `main`: file I/O and interactive loops.
- Unicode behaviour of `\w`, `\s` and `lower()`: the model is ASCII only.
- JSON values of the wrong type (an `inputs` field that is neither a list nor absent, a non-string output): the model's types rule them out.
- Aliasing of the dict objects in the knowledge list: entries are values, so an outside reference to a merged entry is not modelled.
- `api_group_item` (PATCH/DELETE routes): transport around `update_group` and `delete_group`, which are modelled.
- Knowledge.ExampleAnswer: its own contract says only that an answer is some stored output. The exact branch, the None case and answering a learned example are separate lemmas. The difflib branch is stated through `Fuzzy.CloseMatch`.
- MainBot.PhraseReply: its own contract does not say which phrase answers. `MainBot.PhraseLearned` covers the exact branch for a taught phrase, and the difflib branch is stated through `Fuzzy.CloseMatch`.
- ChatText.RemovePunct: its own contract does not fix which characters are kept. `RemovePunctOne` and `RemovePunctAppend` do, character by character and in order.
- ChatText.SplitBlankLines: its own contract says only that there is a part. Where it cuts is `SplitBlankLinesCuts`, with `SplitBlankLinesShift` and `BlankLinesJoin`.
- ChatText.SplitParagraphs: its own contract states only the empty case. `OneParagraph` and `ParagraphsJoin` state the result for texts made of paragraphs and blank-line separators.
- ChatText.SplitSentenceBreaks: its own contract states the terminal marks of the parts. Where it cuts is `SplitSentenceBreaksCuts`, with `SplitSentenceBreaksShift` and `SentenceBreaksJoin`.
- ChatText.RStripItems: its own contract does not say which items are kept. `RStripItemsSnoc` does, one item at a time and in order.
- ChatMatch.AssembleReplies: `random.choice` is a relation (`ReplyFits`), so which answer is returned is left open.
