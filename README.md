# Student quiz widgets — a verified model

This project models the grading logic of five quiz widgets of a student quiz
web application. It also models the text normaliser that keys the
text-to-speech cache.

- **Spell** (`spell.dfy`): the learner types a sentence they heard.
  - `verifySpelling` normalises both texts: trim, lowercase, strip punctuation, collapse whitespace.
  - It splits both texts into words and compares them position by position.
  - It marks extra and missing words, and passes the answer at 90% accuracy.
  - `isLTR` picks the text direction.
  - The widget holds the typed input and the last result.
- **Mark** (`mark.dfy`): the learner marks the words of a paragraph.
  - Words wrapped in `*…*` are the ones to find.
  - Clicking toggles a word; checking grades every word as correct, missed, incorrect or idle, and counts the score.
- **Match** (`match.dfy`): the learner matches each left word with its partner in the right column.
  - Both columns are shuffled.
  - The click handler is a state machine over select, deselect, switch, match and mismatch.
  - A timer later reverts a mismatch.
  - The exercise completes when every pair is matched; the mark is `max(0, pairs − mistakes)`.
- **Sort** (`sort.dfy`): the learner drags sentences into their original order.
  - The canonical order comes from a JSON array or a comma list, else from the samples.
  - The items are shuffled with a retry that rejects the identity order.
  - A drag applies `arrayMove`, and checking compares each item with its position.
- **Drag** (`drag.dfy`): items are dropped on a stage.
  - An item snaps into the first dropzone that holds its centre; otherwise it is clamped to the stage.
  - One validation counts the items whose centre lies in their designated dropzone.
- **Cache key** (`spell_actions.dfy`): `normalizeTextForHashing`, the text that is hashed to name the cached audio.

Shared definitions:

- `text_ops.dfy`: trimming, lowercasing, punctuation stripping, whitespace collapsing, and splitting into words. It follows ECMAScript `String.prototype.trim` and the `\s` class.
- `shuffle.dfy`: Fisher–Yates on an array, driven by injected draws.
- `common.dfy`: `Option`, counting, and decimal rendering of indices.

The Unicode tables that the source reaches through `\p{L}`, `\p{N}` and
`toLowerCase` are a parameter `u: Unicode`. Lowercasing is modelled one
character at a time, as a map `char -> char`; this leaves out the context
rules of `toLowerCase` (see "## Left out" and "## Findings"). Beyond that, the
lemmas assume only what `WellFormed(u)` states: lowercasing is idempotent, and
it neither creates nor changes whitespace. `Math.random()` is a sequence of injected draws in
`[0, 1)`. Coordinates of the drag widget are `real` numbers.

## Model

| member | source | states |
|---|---|---|
| Common.CountTrue | components/sort-interface.tsx:265 | the number of `true` entries never exceeds the length of the list |
| Common.CountTrueAppend | components/drag-interface.tsx:375 | counting `true` entries is additive over concatenation, so a counter incremented per entry equals the filter count |
| Common.CountTrueAll | components/sort-interface.tsx:264-265 | every entry is `true` exactly when the count equals the length |
| Common.Decimal | components/match-interface.tsx:70 | the rendering of a number is non-empty and has one digit exactly for numbers below 10 |
| Common.DecimalInjective | components/sort-interface.tsx:190 | distinct indices render to distinct strings, so generated ids never collide |
| TextOps.LeadingWs | lib/spell-actions.ts:30 | the counted prefix is all whitespace and is followed by a non-whitespace character or the end |
| TextOps.TrailingWs | lib/spell-actions.ts:35 | the counted suffix is all whitespace and is preceded by a non-whitespace character or the start |
| TextOps.Trim | lib/spell-actions.ts:30 | the result neither starts nor ends with whitespace and is no longer than the input |
| TextOps.TrimSplit | lib/spell-actions.ts:30 | the input is whitespace, then the trimmed text, then whitespace |
| TextOps.TrimEmpty | components/spell-interface.tsx:182 | trimming yields the empty string exactly when the input is all whitespace |
| TextOps.TrimOfTrimmed | lib/spell-actions.ts:35 | trimming a text that has no whitespace at either end returns it unchanged |
| TextOps.Lower | lib/spell-actions.ts:32 | each character is replaced by its own lowercase form, so the length is kept; this is the context-free part of `toLowerCase` only |
| TextOps.StripPunct | lib/spell-actions.ts:33 | only letters, numbers and whitespace survive, and the text does not grow |
| TextOps.StripPunctOfKept | lib/spell-actions.ts:33 | a text of letters, numbers and whitespace is left unchanged |
| TextOps.StripPunctAppend | lib/spell-actions.ts:33 | punctuation is stripped character by character, so stripping distributes over concatenation |
| TextOps.CollapseWhitespace | lib/spell-actions.ts:34 | every whitespace run becomes exactly one space: no two whitespace characters are adjacent and all remaining whitespace is a space |
| TextOps.CollapseFields | lib/spell-actions.ts:34 | collapsing whitespace keeps the list of words |
| TextOps.SplitFields | components/mark-interface.tsx:30 | no field produced by a split contains a separator |
| TextOps.NonEmptyMembers | components/mark-interface.tsx:30 | `filter(Boolean)` keeps only non-empty strings taken from its input |
| TextOps.WordsShape | components/mark-interface.tsx:30 | the words of a text are non-empty and free of whitespace |
| TextOps.WordsAt | components/mark-interface.tsx:30 | splitting at a whitespace character splits the word list there |
| TextOps.WordsRepeatedSeparator | components/mark-interface.tsx:30 | a run of whitespace separates like a single whitespace character |
| TextOps.TrimWords | components/spell-interface.tsx:389 | trimming does not change the words of a text |
| TextOps.JoinWordsOfCanonical | lib/spell-actions.ts:29-36 | a text with no outer whitespace and single spaces between words is its words joined by spaces |
| SpellActions.NormalizeForHashing | lib/spell-actions.ts:29-36 | the key has no leading, trailing or repeated whitespace, only single spaces, and only letters, numbers and spaces |
| SpellActions.NormalizeIsLowercase | lib/spell-actions.ts:32 | the key is lowercase |
| SpellActions.NormalizeIsJoinedWords | lib/spell-actions.ts:29-36 | the key is the words of the lowercased, punctuation-free text joined by single spaces |
| SpellActions.NormalizeIdempotent | lib/spell-actions.ts:24-36 | normalising a key returns it unchanged, so the hash of a key is stable |
| SpellActions.NormalizeIgnoresCase | lib/spell-actions.ts:24-28 | texts that differ only in case get the same key |
| SpellActions.NormalizeIgnoresPunctuation | lib/spell-actions.ts:24-28 | inserting a punctuation character anywhere does not change the key |
| SpellActions.NormalizeIgnoresExtraSpace | lib/spell-actions.ts:24-28 | adding whitespace at either end or next to existing whitespace does not change the key |
| SpellActions.NormalizeIgnoresSpaceKind | lib/spell-actions.ts:34 | which whitespace character separates two parts does not change the key |
| SpellActions.NormalizeWithCasing | lib/spell-actions.ts:29-36 | the source's pipeline with `toLowerCase` given on whole strings also yields a key with single spaces and no outer whitespace |
| SpellActions.SigmaLower | lib/spell-actions.ts:32 | lowercasing with the Final_Sigma rule of the Unicode standard keeps the length |
| SpellActions.PunctuationChangesKey | lib/spell-actions.ts:32-33 | with the Final_Sigma rule, "ΑΣ-Α" keys to "αςα" and "ΑΣΑ" to "ασα": the hyphen, stripped only after lowercasing, changes the key |
| SpellActions.NormalizeStripFirst | lib/spell-actions.ts:29-36 | the corrected key, punctuation stripped before lowercasing, has single spaces and no outer whitespace |
| SpellActions.StripFirstIgnoresPunctuation | lib/spell-actions.ts:24-28 | with punctuation stripped first, inserting a punctuation character anywhere never changes the key, whatever the lowercase mapping does |
| SpellActions.StripFirstAgrees | lib/spell-actions.ts:29-36 | under one-character-at-a-time lowering that keeps letter and number categories, the corrected key equals the source's key |
| Spell.SentenceOf | components/spell-interface.tsx:48 | a non-empty content sentence is used; a missing or empty one falls back to the sample sentence |
| Spell.NormalizeText | components/spell-interface.tsx:387-392 | the normalised text holds only letters, numbers and single spaces, with no two whitespace characters in a row |
| Spell.NormalizeTextIsLowercase | components/spell-interface.tsx:390 | the normalised text is lowercase |
| Spell.SpellWordsShape | components/spell-interface.tsx:397-398 | the compared words are non-empty and contain no space |
| Spell.SpellWordsAreKeyWords | components/spell-interface.tsx:387-398 | the compared words are exactly the words of the cache key of the same text |
| Spell.VerifySpelling | components/spell-interface.tsx:378-429 | the method's result is the comparison of the two word lists |
| Spell.Score | components/spell-interface.tsx:400-428 | one entry per position of the longer list; accuracy lies in [0, 100]; the answer passes exactly at 90 or more; an empty reference scores 0 and fails |
| Spell.Verify | components/spell-interface.tsx:378-429 | one entry per position of the longer word list, and a passing verdict needs a non-empty reference sentence |
| Spell.CompareWords | components/spell-interface.tsx:400-428 | the loop builds one entry per position and the count of matching words, as the comparison defines them |
| Spell.ScoreEntries | components/spell-interface.tsx:404-423 | there are max(#reference, #user) entries; entry i is correct iff both words exist and are equal; a surplus user word is "(extra)"; a missing word is "(missing)" with the expected word; otherwise the expected word is carried |
| Spell.EntryOutcome | components/spell-interface.tsx:404-423 | the same per-entry outcome, stated for the two texts |
| Spell.CorrectCountBound | components/spell-interface.tsx:410-412 | the correct count never exceeds either word list |
| Spell.CorrectCountIsCorrectEntries | components/spell-interface.tsx:410-412 | the counter equals the number of entries marked correct |
| Spell.ScoreAccuracy | components/spell-interface.tsx:425-426 | accuracy is 100·correct/#reference, 0 for an empty reference, lies in [0, 100], and passing means at least 90% |
| Spell.AccuracyMeaning | components/spell-interface.tsx:425-426 | the same accuracy facts, stated for the two texts |
| Spell.AccuracyRange | components/spell-interface.tsx:425 | accuracy lies between 0 and 100 |
| Spell.PassMark | components/spell-interface.tsx:426 | accuracy ≥ 90 exactly when there is a reference word and at least nine in ten are right |
| Spell.AllMatch | components/spell-interface.tsx:410-412 | comparing a word list with itself counts every word |
| Spell.FullAccuracy | components/spell-interface.tsx:425 | all reference words right is an accuracy of exactly 100 |
| Spell.ScoreOfSame | components/spell-interface.tsx:425-426 | a non-empty word list compared with itself scores 100 and passes |
| Spell.VerbatimAnswerPasses | components/spell-interface.tsx:378-429 | typing the sentence itself scores 100 and passes |
| Spell.VerifyDependsOnlyOnKey | components/spell-interface.tsx:387-398 | two answers with the same cache key get the same verdict |
| Spell.IsLTR | components/spell-interface.tsx:374-376 | a text is left-to-right when twice its ASCII letters outnumber its non-whitespace characters, so a left-to-right text holds an ASCII letter |
| Spell.LetterCountBound | components/spell-interface.tsx:374-376 | the ASCII letters are among the non-whitespace characters |
| Spell.NoLatinMeansRtl | components/spell-interface.tsx:374-376 | a sentence without ASCII letters is right-to-left |
| Spell.LatinMeansLtr | components/spell-interface.tsx:374-376 | a sentence of ASCII letters and whitespace, with at least one letter, is left-to-right |
| Spell.AllLatin | components/spell-interface.tsx:374-376 | in such a sentence every non-whitespace character is an ASCII letter |
| Spell.SpellWidget.constructor | components/spell-interface.tsx:47-53 | the widget starts with the chosen sentence, empty input and no result |
| Spell.SpellWidget.Type | components/spell-interface.tsx:291-294 | typing replaces the input and keeps the result; it is possible only while the answer has not passed |
| Spell.SpellWidget.Submit | components/spell-interface.tsx:181-188 | blank input changes nothing; otherwise the result becomes the verification of the input |
| Spell.SpellWidget.Retry | components/spell-interface.tsx:190-193 | the result and the input are cleared |
| Spell.SubmitEnabledMeaning | components/spell-interface.tsx:299 | submitting is enabled exactly when the input is not blank and there is no passing result |
| Mark.ParagraphOf | components/mark-interface.tsx:67 | a non-empty content paragraph is used; a missing or empty one falls back to the sample paragraph |
| Mark.RemoveStars | components/mark-interface.tsx:46 | the result contains no `*` and is no longer than the input |
| Mark.RemoveStarsOfStarFree | components/mark-interface.tsx:46 | a word without `*` is left unchanged |
| Mark.Parse | components/mark-interface.tsx:25-54 | the tokens are numbered from 0 by position and all start idle |
| Mark.ParseParagraph | components/mark-interface.tsx:25-54 | the loop yields the parse of the paragraph |
| Mark.ParseMeaning | components/mark-interface.tsx:25-54 | one token per word, numbered from 0 and idle; a token is required iff its word is `*x*` with x non-empty, whose text is then x, else the word without stars; no token text holds whitespace |
| Mark.CheckTokens | components/mark-interface.tsx:100-118 | the grading loop yields every token graded and counts the selected required tokens |
| Mark.ParsedIsValid | components/mark-interface.tsx:25-54 | parsed tokens are numbered by position and unchecked |
| Mark.Toggled | components/mark-interface.tsx:88-97 | a click changes only token states, and changes the state of exactly the tokens with the clicked id |
| Mark.ToggledMeaning | components/mark-interface.tsx:85-97 | a click flips only the clicked token between idle and selected; a second click undoes it |
| Mark.SelectedRequiredBound | components/mark-interface.tsx:99-123 | the score never exceeds the number of required words, and equals it exactly when every required word is selected |
| Mark.Checked | components/mark-interface.tsx:102-118 | grading changes only token states and leaves no token selected: a selected required word becomes correct, an unselected required word missed, a selected distractor incorrect, and any other token keeps its state |
| Mark.CheckedCounts | components/mark-interface.tsx:100-106 | the score counter equals the number of tokens graded correct |
| Mark.CheckedStates | components/mark-interface.tsx:102-118 | grading keeps the tokens and their numbering, leaves none selected, and keeps the required count |
| Mark.AllCorrectMeaning | components/mark-interface.tsx:131 | after a check, everything is correct exactly when the selection is exactly the required words |
| Mark.MarkWidget.constructor | components/mark-interface.tsx:65-80 | the widget starts with the parsed paragraph, unchecked, without a score |
| Mark.MarkWidget.Click | components/mark-interface.tsx:85-97 | after a check a click changes nothing; before it the clicked token is toggled |
| Mark.MarkWidget.Check | components/mark-interface.tsx:99-123 | tokens are graded, the score is (selected required words, required words), and the all-correct flag means the selection was exactly right |
| Mark.MarkWidget.Retry | components/mark-interface.tsx:125-129 | the paragraph is parsed afresh, unchecked and without a score |
| Shuffle.Pick | components/match-interface.tsx:34 | `floor(r·(i+1))` is an index in [0, i] |
| Shuffle.Swap | components/match-interface.tsx:35 | the swap exchanges the two cells and keeps every other |
| Shuffle.SwapPermutes | components/match-interface.tsx:35 | a swap is a permutation |
| Shuffle.FisherYates | components/match-interface.tsx:31-38 | the shuffled list keeps the length |
| Shuffle.FisherYatesPermutes | components/match-interface.tsx:31-38 | the shuffle is a permutation of its input |
| Shuffle.FisherYatesInPlace | components/match-interface.tsx:32-36 | the loop from the last index down to 1 leaves the array in the order the swap sequence defines |
| Shuffle.PermutationDistinct | components/match-interface.tsx:67-84 | a permutation of items with distinct keys has distinct keys |
| Sort.Shuffled | components/sort-interface.tsx:42-53 | the result is a permutation; for more than one item it differs from the input order; for one item or none it is the input |
| Sort.ShuffleArray | components/sort-interface.tsx:42-53 | the method, with its retry on the identity order, yields the specified shuffle |
| Sort.TrimAll | components/sort-interface.tsx:180 | each part is trimmed |
| Sort.CanonicalOrder | components/sort-interface.tsx:170-186 | the order has at least two sentences; without content, with a non-array JSON value or with a JSON array of at most one element it is the samples; with content, a JSON array of more than one element is used as is; on a parse error the comma split is used exactly when it has more than one part, else the samples |
| Sort.CanonicalOrderLength | components/sort-interface.tsx:170-186 | there are always at least two sentences; without content or with a non-array JSON value the samples are used |
| Sort.CommaPartsShape | components/sort-interface.tsx:178-181 | each comma part is non-empty, trimmed and comma-free |
| Sort.SplitJoinComma | components/sort-interface.tsx:179 | splitting a comma-joined list of comma-free parts gives the parts back |
| Sort.CommaListRoundTrip | components/sort-interface.tsx:177-183 | when the JSON parse fails, a comma-separated list of two or more trimmed parts is the order |
| Sort.ItemIdInjective | components/sort-interface.tsx:190 | distinct positions get distinct ids |
| Sort.BuildItemsMeaning | components/sort-interface.tsx:188-193 | one item per sentence, with distinct ids, its own text and its own position as correct index |
| Sort.IndexOf | components/sort-interface.tsx:238-239 | `findIndex` returns the first position holding the id |
| Sort.ArrayMove | components/sort-interface.tsx:241 | the moved item lands at the target index and the length is kept |
| Sort.ArrayMoveMeaning | components/sort-interface.tsx:241 | a move is a permutation, keeps the order of the other items, and moving back undoes it |
| Sort.CheckResults | components/sort-interface.tsx:245 | there is one result per item, and result i is true exactly when item i's correct index is i |
| Sort.AllRightMeansCanonical | components/sort-interface.tsx:245-264 | for a permutation of the built items, every check passes exactly when the items are in canonical order |
| Sort.FreshShuffleUnsolved | components/sort-interface.tsx:48-51 | a freshly shuffled list of two or more sentences never starts fully solved |
| Sort.SortWidget.constructor | components/sort-interface.tsx:170-199 | the widget starts with the shuffled built items, unchecked, without results |
| Sort.SortWidget.CorrectCount | components/sort-interface.tsx:265 | the count of correct results is at most the number of results |
| Sort.SortWidget.DragEnd | components/sort-interface.tsx:233-242 | a drag is possible only before the check; dropping nowhere or on itself changes nothing; otherwise the items are moved from the old index to the new index |
| Sort.SortWidget.Check | components/sort-interface.tsx:244-248 | the items are kept, the widget stays valid, and each result says whether an item sits at its correct index |
| Sort.SortWidget.Retry | components/sort-interface.tsx:250-262 | the items are reshuffled from the canonical order and the results are cleared |
| Match.PairsOf | components/match-interface.tsx:65 | the content's pairs are used when present, else exactly the five sample pairs |
| Match.LeftItems | components/match-interface.tsx:67-73 | one left item per pair |
| Match.RightItems | components/match-interface.tsx:75-81 | one right item per pair |
| Match.SetState | components/match-interface.tsx:98-102 | only the items with the given id change state, to the given one |
| Match.Switch | components/match-interface.tsx:125-141 | the clicked item becomes selected and the previous selection idle, with nothing else changed |
| Match.MarkPair | components/match-interface.tsx:144-155 | exactly the items of the matched pair become correct |
| Match.RevertIds | components/match-interface.tsx:184-195 | the two items of the attempt return from incorrect to idle, with nothing else changed |
| Match.Revert | components/match-interface.tsx:184-195 | on the board, only the two items of the attempt change, from incorrect to idle; selection, completed pairs and mistakes are kept |
| Match.Step | components/match-interface.tsx:90-200 | a click never adds, removes or reorders items in either column |
| Match.Initial | components/match-interface.tsx:60-88 | each column is a permutation of its items |
| Match.InitialInv | components/match-interface.tsx:60-88 | the initial board satisfies the board invariant, with one item per pair in each column and the pair ids 0…n−1; every item is idle, nothing is selected or completed, and there are no mistakes |
| Match.StepInv | components/match-interface.tsx:90-200 | every click keeps the board invariant: distinct ids, both columns over the same pairs, correct iff the pair is completed, selected iff it is the remembered selection |
| Match.RevertInv | components/match-interface.tsx:184-195 | the timed revert keeps the board invariant |
| Match.PairIdsCard | components/match-interface.tsx:204-205 | a column with distinct pair ids has as many pair ids as items |
| Match.AtMostOneSelected | components/match-interface.tsx:90-200 | at most one item on the board is selected |
| Match.CompletionMeansAllCorrect | components/match-interface.tsx:203-208 | at most one completed pair per left item, and all pairs are completed exactly when every item in both columns shows correct |
| Match.StepMonotone | components/match-interface.tsx:90-200 | a click adds at most the clicked pair to the completed set, adds at most one mistake, and never un-does a correct item |
| Match.CorrectClickIgnored | components/match-interface.tsx:92 | a click on an item of a completed pair changes nothing |
| Match.PartnerCompletes | components/match-interface.tsx:95-155 | selecting a left item and then its right partner completes the pair, marks exactly its items in both columns correct, keeps every other item's state, and counts no mistake |
| Match.WrongPartnerCounts | components/match-interface.tsx:157-198 | selecting a left item and then a right item of another pair counts one mistake, marks both incorrect, keeps every other item's state, and the revert makes them idle again |
| Match.StepValid | components/match-interface.tsx:90-208 | a click keeps the invariant and the completion flag consistent with the completed pairs |
| Match.MarkOf | components/match-interface.tsx:291 | the mark is at most the number of pairs, is full with no mistakes, otherwise pairs minus mistakes, and never negative |
| Match.ShuffleArray | components/match-interface.tsx:31-38 | the copy is shuffled by the swap sequence and is a permutation of the input |
| Match.MatchBoard.constructor | components/match-interface.tsx:50-88 | the board starts as the shuffled initial board, valid and not complete |
| Match.MatchBoard.Click | components/match-interface.tsx:90-200 | a click on an enabled word performs one step of the state machine and keeps the board valid |
| Match.MatchBoard.HandleWordClick | components/match-interface.tsx:90-200 | the handler's field updates perform exactly one step |
| Match.MatchBoard.RevertAttempt | components/match-interface.tsx:184-195 | the timer callback reverts the attempt and keeps the board valid |
| Match.MatchBoard.CheckComplete | components/match-interface.tsx:203-208 | the board is complete exactly when it has pairs and all of them are completed |
| Match.MatchBoard.Mark | components/match-interface.tsx:291 | the reported mark is at most the number of pairs, and full with no mistakes |
| Drag.ContainsClosed | components/drag-interface.tsx:287-292 | the containment test is inclusive on all four edges and excludes anything outside them |
| Drag.Clamp | components/drag-interface.tsx:265-268 | the clamped coordinate lies in [0, hi] (0 when hi < 0) and is unchanged when already inside |
| Drag.FirstContainingFrom | components/drag-interface.tsx:271-310 | the dropzone found holds the centre and none listed before it does; none is found exactly when no dropzone holds it |
| Drag.DropPosition | components/drag-interface.tsx:263-310 | an item dropped outside every dropzone never lands above or left of the stage |
| Drag.DropClamped | components/drag-interface.tsx:265-268 | a drop outside every dropzone is clamped into [0, stageW − w] × [0, stageH − h] |
| Drag.DropSnapsToFirst | components/drag-interface.tsx:271-310 | a drop whose centre lies in a dropzone is centred in the first such dropzone, off by less than 0.001 on each axis |
| Drag.SnapStaysInside | components/drag-interface.tsx:293-307 | a snapped item is scored inside that dropzone whenever the dropzone is at least 0.002 wide and high |
| Drag.FindDropzone | components/drag-interface.tsx:345-347 | `find` returns the first dropzone with the id, and nothing exactly when no dropzone has it |
| Drag.PlacementMeaning | components/drag-interface.tsx:337-371 | an item scores correct iff it names a target, a dropzone has that id, and the centre of its current position (its initial position if never dropped) lies in the first such dropzone's closed rectangle |
| Drag.NoTargetScoresFalse | components/drag-interface.tsx:343-349 | an item without a target, or whose target matches no dropzone, scores false |
| Drag.Verdicts | components/drag-interface.tsx:337-371 | one verdict per item, and only an item that names a target can be correct |
| Drag.Results | components/drag-interface.tsx:333-376 | the record is built by last-wins updates in list order, so the last item's id maps to that item's verdict |
| Drag.ResultsKeys | components/drag-interface.tsx:333-376 | the results record has an entry for exactly the ids of the items |
| Drag.ResultsLastWins | components/drag-interface.tsx:374 | an item's entry is its own verdict unless a later item shares its id |
| Drag.ResultsCount | components/drag-interface.tsx:333-376 | with distinct ids, the results record has one entry per item |
| Drag.ScoreCountsTrueEntries | components/drag-interface.tsx:374-379 | with distinct ids, the score is the number of `true` entries in the results record |
| Drag.PlacedCorrectly | components/drag-interface.tsx:337-371 | the validation loop's body for one item computes exactly its verdict |
| Drag.DropPositionOf | components/drag-interface.tsx:263-310 | the loop with its `break` yields the clamped or snapped position as specified |
| Drag.ScorePlacements | components/drag-interface.tsx:331-376 | the loop builds the results record and counts the correct items; the count is at most the number of items |
| Drag.DragBoard.constructor | components/drag-interface.tsx:161-194 | the board starts without positions, unvalidated, without results, with score 0 |
| Drag.DragBoard.DragEnd | components/drag-interface.tsx:263-316 | a drop is possible only before validation and sets only the dropped item's preview position |
| Drag.DragBoard.Validate | components/drag-interface.tsx:331-381 | the results and score are recorded for the current positions, the positions are kept, and the board is locked against further drags |

## Left out

- Audio is not modelled. This covers decoding, playback, the waveform display, text-to-speech generation and the S3 cache calls in `lib/spell-actions.ts`: they are browser, network and foreign-service I/O. The SHA-256 hash is a library call, so only its input, the normalised key, is modelled.
- The Unicode letter and number tables and the lowercase mapping are a parameter, not tables. Lengths are counted in code points rather than UTF-16 units.
- TextOps.Lower: lowers one character at a time and keeps the length. `toLowerCase` also applies the Final_Sigma rule, where a capital sigma's lowercase depends on its neighbours, and expands U+0130 to two code points. Only `SpellActions.SigmaLower` models the Final_Sigma rule, and only for Latin and Greek letters.
- SpellActions.NormalizeIgnoresPunctuation: holds for per-character lowering only. With the Final_Sigma rule it fails when a capital sigma stands before the inserted character, as `SpellActions.PunctuationChangesKey` shows. The other invariance lemmas also assume per-character lowering.
- `JSON.parse` is not modelled. Its outcome (array, other value, or parse error) is an input of `Sort.CanonicalOrder`.
- `Math.random` is not modelled. Each call is a draw in `[0, 1)` taken from a parameter. The snap jitter of the drag widget is an offset in `[0, 0.001)`.
- Sort.ShuffleArray: the retry on the identity order consumes a finite list of draws. The result is `None` when the draws run out, where the source retries until the order changes.
- Sort.SortWidget.DragEnd: requires that the active and target ids are on the list. The library only reports ids of rendered items. It also requires that the list is not yet checked. The handler itself has no such check, but `useSortable({ disabled: hasChecked })` stops any drag after the check.
- Match.MatchBoard.Click: requires that the clicked item is on the board, as only rendered items can be clicked, and that it is neither correct nor incorrect, as those buttons are disabled (components/match-interface.tsx:257, 272). `Match.Step` itself accepts any click.
- Drag.DragBoard.DragEnd: requires that the board is not yet validated. The source has no such check, but the items' `draggable` flag stops any drag after validation.
- Timers are not modelled. The delayed revert of a mismatch is the explicit call `Match.MatchBoard.RevertAttempt`.
- Viewport scaling of the drag stage and of the content coordinates is not modelled. The stage size is a constant of the board.
- The event coordinates reported by the canvas library are parameters of `DragEnd`.
- Floating-point arithmetic is modelled as exact: accuracy, centres and clamping are `real` numbers, so rounding is not modelled.
- The content loader and the bridge to the host page are not modelled. Neither are the lesson-history call, `components/quiz-interface.tsx`, `components/latex-text.tsx`, `lib/actions.ts`, `lib/utils.ts` and the `app/` pages. These are routing, styling and I/O.
- The submit-in-progress flag of the spelling widget is not modelled. Its setters are commented out in the source.
- Prompt texts and all styling are not modelled.

## Findings

| source | as written | input that shows it | evidently intended | confidence | as-written member | corrected member |
|---|---|---|---|---|---|---|
| lib/spell-actions.ts:32-33 | lowercases before it strips punctuation, so the Final_Sigma rule still sees the punctuation | "ΑΣ-Α" keys to "αςα" but "ΑΣΑ" keys to "ασα" | punctuation does not change the cache key | low, not executed | SpellActions.PunctuationChangesKey | SpellActions.StripFirstIgnoresPunctuation |

The corrected key strips punctuation first (`SpellActions.NormalizeStripFirst`). Under the per-character lowering used everywhere else in this model, it equals the source's key (`SpellActions.StripFirstAgrees`). So the rest of the model states its properties of the corrected behaviour.
