# Reading-comprehension app core, modelled in Dafny

The app gives a child a passage about honeybees, cut into chunks, and asks questions about each chunk. This project models the logic that decides and records the child's answers. It has three parts:

- **The offline answer evaluator** (`lib/evaluate.ts`):
  - it normalizes the free-text answer;
  - it looks for each rubric concept's keywords with a typo-tolerant, word-level match (Levenshtein distance, a length-dependent tolerance, sliding windows and an in-order subsequence scan);
  - it rejects an answer that is a near-verbatim paste of the chunk;
  - it scores the answer as correct, partial or incorrect.
- **The chunking of the passage** (`lib/passage.ts`): the seven sections are grouped into 6, 5 or 4 chunks according to difficulty.
- **The state of two interactive cards:**
  - the fill-in-the-blank card (`components/DragDropCard.tsx`): it parses a template such as `Bees make __1__ from __2__.`, fills slots from a shuffled word bank and submits;
  - the put-in-order card (`components/ReorderCard.tsx`): events move between a shuffled pool and numbered slots.

Modules, one per file:

- `Options`: `null` as `None`.
- `Strings`: JavaScript `split(" ")`, `join` and `includes`.
- `EditDistance`: `levenshtein`.
- `Normalization`: `normalize`.
- `Fuzzy`: `maxDistance` and `fuzzyContains`.
- `Evaluation`: `isChunkDump`, `conceptMatched` and `evaluateAnswer`, plus the `KeyConcept` and `AnswerResult` types of `lib/types.ts`.
- `Passage`: `chunkGroupings`, `mergeSections` and `getChunks`.
- `Shuffling`: the Fisher–Yates `shuffle` that both cards define.
- `Sentence`: `parseSentence`.
- `SlotRow`: the slot array both cards keep.
- `DragDrop` and `Reorder`: the two cards' handlers.

Every handler is a pure function from the old state to the new one. React's `setState` is the function's result.

Modelling choices:

- **Floating-point ratios.** The ratios in `isChunkDump` are compared exactly by cross-multiplying. `answer/chunk < 0.9` becomes `10·answer < 9·chunk`, and `overlap/answer > 0.95` becomes `20·overlap > 19·answer`.
- **The empty-list guard in `isChunkDump` is dead code.** `"".split(" ")` is `[""]`, so the guard never fires. The model keeps it as written.
- **The quote rewrite in `normalize` is the identity.** Both characters of the class `['']` at `lib/evaluate.ts:34` are the plain apostrophe, so the step maps `'` to itself.
- **`expectedAnswer` is unused.** `evaluateAnswer` takes it and ignores it, and so does the model.
- **Random draws are inputs.** The draw `Math.floor(Math.random() * (i + 1))` of each shuffle step is an input `picks[i]` with `picks[i] <= i`.

## Model

| member | source | states |
|---|---|---|
| EditDistance.LevenshteinIsEditDistance | lib/evaluate.ts:3-21 | The dynamic-programming recurrence equals the textbook edit distance: the fewest insertions, deletions and substitutions. |
| EditDistance.LevenshteinTable | lib/evaluate.ts:3-21 | Filling the `dp` table row by row, each row from the one above, returns the edit distance of the two words. |
| EditDistance.LevenshteinZeroIffEqual | lib/evaluate.ts:3-21 | The distance is 0 exactly when the words are equal. The distance to the empty word is the other word's length (the table's first row and column). |
| EditDistance.LevenshteinAtLeastLengthGap | lib/evaluate.ts:3-21 | The distance is never smaller than the difference in length. |
| Fuzzy.ToleranceByLength | lib/evaluate.ts:24-29 | Tolerance by keyword length: up to 3 characters needs an exact match; 4–5 allows one edit; 6–7 allows two; longer allows three. A word within tolerance differs in length by at most the tolerance. |
| Normalization.CanonicalChar | lib/evaluate.ts:33-35 | An upper-case letter `A`–`Z` becomes its lower-case letter. Any other character outside `[a-z0-9' ]` becomes a space. Characters inside the set are kept. |
| Normalization.CollapseSpaces | lib/evaluate.ts:36 | Runs of spaces shrink to one, so the text never grows. The first and last characters and the allowed-character property are kept. |
| Normalization.CollapseKeepsWords | lib/evaluate.ts:36 | Collapsing keeps the words, meaning the non-empty pieces between spaces, exactly and in order. A run of spaces between two words never vanishes. |
| Normalization.TrimStart | lib/evaluate.ts:37 | Removes only leading spaces. The result is a suffix that does not start with a space. |
| Normalization.TrimEnd | lib/evaluate.ts:37 | Removes only trailing spaces. The result is a prefix that does not end with a space. |
| Normalization.Trim | lib/evaluate.ts:37 | The result neither starts nor ends with a space. It keeps the words, the non-space characters, the allowed-character property and the absence of double spaces. |
| Normalization.Normalize | lib/evaluate.ts:31-38 | The output uses only `[a-z0-9' ]`, has no double space and has no leading or trailing space. |
| Normalization.NormalizeKeepsNormal | lib/evaluate.ts:31-38 | Text that is already normal is returned unchanged. |
| Normalization.NormalizeIdempotent | lib/evaluate.ts:31-38 | Normalizing twice is the same as normalizing once. |
| Normalization.NormalizeKeepsContent | lib/evaluate.ts:31-38 | Only spaces are added or removed: the non-space characters are those of the character-mapped text, in order. |
| Normalization.NormalizeKeepsWords | lib/evaluate.ts:31-38 | The words of the normalized text are exactly the words of the character-mapped text. |
| Normalization.NormalizeIsJoinedWords | lib/evaluate.ts:31-38 | The normalized text is the words of the character-mapped text joined with single spaces. |
| Strings.ContainsFrom | lib/evaluate.ts:41 | The left-to-right scan of `includes` finds the needle iff it occurs at some position from the start. Scanning from 0 decides `Contains`. |
| Strings.SplitOfJoin | lib/passage.ts:32 | `join` with a one-character separator is undone by `split` on it, as long as no piece contains the separator. |
| Strings.Split | lib/evaluate.ts:43-44 | `split(" ")` gives at least one piece. No piece contains the separator, and joining the pieces with it gives back the string. |
| Strings.SplitPiecesNonEmpty | lib/evaluate.ts:43-44 | Splitting a non-empty normalized text gives no empty word. |
| Fuzzy.AnyWordWithin | lib/evaluate.ts:46-48 | A one-word keyword matches iff some answer word is within its tolerance. |
| Fuzzy.WindowFrom | lib/evaluate.ts:50-57 | The window loop succeeds iff some run of consecutive answer words matches the keyword words one by one, each within its tolerance. |
| Fuzzy.MultiWordMatch | lib/evaluate.ts:50-70 | For a keyword of several words: a match iff some window of consecutive answer words matches, or the keyword has 2 to 4 words and they can be matched in order at increasing answer positions. |
| Fuzzy.GreedyScanIffEmbeds | lib/evaluate.ts:59-68 | The greedy left-to-right scan reaches the end of the keyword words iff those words can be matched, in order and each within tolerance, to answer words at strictly increasing positions. Greedy is therefore complete. |
| Fuzzy.FuzzyContains | lib/evaluate.ts:40-71 | A keyword matches iff one of these holds: the keyword is a substring of the answer; for one word, some answer word is within tolerance; for several words, a matching window exists or, for 2–4 words, an in-order embedding exists. |
| Fuzzy.EmptyNeedleMatches | lib/evaluate.ts:41 | An empty keyword matches every answer. |
| Evaluation.ConceptMatched | lib/evaluate.ts:73-75 | The `some` loop over the keywords matches iff some keyword, once normalized, fuzzily matches the answer. |
| Evaluation.ConceptMatchedEdgeCases | lib/evaluate.ts:73-75 | A concept with no keywords never matches. A concept with a keyword that normalizes to the empty text always matches. |
| Evaluation.Overlap | lib/evaluate.ts:97-101 | The overlap is the number of answer positions whose word occurs in the chunk, repeats counted. So it is at most the number of answer words, equals that number iff every answer word is in the chunk, and is 0 iff none is. |
| Evaluation.IsChunkDump | lib/evaluate.ts:86-105 | It is a dump iff the answer has at least 90% of the chunk's word count and more than 95% of its words occur in the chunk. An answer identical to the chunk is always a dump. |
| Evaluation.NoSharedWordNoDump | lib/evaluate.ts:86-105 | An answer that shares no word with the chunk is never a dump. |
| Evaluation.SelectPartitions | lib/evaluate.ts:147-156 | The matched and missed lists interleave to give the full label list in order. Their sizes add up, and each label comes from a concept on the right side. |
| Evaluation.PartitionLoop | lib/evaluate.ts:150-156 | The push loop puts the matched concepts' labels in `matched` and the others in `missed`, both in rubric order. |
| Evaluation.Score | lib/evaluate.ts:158-186 | No match: incorrect, 0 points. At least half (`2k >= n`): correct, all points, full marks iff every concept matched. Otherwise: partial, one point per match. Points never exceed the total. |
| Evaluation.ScoreMonotone | lib/evaluate.ts:164-186 | Matching more concepts never earns fewer points. |
| Evaluation.EvaluateAnswer | lib/evaluate.ts:120-197 | A dump overrides keyword matches: incorrect, 0 points, nothing matched, every label missed. Otherwise the matched and missed lists split the rubric labels by `conceptMatched`, and result and points follow the scoring rule. `pointsAvailable` is always the rubric size. |
| Evaluation.Graded | lib/evaluate.ts:146-196 | Once the answer is not a dump: the matched and missed lists split the rubric labels by `conceptMatched`, in rubric order. Incorrect iff nothing matched; correct iff something matched and `2k >= n`; the points are 0, all, or one per match accordingly and never exceed the total. |
| Evaluation.EmptyRubricIsIncorrect | lib/evaluate.ts:164-172 | An empty rubric gives incorrect with 0 of 0 points, because the zero-match test comes before the half test. |
| Passage.GroupingsCoverSectionsInOrder | lib/passage.ts:25-29 | For every difficulty the groups are non-empty and list sections 0 to 6 exactly once, in order. |
| Passage.GroupingsInBounds | lib/passage.ts:25-29 | Every section index in the groupings is below the section count of 7. |
| Passage.SectionsAt | lib/passage.ts:31-33 | `indices.map((i) => sections[i])`: one entry per index, each the indexed section. |
| Passage.MergeSections | lib/passage.ts:31-33 | No index gives the empty text, and one index gives that section unchanged. Otherwise the text opens with the first chosen section and a space. |
| Passage.MergeSectionsAppend | lib/passage.ts:31-33 | Merging two groups of indices at once equals merging each group and putting one space between the results. |
| Passage.JoinOfJoins | lib/passage.ts:31-40 | Joining the space-joined groups with spaces equals joining the flattened list. |
| Passage.GetChunks | lib/passage.ts:35-40 | Easy gives 6 chunks, medium 5, hard 4. Chunk `i` has index `i` and the merged text of group `i`. Together the chunk texts, joined with spaces, are the whole passage. |
| Shuffling.Shuffle | components/DragDropCard.tsx:6-13 | For any in-range draws, the output is a permutation of the input: same length, same multiset. `components/ReorderCard.tsx:6-13` is the same function. |
| Sentence.TokenAt | components/DragDropCard.tsx:18 | The match of `__\d+__` at a position is a whole blank token, and when it reports none, no blank token starts there. |
| Sentence.TextPiece | components/DragDropCard.tsx:18 | The text before the leftmost match contains no `__\d+__` anywhere. |
| Sentence.SplitOnBlanks | components/DragDropCard.tsx:18 | Splitting with the capture group alternates text pieces and blank tokens, starting and ending with text. Concatenating the pieces gives back the sentence. Where it cuts is stated by `Sentence.SplitIsLeftmost` and `Sentence.LeftmostIsScan`. |
| Sentence.SplitIsLeftmost | components/DragDropCard.tsx:18 | The split cuts at the leftmost matches: each text piece has no blank token starting inside it, and the blank token after it starts right where it ends. |
| Sentence.LeftmostIsScan | components/DragDropCard.tsx:18 | Conversely, any list of pieces that cuts the sentence at its leftmost matches is exactly what the split returns. |
| Sentence.LeftmostUnique | components/DragDropCard.tsx:18 | A sentence has only one split at leftmost matches. |
| Sentence.SplitTextFree | components/DragDropCard.tsx:18 | No text piece of the split, the even positions, contains `__\d+__` anywhere, because the split stops at the leftmost match. |
| Sentence.Classify | components/DragDropCard.tsx:21-24 | A piece becomes a blank exactly when it is a whole `__\d+__` token. Its number is then `parseInt` of the digits minus one, so at least -1. Any other piece becomes text holding the piece unchanged. |
| Sentence.Segments | components/DragDropCard.tsx:19-25 | After the empty pieces are dropped, there are no more segments than pieces. Each text segment is non-empty and not a blank token, and each blank number is at least -1. |
| Sentence.SegmentsOne | components/DragDropCard.tsx:20-25 | One piece: the empty piece gives no segment, any other gives its classification. |
| Sentence.SegmentsAppend | components/DragDropCard.tsx:19-25 | Filtering and mapping a concatenation of piece lists is the concatenation of the results, so together with `Sentence.SegmentsOne` the segments are the non-empty pieces, classified, in order. |
| Sentence.SegmentsTextFree | components/DragDropCard.tsx:19-25 | When every non-blank piece is free of blank tokens, so is every text segment. |
| Sentence.SegmentsAlternate | components/DragDropCard.tsx:19-25 | After dropping empty pieces, no two text segments are adjacent. |
| Sentence.RenderSegmentsConcat | components/DragDropCard.tsx:19-25 | When each piece on its own renders back to itself after the filter and map, the whole list renders back to the concatenated pieces. |
| Sentence.ParseSentence | components/DragDropCard.tsx:17-26 | Text segments are non-empty and contain no `__\d+__` anywhere. Blank numbers are at least -1, and no two text segments are adjacent. |
| Sentence.ParseSentenceLeftmost | components/DragDropCard.tsx:17-26 | The parse is the leftmost split with its empty pieces dropped and the rest classified. |
| Sentence.LeftmostMatchWins | components/DragDropCard.tsx:17-26 | `__1__2__` parses to blank 0 followed by the text `2__`: the match starting at 0 wins over the one starting at 3. |
| Sentence.ShowParseDigits | components/DragDropCard.tsx:23 | `parseInt` of a digit string without a leading zero prints back to the same string. |
| Sentence.RenderParseSentence | components/DragDropCard.tsx:17-26 | Printing each text as itself and each blank `i` as `__(i+1)__` gives back the sentence, as long as no whole `__\d+__` token found in it has a number with a leading zero. |
| Sentence.SingleBlank | components/DragDropCard.tsx:22-23 | A sentence that is one blank `__N__` parses to blank number N - 1. |
| SlotRow.InitialSlots | components/DragDropCard.tsx:40-42 | `Array(n).fill(null)`: n slots, all empty. |
| SlotRow.IndexOfEmpty | components/DragDropCard.tsx:60 | `indexOf(null)` is the first empty slot, or -1 exactly when every slot is filled. |
| SlotRow.PlacedUpdate | components/DragDropCard.tsx:62-63 | Writing one slot swaps that slot's old string for the new one among the placed strings, counted as a multiset. |
| SlotRow.PlacedOfFull | components/DragDropCard.tsx:56 | The row holds at most one string per slot. It holds one in every slot exactly when `every((p) => p !== null)`, and then the placed strings are the row's words. |
| SlotRow.InPlaced | components/DragDropCard.tsx:55 | A string is among the placed strings iff some slot holds it. |
| DragDrop.WordTap | components/DragDropCard.tsx:58-65 | On an unlocked card with an empty slot, the word goes into the first empty slot and nothing else changes. Otherwise nothing changes. |
| DragDrop.BlankTap | components/DragDropCard.tsx:67-73 | On an unlocked card, the tapped slot becomes empty and every other slot is unchanged. A locked card is unchanged. |
| DragDrop.Submit | components/DragDropCard.tsx:75-78 | Placements are handed over iff every blank is filled and the card is unlocked. They are then exactly the slot contents, in order. |
| DragDrop.UsedWords | components/DragDropCard.tsx:55 | `new Set(placements.filter(Boolean))` holds exactly the placed words other than the empty string. |
| DragDrop.WordEnabled | components/DragDropCard.tsx:121-127 | A word-bank button is enabled iff the card is unlocked and the word is empty or no slot holds it. |
| DragDrop.WordBank | components/DragDropCard.tsx:44-48 | The word bank holds every answer and every distractor, as often as given. |
| DragDrop.WordTapAddsWord | components/DragDropCard.tsx:58-65 | A word tap adds exactly that word to the placed words. |
| DragDrop.BlankTapRemovesWord | components/DragDropCard.tsx:67-73 | A tap on a filled blank takes exactly its word away. |
| DragDrop.WordTapThenBlankTap | components/DragDropCard.tsx:58-73 | Tapping the blank a word has just filled restores the previous state. |
| DragDrop.PlacedWordDisabled | components/DragDropCard.tsx:55 | Once a non-empty word is placed, its word-bank buttons are disabled (`usedWords`). |
| DragDrop.TapAllFills | components/DragDropCard.tsx:58-65 | Tapping words into empty blanks fills the blanks left to right, in tap order. |
| DragDrop.TapThenSubmit | components/DragDropCard.tsx:58-78 | On a fresh card, tapping one word per blank and submitting hands over exactly those words, in tap order. |
| DragDrop.SameWordTwice | components/DragDropCard.tsx:58-65 | The tap handler lets one word fill two blanks. Only the rendering greys used words out. |
| Reorder.Init | components/ReorderCard.tsx:26-35 | All slots start empty, one per event. The pool is a permutation of the events. |
| Reorder.RemoveAll | components/ReorderCard.tsx:44 | `filter((p) => p !== item)` removes every copy of the item and keeps everything else. |
| Reorder.PoolTap | components/ReorderCard.tsx:37-45 | On an unlocked card with an empty slot, the item goes into the first empty slot, no other slot changes, and every copy leaves the pool. Otherwise nothing changes. |
| Reorder.SlotTap | components/ReorderCard.tsx:47-55 | On an unlocked card with a truthy slot, the slot empties, its item goes to the end of the pool, and no other slot changes. An empty slot, an out-of-range index, an empty-string item or a locked card changes nothing. |
| Reorder.AllPlaced | components/ReorderCard.tsx:57 | `every((p) => p !== null)` holds iff there is no empty slot, which is iff the row holds one placed item per slot. |
| Reorder.Submit | components/ReorderCard.tsx:110 | The order is handed over iff every slot is filled (`allPlaced`) and the card is unlocked. It is then exactly the slot contents. |
| Reorder.InitConserves | components/ReorderCard.tsx:26-35 | The initial state satisfies the invariant: placed items plus pool are the events. |
| Reorder.PoolTapConserves | components/ReorderCard.tsx:37-45 | With distinct events, tapping a pool item keeps the invariant. |
| Reorder.SlotTapConserves | components/ReorderCard.tsx:47-55 | Tapping a slot keeps the invariant. |
| Reorder.SubmitIsPermutation | components/ReorderCard.tsx:110 | Under the invariant, a full row means the pool is empty. The submitted order is then a permutation of the events. |
| Reorder.RunConserves | components/ReorderCard.tsx:37-55 | With distinct events, any series of pool and slot taps keeps the invariant. |
| Reorder.RemoveAllShrinks | components/ReorderCard.tsx:44 | Filtering never lengthens the pool, and it shortens the pool when the item was in it. |
| Reorder.PoolTapHeld | components/ReorderCard.tsx:37-45 | A pool tap never increases the number of items held, counting the slots and the pool. |
| Reorder.SlotTapHeld | components/ReorderCard.tsx:47-55 | A slot tap keeps the number of items held. |
| Reorder.RunHeld | components/ReorderCard.tsx:37-55 | No series of taps increases the number of items held. |
| Reorder.NeverAllPlaced | components/ReorderCard.tsx:57 | A card that holds fewer items than slots never gets every slot filled, whatever is tapped. |
| Reorder.RemoveAllCount | components/ReorderCard.tsx:44 | Filtering shortens the pool by exactly the number of copies of the item. |
| Reorder.RepeatedEventStuck | components/ReorderCard.tsx:37-45 | Whenever the invariant holds, the pool holds two or more copies of an item and a slot is free, tapping that item breaks the invariant, and after that no series of taps fills every slot. |
| Reorder.RepeatedEventIsLost | components/ReorderCard.tsx:44 | An example of `Reorder.RepeatedEventStuck`: two slots and the pool `["a", "a"]`. One tap leaves `[a, empty]` and an empty pool, and no later taps fill the row or let the card submit. |

## Left out

- React rendering, JSX, CSS classes and hook mechanics (`useState`, `useMemo` dependency lists, stale closures) are not modelled. The handlers are pure functions of the state they read.
- `Math.random` is not modelled. The shuffle's draws are inputs. Only the permutation property is proved, not the distribution.
- Feedback wording (template strings, plural `s`, `join(", ")` of the labels) is not modelled. `Evaluation.Feedback` records only which template is chosen.
- Normalization.ToLower: lower-cases ASCII `A`–`Z` only. JavaScript `toLowerCase` also maps other Unicode letters, and a few of them (for example the Kelvin sign) become ASCII letters that the next step would keep.
- Strings are sequences of Unicode characters. JavaScript measures and indexes UTF-16 code units, so lengths and edit distances can differ for characters outside the Basic Multilingual Plane.
- Evaluation.IsChunkDump: uses exact rational comparisons for the 0.9 and 0.95 thresholds. JavaScript's double division can round differently only for word counts far beyond any real answer.
- Sentence.ParseDigits: exact for every length. `parseInt` loses precision above 2^53.
- DragDrop.BlankTap: leaves the slots unchanged for blank number -1 or for a number at or beyond the slot count. The source instead sets an array property `"-1"`, or extends the array with holes and a `null`. Blank number -1 comes from a `__0__` in the template, whatever the number of answers (components/DragDropCard.tsx:23). A number past the slots comes from a blank number above the answer count.
- Reorder.PoolTapConserves: assumes distinct events and a tapped item taken from the pool, which is all the card renders. `Reorder.RepeatedEventIsLost` shows what happens otherwise.
- Passage.GetChunks: the seven section texts are a parameter, not the honeybee text, and the model requires exactly seven, as the groupings assume. The passage is `Join(sections, " ")`, which for the source's texts is the `passage.content` string of lib/passage.ts:6.
- Sentence.Segments: its own contract states only the shape of the result. The filter-then-map meaning is in `Sentence.SegmentsOne` and `Sentence.SegmentsAppend`, and the rendering in `Sentence.RenderSegmentsConcat`. These are separate lemmas so that the many proofs that use `Segments` do not have to carry the rendering clause.
- Reorder.Run: a pool tap of an item the pool does not hold is skipped, because the card renders a button only for the items in its pool.
- The speech hooks, API routes, pages and every file not named above are not part of this model.
