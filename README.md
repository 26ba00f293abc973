# Vital-points quiz: a Dafny model

This project models the core of a flashcard quiz for memorising "vital points".
A vital point is a numbered, named body location shown on a scanned image. The core has four parts:

- **The records** of `backend/quiz/models.py`:
  - VitalPoint, LearningHistory (with its `accuracy_rate`), QuizSession, SessionQuestion and TestResult;
  - their default values and their uniqueness constraints;
  - the status and mode choices, as enumerations (`SessionStatus`, `SessionMode`).
- **The session endpoints** of `backend/quiz/views.py`:
  - `start_new_session` builds a question list. It is either the whole catalog shuffled, or the items with a positive `incorrect_count` ranked by `-incorrect_count` followed by the rest shuffled. The questions are then numbered 1..N;
  - `current_question` returns the lowest-order unanswered question with up to four shuffled choices;
  - `submit_answer` compares the answer string exactly, then updates the question and the item's learning history;
  - `pause`, `resume` and `complete` are unconditional status writes;
  - `statistics` and `weak_points` are read-only aggregations.
- **The edit-file parser** `parse_edit_file` of `convert_edited_data.py`. It is a line-by-line state machine:
  - comment headers select the current image and category;
  - comma-separated data lines add points to the current image.
- **The catalog loader** `Command.handle` of `backend/quiz/management/commands/load_vital_points.py`. It upserts every parsed point into the VitalPoint table:
  - the key is (image file, number, name);
  - the updated fields are reading and category;
  - it counts created and updated rows and never deletes one.

The modules follow the program's structure:

- `optional.dfy` (module Optional): `Option`.
- `seq_facts.dfy` (module SeqFacts): no-duplicate and multiset facts about sequences.
- `models.dfy` (module Models): the records, their defaults, `accuracy_rate`, the uniqueness constraints.
- `shuffle.dfy` (module Shuffle): `random.shuffle`, as Fisher-Yates over a `draws` parameter.
- `history_queries.dfy` (module HistoryQueries): the weak ranking, `weak_points`, `statistics`, `get_or_create` plus the counter bump.
- `selection.dfy` (module Selection): the question list of `start_new_session` and the choices of `current_question`.
- `progress.dfy` (module Progress): the first unanswered question, the answered count, and the effect of one answer.
- `quiz_views.dfy` (module QuizViews): class `QuizStore`: the tables and the session endpoints.
- `text.dfy` (module Text): Python's `strip()`, `in` on strings, `split(',')`.
- `edit_parser.dfy` (module EditParser): `parse_edit_file`.
- `loader.dfy` (module CatalogLoader): `Command.handle`.

Randomness and time are parameters:

- Each `random.shuffle` is a Fisher-Yates shuffle driven by a `draws: seq<nat>` argument. Every draw sequence gives a permutation, so the model covers every order the shuffle can produce.
- `timezone.now()` is a `now: Time` argument.

The tables are represented as follows:

- The VitalPoint table is a sequence in primary-key order (`ordering = ['id']`).
- The LearningHistory table is a sequence in primary-key order.
- The sessions are a map from primary key to session. Each session holds its questions in `question_order`.
- The parser's output dict is an insertion-ordered key list plus a map.

Where the code and the written design of the system disagree, the model follows the code:

- There is no session-size cap. Every session asks the whole catalog (`Selection.SelectItemsPermutesCatalog`).
- There is no "empty review set" failure. A session row is always created first. With no weak history, weak-points mode gives the same list as the plain mode (`Selection.WeakModeWithoutWeakHistory`).
- The weak ranking uses the raw `incorrect_count`, not an incorrect ratio.
- No operation creates or scores a TestResult.
- Nothing guards against leaving `completed`. `resume` even makes a completed session active again and keeps its `completed_at`. So the design's invariant "completed ⇔ completion time set" does not hold in the code.
- A wrong answer leaves the question unanswered, so the same question is asked again (`Progress.WrongAnswerKeepsProgress`).
- `start_new_session` never sets `mode`, so every session is in test mode (`QuizViews.StartedSessionFresh`).
- The server reads `weak_points_mode`. The web client posts `mode` instead (frontend/src/api/client.js:25), so through the shipped client the request always takes the plain shuffle branch. The model takes the flag as a Boolean parameter.

## Model

| member | source | states |
|---|---|---|
| Models.AccuracyRate | backend/quiz/models.py:40-46 | `accuracy_rate` lies in [0, 100]. It is 0 when there are no answers; otherwise it times the number of answers equals 100 times the correct count. |
| Models.Percentage | backend/quiz/views.py:37 | `part / whole * 100` lies in [0, 100] for `part <= whole`, is 0 when `whole` is 0, and times `whole` equals `100 * part` otherwise. |
| Models.DenseOrdersAreUnique | backend/quiz/models.py:109 | Questions ordered 1..N in list order satisfy `unique_together = ['session', 'question_order']`. |
| Shuffle.Swap | backend/quiz/views.py:77 | Exchanges exactly the two positions and keeps every other one. |
| Shuffle.SwapPermutes | backend/quiz/views.py:77 | An exchange keeps the multiset of elements. |
| Shuffle.Draw | backend/quiz/views.py:77 | The position drawn for a swap is below the bound, whatever the draws are. |
| Shuffle.ShuffleFromPermutes | backend/quiz/views.py:77 | The swaps at positions i down to 1 only reorder the elements. |
| Shuffle.ShuffledPermutes | backend/quiz/views.py:76-84 | For every draw sequence, `random.shuffle` gives a permutation: the same multiset and the same members. |
| Shuffle.SwapStep | backend/quiz/views.py:77 | After one in-place exchange, the remaining swaps reach the same final order. |
| Shuffle.ShuffleInPlace | backend/quiz/views.py:77 | The array shuffled in place ends as `Shuffled` of its old contents. |
| Shuffle.ShuffledCopy | backend/quiz/views.py:76-77 | `list(...)` followed by an in-place shuffle returns `Shuffled` of the input. |
| HistoryQueries.FindHistory | backend/quiz/views.py:161-163 | Finds the first row whose vital point has the given id, and finds nothing only when no row has it. |
| HistoryQueries.HistoryForMember | backend/quiz/models.py:23-28 | Under the OneToOne constraint, the lookup by a row's vital point returns that row. |
| HistoryQueries.FindHistorySameKeys | backend/quiz/views.py:161-166 | Rewriting rows without changing their keys changes no lookup. |
| HistoryQueries.FindHistoryAppend | backend/quiz/views.py:161-163 | A created row is found only for its own vital point, and only when no earlier row has it. |
| HistoryQueries.WeakOnly | backend/quiz/views.py:43-44 | The filter result is no longer than the table. |
| HistoryQueries.WeakOnlyMultiset | backend/quiz/views.py:43-44 | `filter(incorrect_count__gt=0)` keeps each weak row with its multiplicity and drops every other row. |
| HistoryQueries.InsertByIncorrectMultiset | backend/quiz/views.py:43-45 | Inserting into the ranking adds exactly that row. |
| HistoryQueries.InsertByIncorrectMembers | backend/quiz/views.py:43-45 | After an insertion, every row is the inserted row or an old one. |
| HistoryQueries.InsertByIncorrectSorted | backend/quiz/views.py:43-45 | Insertion keeps the non-increasing `incorrect_count` order. |
| HistoryQueries.InsertByIncorrectCorrect | backend/quiz/views.py:43-45 | Insertion keeps the order and adds exactly one row. |
| HistoryQueries.SortByIncorrectDescCorrect | backend/quiz/views.py:43-45 | `order_by('-incorrect_count')` gives a non-increasing order and a permutation. |
| HistoryQueries.WeakRankingProperties | backend/quiz/views.py:67-69 | The ranking holds exactly the weak rows with their multiplicities, in non-increasing `incorrect_count` order. It keeps the OneToOne constraint. |
| HistoryQueries.WeakRankingMembers | backend/quiz/views.py:67-69 | A row is in the ranking if and only if it is a weak row of the table. |
| HistoryQueries.WeakRankingSorted | backend/quiz/views.py:67-69 | The ranking is ordered by non-increasing `incorrect_count`. |
| HistoryQueries.WeakRankingOnePerPoint | backend/quiz/models.py:23-28 | The ranking has at most one row per vital point when the table has. |
| HistoryQueries.WeakPoints | backend/quiz/views.py:45 | `weak_points` returns at most 10 rows. |
| HistoryQueries.WeakPointsProperties | backend/quiz/views.py:41-48 | `weak_points` returns at most 10 weak rows of the table in non-increasing `incorrect_count` order. Any weak row it leaves out comes after ten rows with at least its count. |
| HistoryQueries.ComputeStatistics | backend/quiz/views.py:25-38 | `statistics`: the totals are the sums over all rows, and attempts equal correct plus incorrect. Accuracy is 0 with no attempts, else the percentage correct. |
| HistoryQueries.TotalsUpdate | backend/quiz/views.py:29-30 | Rewriting one row changes each total by the difference of that row's counts. |
| HistoryQueries.TotalsAppend | backend/quiz/views.py:29-30 | Creating a row adds its counts to the totals. |
| HistoryQueries.FirstAttemptRow | backend/quiz/models.py:29-31 | The first answer about a vital point creates its history with zero counts and no learning time, then bumps one count. The row has exactly one attempt of the given kind, stamped `now`. |
| HistoryQueries.RecordAttemptExisting | backend/quiz/views.py:161-183 | With an existing history, that row is rewritten in place and no lookup changes. |
| HistoryQueries.OnePerPointKeys | backend/quiz/models.py:23-28 | Under the OneToOne constraint, different positions hold different vital points. |
| HistoryQueries.KeysOnePerPoint | backend/quiz/models.py:23-28 | Pairwise different vital points give the OneToOne constraint. |
| HistoryQueries.ReplaceKeepsOnePerPoint | backend/quiz/models.py:23-28 | Rewriting a row with the same key keeps the OneToOne constraint. |
| HistoryQueries.AppendKeepsOnePerPoint | backend/quiz/models.py:23-28 | Creating a row for a vital point without one keeps the OneToOne constraint. |
| HistoryQueries.RecordAttemptEffect | backend/quiz/views.py:161-183 | An answer bumps exactly one counter of the item's history, creating the history first if needed, and stamps it with `now`. Every other item's history is kept. The matching total grows by one and the OneToOne constraint is kept. |
| HistoryQueries.HistoryForIsRow | backend/quiz/views.py:161-163 | A found history is a row of the table with the requested vital point. |
| HistoryQueries.AttemptRowPoint | backend/quiz/views.py:161-163 | The row written belongs to the answered item. |
| HistoryQueries.RecordAttemptCounts | backend/quiz/views.py:161-183 | Counts never decrease. `correct_count + incorrect_count` grows by exactly 1 for the answered item and by 0 for every other. The answered item's correct count grows by one exactly on a correct answer. |
| Selection.VitalPointsOf | backend/quiz/views.py:72 | `[h.vital_point for h in histories]` keeps the length and the order. |
| Selection.ExcludeIds | backend/quiz/views.py:76 | `exclude(id__in=...)` is no longer than the catalog. |
| Selection.KeepIds | backend/quiz/views.py:76 | The complementary filter is no longer than the catalog. |
| Selection.SplitByIds | backend/quiz/views.py:75-76 | Keeping and excluding the same ids together give back the catalog as a multiset. |
| Selection.ExcludeIdsMembers | backend/quiz/views.py:76 | An item survives `exclude(id__in=ids)` if and only if it is in the catalog with an id outside `ids`. |
| Selection.KeepIdsMembers | backend/quiz/views.py:75-76 | An item is kept if and only if it is in the catalog with an id in `ids`. |
| Selection.ExcludeNothing | backend/quiz/views.py:76 | Excluding no id leaves the catalog unchanged. |
| Selection.WeakItemsDistinct | backend/quiz/views.py:67-72 | The weak items are catalog items with pairwise different ids and no repeats. |
| Selection.WeakItemsHistories | backend/quiz/views.py:67-72 | The history of each weak item is the ranking row it came from, and has a positive `incorrect_count`. |
| Selection.WeakItemsExactly | backend/quiz/views.py:67-76 | A catalog item is a weak item if and only if its id is a weak id, if and only if its `incorrect_count` is positive. |
| Selection.SelectItemsPermutesCatalog | backend/quiz/views.py:62-84 | In either mode, the session's items are a permutation of the catalog: each item exactly once. |
| Selection.SelectItemsInCatalog | backend/quiz/views.py:62-84 | Every session item is a catalog item, and there are as many items as catalog rows. |
| Selection.WeakModeOrder | backend/quiz/views.py:65-80 | In weak-points mode, the prefix is exactly the items with positive `incorrect_count`, in non-increasing order. Every later item has no history or a count of 0. |
| Selection.WeakModeWithoutWeakHistory | backend/quiz/views.py:65-84 | With no weak history, weak-points mode gives the same list as the plain shuffle, so it never fails. |
| Selection.NumberQuestions | backend/quiz/views.py:87-92 | `enumerate(..., start=1)` makes one new question per item, with order k+1 and consecutive ids. |
| Selection.NumberQuestionsProperties | backend/quiz/views.py:87-92 | The numbered questions carry the items in order, with orders 1..N that are unique and distinct ids. None is answered, correct or attempted. |
| Selection.OtherPoints | backend/quiz/views.py:113 | The distractor pool is no longer than the catalog. |
| Selection.OtherPointsProperties | backend/quiz/views.py:113 | The pool is a sub-multiset of the catalog. It holds exactly the items that differ from the correct one in both id and name. |
| Selection.Distractors | backend/quiz/views.py:114-115 | `other_points[:3]` after the shuffle has `min(3, pool size)` entries. |
| Selection.DistractorsProperties | backend/quiz/views.py:113-115 | The distractors are distinct catalog items that differ from the correct item in id and in name. |
| Selection.ChoiceListProperties | backend/quiz/views.py:111-118 | The choices are a permutation of the correct item and `min(3, pool size)` distractors, so at most 4. The correct item occurs exactly once, nothing repeats, and only the correct item carries the correct name. |
| Selection.DistinctAfterCons | backend/quiz/views.py:117 | Putting the correct item in front of distractors that do not hold it gives a repeat-free list. |
| Progress.FirstUnanswered | backend/quiz/views.py:103-105 | Returns an unanswered question with the smallest order, or nothing exactly when every question is answered. |
| Progress.CountAnswered | backend/quiz/views.py:127 | The answered count is at most the total. It equals the total if and only if all questions are answered, and is 0 if and only if none is. |
| Progress.AllAnsweredIffCountComplete | backend/quiz/views.py:103-127 | The "all answered" message is given exactly when the answered count equals the total. |
| Progress.FindQuestion | backend/quiz/views.py:140-146 | `questions.get(id=...)` finds a question with that id, and finds nothing exactly when the session has none. |
| Progress.AnswerQuestion | backend/quiz/views.py:149-175 | `attempt_count` always grows by 1. A correct answer sets answered and correct; a wrong one keeps both flags. Id, item and order are kept. |
| Progress.ProgressDependsOnFlags | backend/quiz/views.py:103-127 | The current question and the answered count depend only on the answered flags and the orders. |
| Progress.WrongAnswerKeepsProgress | backend/quiz/views.py:173-175 | After a wrong answer, the same question stays current and the answered count does not move. |
| Progress.CorrectAnswerCounts | backend/quiz/views.py:154-158 | A correct answer adds one to the answered count unless the question was already answered. |
| Progress.CorrectAnswerAdvances | backend/quiz/views.py:154-158 | With unique orders, a correct answer to the current question moves on to a larger order or finishes the session. |
| QuizViews.SessionItems | backend/quiz/views.py:63-84 | The list built with in-place shuffles equals `SelectItems` of the catalog, the histories, the mode flag and the draws. |
| QuizViews.CreateQuestions | backend/quiz/views.py:87-92 | The creation loop produces `NumberQuestions` of the items. |
| QuizViews.NewQuestionsValid | backend/quiz/views.py:87-92 | The new questions have one per catalog item, orders 1..N, catalog items and allocated distinct ids. |
| QuizViews.AddSessionKeepsValid | backend/quiz/views.py:60 | Storing a valid session under the next key keeps the session table valid. |
| QuizViews.CreateSession | backend/quiz/views.py:57-92 | The table writes of `start_new_session`: the started session stored under a fresh key, consecutive question ids used, and all table constraints kept. |
| QuizViews.StartedSessionFresh | backend/quiz/models.py:62-76 | A new session is active, in test mode, has no completion time and index 0, and is stamped `now`. Its questions are the selected items in order with orders 1..N, none answered, correct or attempted. |
| QuizViews.StartedSessionKeepsValid | backend/quiz/views.py:57-92 | Adding the started session keeps every table constraint. |
| QuizViews.UpdateSessionKeepsValid | backend/quiz/views.py:152-175 | Rewriting a stored session with valid questions keeps the session table valid. |
| QuizViews.AnswerKeepsQuestionsValid | backend/quiz/views.py:152-158 | Answering keeps the ids, items and orders, so the questions stay valid. |
| QuizViews.RecordAttemptKeepsHistoriesOver | backend/quiz/views.py:161-183 | Recording an answer about a catalog item keeps one history per item, all on catalog items. |
| QuizViews.SubmitKeepsValid | backend/quiz/views.py:140-189 | The writes of a successful `submit_answer` keep every table constraint. |
| QuizViews.StatusWriteKeepsValid | backend/quiz/views.py:192-214 | A status and completion-time write keeps every table constraint. |
| QuizViews.CurrentQuestionProperties | backend/quiz/views.py:98-128 | "All answered" is returned exactly when no question is left. Otherwise the result is an unanswered question of smallest order, with its image and number, at most four choices with the correct item once and alone in its name, and an answered count below the total. |
| QuizViews.QuizStore.StartNewSession | backend/quiz/views.py:57-95 | A new session under the next key holds `StartedSession`'s questions and consumes one question id per catalog item. Histories and TestResults are unchanged and the constraints are kept. |
| QuizViews.QuizStore.CurrentQuestion | backend/quiz/views.py:98-128 | An unknown session gives not-found. Otherwise the response, built with both shuffles, is `CurrentQuestionOf` the session's questions. Nothing is written. |
| QuizViews.QuizStore.SubmitAnswer | backend/quiz/views.py:131-189 | An unknown session or question gives not-found and changes nothing. Otherwise correctness is exact string equality with the item name. The question is answered as `AnswerAt` says and the history is updated as `RecordAttempt` says. The response carries the correct name either way. |
| QuizViews.QuizStore.Pause | backend/quiz/views.py:192-197 | An unknown session gives not-found and changes nothing. Otherwise the status becomes paused whatever it was, and nothing else changes. |
| QuizViews.QuizStore.Resume | backend/quiz/views.py:200-205 | An unknown session gives not-found and changes nothing. Otherwise the status becomes active whatever it was, even from completed. `completed_at` is kept and nothing else changes. |
| QuizViews.QuizStore.Complete | backend/quiz/views.py:208-214 | An unknown session gives not-found and changes nothing. Otherwise the status becomes completed and `completed_at` becomes `now`, whatever the status was. No TestResult is written and nothing else changes. |
| Text.LeadingSpaces | convert_edited_data.py:21 | The count of leading whitespace stops at the first non-whitespace character. |
| Text.TrailingSpaces | convert_edited_data.py:21 | The count of trailing whitespace stops at the last non-whitespace character. |
| Text.Strip | convert_edited_data.py:21 | `strip()` gives a string that neither starts nor ends with whitespace and is no longer than the input. |
| Text.StripSpec | convert_edited_data.py:21 | `strip()` removes only whitespace, and only at both ends: the result is the infix that starts at the first non-whitespace character. |
| Text.StripStripped | convert_edited_data.py:60-62 | Stripping an already stripped string gives it back. |
| Text.StripLeadingSpace | convert_edited_data.py:60-62 | For a stripped, non-empty field, `strip()` removes just the space in front of it. |
| Text.StripIdempotent | convert_edited_data.py:60-62 | Stripping twice is stripping once. |
| Text.ContainsSpec | convert_edited_data.py:35-44 | `t in s` holds exactly when `t` occurs in `s` at some index. |
| Text.Split | convert_edited_data.py:58 | `split(',')` gives at least one part, and no part contains the separator. |
| Text.SplitSpec | convert_edited_data.py:58 | Joining the parts with the separator gives the line back. There are two or more parts exactly when the separator occurs. |
| Text.SplitJoin | convert_edited_data.py:58 | `split` undoes `join` when no part contains the separator. |
| EditParser.PutEntry | convert_edited_data.py:30-33 | Assigning `d[key]` sets that entry. A key already present keeps its place in the insertion order. |
| EditParser.PutEntryKeepsValid | convert_edited_data.py:30-33 | The key order keeps listing every key of the dict exactly once. |
| EditParser.Items | backend/quiz/management/commands/load_vital_points.py:19 | `items()` has one pair per key of the dict and no key twice. Each key is paired with its own entry, in insertion order. |
| EditParser.LineEnd | convert_edited_data.py:27 | The first newline at or after a position. The regex's `.` cannot cross it. |
| EditParser.LastPng | convert_edited_data.py:27 | Finds the last `.png` within the bounds, or reports that there is none there. |
| EditParser.MatchEndAt | convert_edited_data.py:27 | At a position, finds a match of `Scan.*\.png` that ends as late as possible, or reports that no match starts there. |
| EditParser.SearchFrom | convert_edited_data.py:27 | Finds the leftmost match at or after a position, extended greedily, or reports that none exists. |
| EditParser.ScanSearchSpec | convert_edited_data.py:27-29 | `re.search(r'(Scan.*\.png)')` finds nothing exactly when the line holds no match. Otherwise no match starts earlier and none from that start ends later. |
| EditParser.ScanSearchShape | convert_edited_data.py:27-29 | A found image name starts with `Scan` and ends with `.png`, so it has at least eight characters. |
| EditParser.CategoryOf | convert_edited_data.py:35-44 | The first keyword test that holds decides the category, in the order `頭部`, `上肢`, `胴部`, `下肢` with `前面`, then `下肢` with `後面`. Each keyword maps to its own category name. There is none exactly when no test holds. |
| EditParser.SectionOf | convert_edited_data.py:50-53 | A section found is `内側` or `外側`. |
| EditParser.LinePoint | convert_edited_data.py:57-65 | A point read from a data line has a non-empty name and reading, and every field is stripped and comma-free. |
| EditParser.ClassifiedAt | convert_edited_data.py:20-21 | The k-th classified line is the classification of the k-th line. |
| EditParser.HeaderStep | convert_edited_data.py:26-47 | A header step keeps the current image backed by an entry. |
| EditParser.CommentStep | convert_edited_data.py:24-54 | A comment step keeps the current image backed by an entry. |
| EditParser.DataStep | convert_edited_data.py:57-70 | A data step keeps the current image backed by an entry. |
| EditParser.ParseEditFile | convert_edited_data.py:12-72 | The dict filled in place by the loop equals the data of `ParseLines`, the state after all lines. |
| EditParser.HeaderKeepsDataValid | convert_edited_data.py:26-47 | A header line keeps every key in the dict order exactly once. |
| EditParser.StepKeepsDataValid | convert_edited_data.py:20-70 | Any line keeps every key in the dict order exactly once. |
| EditParser.ParsedDataValid | convert_edited_data.py:12-72 | The returned dict lists each image exactly once, in first-header order. |
| EditParser.HeaderKeepsClean | convert_edited_data.py:26-47 | Header lines keep every stored point clean. |
| EditParser.StepKeepsClean | convert_edited_data.py:20-70 | A step keeps every stored point clean when the line's point is clean. |
| EditParser.ParsedPointsClean | convert_edited_data.py:60-70 | Every stored point has a non-empty stripped name and reading and comma-free fields. |
| EditParser.NoImageNoData | convert_edited_data.py:57 | Until a line names an image, the dict stays empty: earlier data lines are ignored. |
| EditParser.IgnoredDataLine | convert_edited_data.py:57-65 | A data line that yields no point leaves the whole state as it was. |
| EditParser.ShortLineYieldsNothing | convert_edited_data.py:57-59 | A line without a comma, or with fewer than three comma fields, yields no point. |
| EditParser.LinePointOfFields | convert_edited_data.py:58-65 | A line of comma-free fields, three or more, reads as its first three fields, each stripped. It gives no point exactly when the stripped name or the stripped reading is blank. |
| EditParser.SpacedLineExample | convert_edited_data.py:58-66 | The line `1, 百会, ひゃくえ` reads as number `1`, name `百会` and reading `ひゃくえ`. |
| EditParser.CleanFieldsYieldPoint | convert_edited_data.py:58-66 | A line whose first three fields are stripped, with name and reading non-empty, yields exactly those fields. |
| EditParser.FieldsRoundTrip | convert_edited_data.py:58-62 | Only the first three fields are used. Clean fields joined with commas read back as number, name and reading, whatever follows. |
| EditParser.DataLineEffect | convert_edited_data.py:57-70 | A data line with a current image appends its point to that image's list. No other entry, the key order, the image and the category change. |
| EditParser.ImageHeaderEffect | convert_edited_data.py:26-47 | An image header makes that image current. Its entry is reset: no points, and the line's category, else the current one, else empty. A repeated header drops earlier points but keeps the dict position. |
| EditParser.CategoryOnlyHeaderEffect | convert_edited_data.py:26-47 | A header that names no image keeps the current image. The category carries over unless the line names one. Only the current image's category is rewritten. |
| EditParser.PlainCommentEffect | convert_edited_data.py:49-54 | A comment line that is not a header changes only the section. |
| EditParser.CategoryOnlyOnHeaders | convert_edited_data.py:26-47 | The current category and image change only on header lines. |
| EditParser.CommentLineAddsNoPoints | convert_edited_data.py:24-54 | Empty and `#` lines never add a point. Each list is kept or reset to empty. |
| EditParser.HeaderAddsNoPoints | convert_edited_data.py:26-47 | A header step never adds a point. |
| EditParser.StepIgnoresSection | convert_edited_data.py:49-53 | The section never influences a step, so `[内側]`/`[外側]` markers never reach the output. |
| EditParser.ParseLinesSplit | convert_edited_data.py:20 | Reading `before` and then `after` is reading `before + after`. |
| EditParser.PointsOf | convert_edited_data.py:57-70 | The data lines yield no more points than there are lines. |
| EditParser.ExtendsImageTrans | convert_edited_data.py:66 | Extending an image's list twice is extending it by the concatenation. |
| EditParser.StepAppends | convert_edited_data.py:20-70 | A line that names no image extends the current list by that line's point. |
| EditParser.AppendFrom | convert_edited_data.py:20-70 | Lines that name no image only extend the current image's list, by their points in order. |
| EditParser.AppendInFileOrder | convert_edited_data.py:66 | While no line names a new image, the current list grows by exactly the points read, in file order. No other entry and no key order changes. |
| CatalogLoader.ImageRows | backend/quiz/management/commands/load_vital_points.py:20-30 | There is one input row per point of an image. |
| CatalogLoader.InputRowsCount | backend/quiz/management/commands/load_vital_points.py:19-21 | The two loops visit as many rows as there are points over all images. |
| CatalogLoader.FindKey | backend/quiz/management/commands/load_vital_points.py:23-26 | The lookup of `update_or_create` finds a row with the key, or none exactly when no row has it. |
| CatalogLoader.Upsert | backend/quiz/management/commands/load_vital_points.py:23-35 | One `update_or_create` adds exactly one to `created_count + updated_count`. |
| CatalogLoader.ApplyRows | backend/quiz/management/commands/load_vital_points.py:19-35 | The counters grow by exactly the number of rows upserted. |
| CatalogLoader.ApplyRowsSnoc | backend/quiz/management/commands/load_vital_points.py:21-35 | One more point is one more upsert. |
| CatalogLoader.ApplyRowsAppend | backend/quiz/management/commands/load_vital_points.py:19-21 | Upserting one image after another is upserting their concatenation. |
| CatalogLoader.LoadImage | backend/quiz/management/commands/load_vital_points.py:20-35 | The inner loop over an image's points, with its in-place updates and counters, equals `ApplyRows` over that image's rows. |
| CatalogLoader.Handle | backend/quiz/management/commands/load_vital_points.py:16-35 | Both loops, starting from zero counters, equal `ApplyRows` over all input rows. |
| CatalogLoader.LastForSnoc | backend/quiz/management/commands/load_vital_points.py:21-31 | The last row for a key is the newest row if it has the key, else the last earlier one. |
| CatalogLoader.RowKeysSnoc | backend/quiz/management/commands/load_vital_points.py:21-26 | One more row adds its key to the input keys. |
| CatalogLoader.LastForFound | backend/quiz/management/commands/load_vital_points.py:23-31 | There is a last row for a key exactly when the input names that key. |
| CatalogLoader.LoadedStart | backend/quiz/management/commands/load_vital_points.py:16-19 | Before any row, the loader invariant holds. |
| CatalogLoader.UpdateKeepsKeys | backend/quiz/management/commands/load_vital_points.py:27-30 | Updating reading and category keeps every key, so keys stay unique. |
| CatalogLoader.AppendKeys | backend/quiz/management/commands/load_vital_points.py:23-31 | Creating a row adds its key. A new key keeps keys unique. |
| CatalogLoader.UpdateSettlesOld | backend/quiz/management/commands/load_vital_points.py:23-31 | After an update, every old row carries the values of the last input row with its key. |
| CatalogLoader.UpdateSettlesNew | backend/quiz/management/commands/load_vital_points.py:23-31 | After an update, every created row keeps its id and carries the last input values for its key. |
| CatalogLoader.LoadedUpdate | backend/quiz/management/commands/load_vital_points.py:23-35 | An update keeps the loader invariant. |
| CatalogLoader.CreateSettlesOld | backend/quiz/management/commands/load_vital_points.py:23-31 | A creation leaves every old row settled. |
| CatalogLoader.CreateSettlesNew | backend/quiz/management/commands/load_vital_points.py:23-31 | A creation gives the new row the next id in turn and the row's values. |
| CatalogLoader.CreateCounts | backend/quiz/management/commands/load_vital_points.py:32-33 | A row created for an absent key adds one new key, matching the increment of `created_count`. |
| CatalogLoader.LoadedCreate | backend/quiz/management/commands/load_vital_points.py:23-35 | A creation keeps the loader invariant. |
| CatalogLoader.LoadedStep | backend/quiz/management/commands/load_vital_points.py:23-35 | One upsert keeps the loader invariant, whichever way it goes. |
| CatalogLoader.LoadedRun | backend/quiz/management/commands/load_vital_points.py:19-35 | After any input, the invariant holds. Keys stay unique. Old rows stay in place and carry the last input values for their keys. Created rows take the next ids and carry the last values. The keys are the old ones plus the input's. One row is created per new key. |
| CatalogLoader.CountsMatchInput | backend/quiz/management/commands/load_vital_points.py:19-35 | `created_count + updated_count` equals the number of points over all images. |
| CatalogLoader.LastValueWins | backend/quiz/management/commands/load_vital_points.py:23-31 | After the run, each input key is held by exactly one row, which carries the reading and category of the last input row with that key. |
| CatalogLoader.NothingDeleted | backend/quiz/management/commands/load_vital_points.py:19-31 | No row is deleted. Old rows keep their position, id and key, and a row whose key is not in the input is unchanged. |
| CatalogLoader.CreatedCountsNewKeys | backend/quiz/management/commands/load_vital_points.py:23-35 | `created_count` is the number of distinct input keys the table lacked. One row and one id are used for each, and each created row holds such a key. |
| CatalogLoader.LoadedIdsDistinct | backend/quiz/management/commands/load_vital_points.py:23-31 | No two rows of the loaded table share a primary key. |
| CatalogLoader.IdsDistinctCatalog | backend/quiz/models.py:4-18 | Rows with pairwise different ids form a valid catalog. |
| CatalogLoader.LoadedCatalogValid | backend/quiz/management/commands/load_vital_points.py:19-35 | The loaded table is a valid catalog: no repeated row, and no two rows with one id. |
| CatalogLoader.SettledIsFixpoint | backend/quiz/management/commands/load_vital_points.py:23-35 | A table holding every input key, with every row carrying its last input values, is left as it is by the loader, and every point counts as updated. |
| CatalogLoader.Updated2 | backend/quiz/management/commands/load_vital_points.py:27-30 | Writing the same defaults twice is writing them once. |
| CatalogLoader.RerunIsStable | backend/quiz/management/commands/load_vital_points.py:23-35 | Running the loader again on the same input creates nothing. The table and the next id stay as the first run left them, and every point counts as updated. |

## Left out

- I/O is not modelled:
  - HTTP request parsing, responses and status codes are outside the model;
  - `get_object()` becomes the lookup of the session id in the session map;
  - DRF serializers are outside the model. `AnswerSubmitSerializer` requires both fields, trims `selected_answer` and rejects a blank value; the model compares the given string exactly;
  - the unused `session_id` field of that serializer is not modelled.
- Django ORM machinery is not modelled: query laziness, transactions, and the atomicity of `get_or_create` and `update_or_create` under concurrent requests. Every operation is one sequential step.
- `max_length` limits of the CharFields are not checked.
- `random.shuffle` is not modelled as uniform: the model covers every order the shuffle can produce, but not how likely each one is.
- `accuracy_rate` and the statistics percentage are exact reals rather than floating point.
- `order_by('-incorrect_count')` leaves ties in an unspecified database order. The model keeps the table's primary-key order among equal counts.
- `weak_points_mode` is taken as a Boolean. Python truthiness of other JSON values is not modelled.
- `start_new_session` creates each SessionQuestion row as it loops. The model stores the session with all its questions at once.
- TestResult: the record and its one-per-session constraint are declared, but no code creates or scores one, so no operation writes it.
- `parse_edit_file` opens and reads the file itself. The model takes the list of lines instead, as `readlines()` would return them; a trailing newline is removed by `strip()` either way.
- The JSON file between parser and loader is not modelled. The loader takes the parsed dict's `items()` directly.
- `save_to_json`, `print_summary` and `main` of `convert_edited_data.py`, and the loader's hard-coded path and `self.stdout` message, are not modelled.
- Ids, counters, orders and `question_id` are unbounded `nat`s. Database integer columns are bounded, and a negative `question_id` accepted by the serializer would find no question, which ends as not-found like any unknown id.
- CatalogLoader.FindKey: if the table held two rows with one key, `update_or_create` would raise `MultipleObjectsReturned`; the model updates the first such row. Every lemma that matters starts from a table with unique keys, and the loader keeps keys unique.
- The VitalPoint table is a sequence in primary-key order. An auto-increment counter supplies new ids, never below an existing one.
- CatalogLoader.LoadImage and CatalogLoader.Handle: the model uses value sequences for the table, so it does not model aliasing of ORM instances.
