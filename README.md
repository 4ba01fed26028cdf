# NEET PG Prep: a verified model of the exam engine

The app is an offline mock-exam trainer. A bundled JSON bank holds tests of multiple-choice
questions. The home screen lists and searches the tests and gives each one a subject. A test
runs in timed or practice mode: the clock counts down, answers are locked according to the
mode, and questions can be marked for review. Submission scores +4 / -1 / 0 per question and
saves the result in a capped local history. The results screen filters the questions into
all / correct / incorrect / unanswered for review. An offline converter turns the exported
HTML pages into the JSON bank: it decodes HTML entities, cleans explanations and numbers
the questions.

This project models that logic in Dafny and proves what each part promises. There is one
module per source file:

- `Wrappers`, `Seqs`, `Text`: option type, order-preserving filter, and ASCII lowercasing,
  trimming, substring search and decimal digits.
- `QuestionBank` (lib/question-data.ts): the bank records and the three queries.
- `History` (lib/storage.ts): the store is one cell of type `Option<seq<TestResult>>`, and
  `HistoryStore` is a class over it.
- `Quiz` (app/quiz.tsx): `Session` is a class with the screen's state fields. It has
  handler methods, the scoring loop, the countdown and the clock text.
- `Review` (app/results.tsx): the review filters, the grid colours, prev/next stepping and
  the elapsed-time label.
- `Catalog` (app/index.tsx): the subject classifier, icon and colour, the home filter and
  the header total.
- `Content` (scripts/parse-questions.js): global replace over the patterns the converter
  uses, the entity decoder, the explanation cleaner, record building and the extraction
  loop.

Environment effects are parameters:

- Storage reads, writes and removals take `readOk` / `writeOk` / `removeOk` flags, which
  say whether the call succeeds.
- The Submit dialog's outcome is a `confirm` flag.
- Result ids and dates are strings passed in.

A slot is `Unanswered` or `Answered(k)`. The index `k` is not bounds-checked, as in the
source.

## Model

| member | source | states |
|---|---|---|
| `Quiz.Session.constructor` | app/quiz.tsx:33-39 | a fresh attempt starts at question 0, unsubmitted, with every answer empty, every mark off, both lists one per question, and `(duration or 210) * 60` seconds on the clock |
| `Quiz.DurationMinutes` | app/quiz.tsx:39 | the duration is the test's own when that is non-zero and the default 210 minutes when it is zero |
| `Quiz.Session.SelectAnswer` | app/quiz.tsx:97-109 | the answers become `Select(...)` of the old answers; position, marks, submission flag and clock are unchanged |
| `Quiz.Select` | app/quiz.tsx:97-104 | only the current slot can change; it is untouched when locked (timed and submitted, or practice and already answered), and otherwise it becomes the chosen option |
| `Quiz.PracticeFirstChoiceSticks` | app/quiz.tsx:99 | in practice mode, after any run of clicks, an empty slot holds the first click and an answered slot keeps its answer |
| `Quiz.TimedLastChoiceWins` | app/quiz.tsx:102-104 | before submission, in timed mode, the last of any run of clicks is the answer |
| `Quiz.SubmittedTimedIgnoresClicks` | app/quiz.tsx:98 | after submission, in timed mode, no run of clicks changes any answer |
| `Quiz.Session.GoToQuestion` | app/quiz.tsx:111-115 | jumping to an existing question sets the position and changes nothing else |
| `Quiz.Session.GoNext` | app/quiz.tsx:117-122 | moves one on unless at the last question; the position stays a valid index and nothing else changes |
| `Quiz.Session.GoPrev` | app/quiz.tsx:124-129 | moves one back unless at the first question; nothing else changes |
| `Quiz.NextTimesClamps` | app/quiz.tsx:117-122 | pressing Next `k` times from `i` lands on `min(i + k, n - 1)` |
| `Quiz.Session.ToggleMark` | app/quiz.tsx:131-136 | flips exactly the current question's mark, also after submission; answers and all other marks are unchanged |
| `Quiz.Classify` | app/quiz.tsx:162-169 | no contract of its own; `Review.ShowsIsVerdict` and `Quiz.CountAnswers` state it: an empty slot is unanswered, a chosen option that exists and is marked correct is correct, anything else (also an option index past the end) is incorrect |
| `Quiz.CountAnswers` | app/quiz.tsx:158-170 | the loop's three counters equal the tally of the scoring pass over all questions |
| `Quiz.TallyTotal` | app/quiz.tsx:162-170 | every slot is counted exactly once: correct + incorrect + unanswered is the number of questions |
| `Quiz.UnansweredCountAgrees` | app/quiz.tsx:140 | the number in the submit warning is the scoring pass's unanswered count |
| `Quiz.Summarize` | app/quiz.tsx:172-190 | requires one slot per question and has no ensures of its own; `Quiz.ResultBounds` states the fields of the result and `Quiz.FiveQuestionExample` an instance |
| `Quiz.ResultBounds` | app/quiz.tsx:172-190 | for a saved result: the counts cover n, score = 4*correct - incorrect, total = 4n, -n <= score <= total, 0 <= percentage <= 100 with 100 exactly when all are right, and 0 <= timeSpent <= the full duration |
| `Quiz.PercentageBounds` | app/quiz.tsx:174 | the percentage of c out of n > 0 lies in [0, 100] and is 100 exactly when c = n |
| `Quiz.FiveQuestionExample` | app/quiz.tsx:172-175 | two right, one wrong and two skipped out of five give score 7, total 20, percentage 40 |
| `Quiz.Session.Finalize` | app/quiz.tsx:154-192 | marks the session submitted, returns the scored result of the current answers and clock, and saves it: the history cell becomes `AfterSave` of the old cell; position, answers, marks and clock are unchanged |
| `Quiz.Session.Submit` | app/quiz.tsx:138-148 | the warning carries the number of empty slots; cancelling changes neither the session nor the history and returns no result; confirming submits, returns the result scored on the current answers and current clock, and saves it |
| `Quiz.Session.Tick` | app/quiz.tsx:46-61 | a practice or submitted session does not tick; otherwise the clock goes to `TickValue` of the old value, and the session submits with the current answers and 0 seconds exactly when the old value was at most 1; the history changes exactly when a result is returned, by saving it |
| `Quiz.TickValue` | app/quiz.tsx:49-56 | no contract of its own; `Quiz.CountdownValue` and `Quiz.ExpiresOnTick` state it: one second less, and 0 once the old value is at most 1 |
| `Quiz.CountdownValue` | app/quiz.tsx:49-56 | after `k` ticks from `t` the clock shows `t - k`, and 0 once `k >= t`; it never goes negative |
| `Quiz.ExpiresOnTick` | app/quiz.tsx:50-53 | the tick that submits is exactly the `t`-th one |
| `Quiz.AsWrittenManualSubmit` | app/quiz.tsx:138-152 | requires one slot per question and has no ensures of its own; `Quiz.ManualSubmitLosesTime` and `Quiz.ManualSubmitExample` state how it differs from the corrected submission |
| `Quiz.ManualSubmitLosesTime` | app/quiz.tsx:138-152 | the confirmed Submit as written differs from the corrected one only in the time spent, which is short by every second since the last accepted click, and is 0 when nothing was clicked |
| `Quiz.ManualSubmitExample` | app/quiz.tsx:175 | answering at minute 1 and submitting at minute 200 of a 210-minute test records 60 seconds as written, against 12000 corrected |
| `Quiz.AsWrittenAutoSubmit` | app/quiz.tsx:46-61 | no contract of its own; `Quiz.AutoSubmitLosesAnswers` states it: the first render's all-empty answers and full clock are scored |
| `Quiz.AutoSubmitLosesAnswers` | app/quiz.tsx:46-61 | the timer's auto-submission as written reports no correct answers, all unanswered and no time spent, while the current answers have a right one and the full duration was spent |
| `Quiz.ClockText` | app/quiz.tsx:71-77 | no contract of its own; `Quiz.ClockTextRoundTrip` and `Quiz.ClockFieldCount` state it: the text reads back to the seconds, with an hour field exactly when there is a whole hour |
| `Quiz.ClockFields` | app/quiz.tsx:72-74 | hours*3600 + minutes*60 + seconds is the input, with minutes and seconds below 60 |
| `Quiz.ClockTextRoundTrip` | app/quiz.tsx:71-77 | reading the clock text back gives the seconds shown |
| `Quiz.ClockFieldCount` | app/quiz.tsx:75-76 | the text has an hour field (two colons) exactly when there is a whole hour, otherwise one colon |
| `Review.FilteredIndices` | app/results.tsx:40-49 | no contract of its own; `Review.AllIsEveryIndex`, `Review.FilteredMembership` and `Review.FilterSizesMatchScoring` state it: the listed indices, their order and how many there are |
| `Review.AllIsEveryIndex` | app/results.tsx:41-43 | the "all" filter lists exactly 0, 1, ..., n-1 |
| `Review.FilteredMembership` | app/results.tsx:40-49 | an index is listed exactly when the filter's test holds of it, and every list is strictly increasing |
| `Review.ShowsIsVerdict` | app/results.tsx:44-46 | the correct / incorrect / unanswered tests are exactly the scoring pass's three verdicts |
| `Review.FiltersPartition` | app/results.tsx:44-46 | each index is in exactly one of the correct, incorrect and unanswered lists |
| `Review.FilterSizesMatchScoring` | app/results.tsx:40-49 | the three lists are as long as the stored correct, incorrect and unanswered counts, and together as long as the "all" list |
| `Review.GridTile` | app/results.tsx:226-234 | no contract of its own; `Review.GridTileMatchesFilters` states it: the tile colour is the slot's verdict |
| `Review.GridTileMatchesFilters` | app/results.tsx:226-234 | each grid tile gets exactly one colour: green exactly when correct, red exactly when incorrect, neutral exactly when unanswered |
| `Review.IndexOf` | app/results.tsx:83 | the first position of the value, or -1 exactly when it is absent |
| `Review.ReviewPrev` | app/results.tsx:82-85 | no contract of its own; `Review.ReviewSteps`, `Review.ReviewFromUnlisted` and `Review.ReviewNextThenPrev` state it: the previous listed question, staying put at the first or when the current one is unlisted |
| `Review.ReviewNext` | app/results.tsx:92-95 | no contract of its own; `Review.ReviewSteps`, `Review.ReviewFromUnlisted` and `Review.ReviewNextThenPrev` state it: the next listed question, staying put at the last, and the first listed one from an unlisted question |
| `Review.ReviewSteps` | app/results.tsx:82-95 | within a filter's list, back and forward move to the neighbouring listed question and stay put at the first and last |
| `Review.ReviewFromUnlisted` | app/results.tsx:92-95 | from a question not in the list, forward goes to the first listed question and back stays put |
| `Review.ReviewNextThenPrev` | app/results.tsx:82-95 | forward then back returns to the starting question, unless it is the last |
| `Review.DurationText` | app/results.tsx:54-58 | no contract of its own; `Review.DurationFields` and `Review.DurationTextRoundTrip` state it: the label reads back to the seconds |
| `Review.DurationFields` | app/results.tsx:55-56 | minutes*60 + seconds is the input, with seconds below 60 |
| `Review.DurationTextRoundTrip` | app/results.tsx:54-58 | reading the "Xm Ys" label back gives the seconds |
| `History.Loaded` | lib/storage.ts:31-39 | a read gives the stored list, or `[]` when nothing is stored or the read fails |
| `History.AfterSave` | lib/storage.ts:20-29 | no contract of its own; `History.SaveThenRead`, `History.FailedSaveUnchanged`, `History.SaveAfterFailedReadForgets`, `History.SaveIntoFull` and `History.SaveAllMostRecentFirst` state it |
| `History.AfterClear` | lib/storage.ts:41-47 | no contract of its own; `History.ClearThenRead` and `History.HistoryStore.ClearHistory` state it: after a successful removal every read is `[]`, and a failed one keeps the cell |
| `History.Prepend` | lib/storage.ts:22-24 | after a save the list has min(old + 1, 100) entries, the new result first, then the first min(old, 99) old entries in their order |
| `History.HistoryStore.constructor` | lib/storage.ts:3 | the store starts with the given cell under the history key |
| `History.HistoryStore.GetTestHistory` | lib/storage.ts:31-39 | returns `Loaded` of the cell and changes nothing |
| `History.HistoryStore.SaveTestResult` | lib/storage.ts:20-29 | the cell becomes `AfterSave`: the prepended, capped list on a successful write, the old cell on a failed one |
| `History.HistoryStore.ClearHistory` | lib/storage.ts:41-47 | the cell is emptied on success and kept on failure |
| `History.SaveThenRead` | lib/storage.ts:22-25 | after a successful save the next read is non-empty, starts with the saved result and has at most 100 entries |
| `History.FailedSaveUnchanged` | lib/storage.ts:26-28 | a failed write leaves the store as it was |
| `History.ClearThenRead` | lib/storage.ts:43 | after a successful clear every read gives `[]` |
| `History.SaveAfterFailedReadForgets` | lib/storage.ts:22 | a save whose read fails replaces the stored history by the new result alone |
| `History.SaveIntoFull` | lib/storage.ts:24 | saving into a full history drops exactly the oldest entry |
| `History.SaveAllMostRecentFirst` | lib/storage.ts:20-29 | a run of saves leaves the newest results first in reverse saving order, then the older history, cut to 100 |
| `QuestionBank.GetAllTests` | lib/question-data.ts:27-32 | same length and order, ids, names, counts and durations kept, every question list emptied |
| `QuestionBank.FirstWithId` | lib/question-data.ts:35 | the first position with the id, or -1 when no test has it |
| `QuestionBank.GetTestById` | lib/question-data.ts:34-36 | nothing exactly when no test has the id; otherwise the first test of the bank with that id |
| `QuestionBank.SearchTests` | lib/question-data.ts:38-44 | no contract of its own; `QuestionBank.SearchBlank`, `QuestionBank.SearchSingleton`, `QuestionBank.SearchAppend` and `QuestionBank.SearchResultsAreSummaries` state which summaries it lists and in what order |
| `QuestionBank.SearchBlank` | lib/question-data.ts:39-40 | a query that is blank after trimming lists every test |
| `QuestionBank.SearchSingleton` | lib/question-data.ts:41-43 | a test is listed, as a summary, exactly when the query is blank or its lowercased name contains the trimmed lowercased query |
| `QuestionBank.SearchAppend` | lib/question-data.ts:41-43 | the search keeps bank order: searching a concatenation concatenates the searches |
| `QuestionBank.SearchResultsAreSummaries` | lib/question-data.ts:38-44 | every result has no questions and is the summary of a test in the bank |
| `Catalog.GetSubjectFromName` | app/index.tsx:25-36 | no contract of its own; `Catalog.SubjectIsFirstMatchingRule`, `Catalog.SubjectPrecedence`, `Catalog.GrandTestFirst`, `Catalog.GeneralWhenNoKeyword` and `Catalog.SubjectIgnoresCase` state it |
| `Catalog.SubjectIsFirstMatchingRule` | app/index.tsx:25-36 | the if-chain equals the keyword table read top to bottom on the lowercased name |
| `Catalog.FirstRuleIndex` | app/index.tsx:27-35 | the classifier stops at the first rule with a keyword in the name, and gives the fallback exactly when no rule matches |
| `Catalog.SubjectsDistinct` | app/index.tsx:27-35 | the eight subjects of the classifier are distinct and none is "General" |
| `Catalog.SubjectPrecedence` | app/index.tsx:27-34 | a name gets a group's subject exactly when that group has a keyword in the lowercased name and no earlier group does |
| `Catalog.FirstRulePrecedence` | app/index.tsx:27-34 | a subject is given exactly when its rule matches and no earlier rule does |
| `Catalog.FirstRuleFallback` | app/index.tsx:35 | "General" is given exactly when no rule matches |
| `Catalog.GrandTestFirst` | app/index.tsx:27 | a name with any grand-test keyword is a grand test, whatever else it mentions |
| `Catalog.GeneralWhenNoKeyword` | app/index.tsx:35 | a name is "General" exactly when no group has a keyword in it |
| `Catalog.SubjectIgnoresCase` | app/index.tsx:26 | names equal up to case get the same subject |
| `Catalog.GetSubjectIcon` | app/index.tsx:38-50 | no contract of its own; `Catalog.DefaultsForUnknownSubject` and `Catalog.IconAndColorOfClassified` state it: "book" exactly for a subject outside the table |
| `Catalog.GetSubjectColor` | app/index.tsx:52-64 | no contract of its own; `Catalog.DefaultsForUnknownSubject` and `Catalog.IconAndColorOfClassified` state it: the accent colour for a subject outside the table |
| `Catalog.DefaultsForUnknownSubject` | app/index.tsx:38-64 | the icon is "book" exactly for subjects outside the table, and such subjects get the accent colour |
| `Catalog.IconAndColorOfClassified` | app/index.tsx:38-64 | a classified name gets the book icon exactly when it is "General", and its colour depends on the accent only then |
| `Catalog.FilteredTests` | app/index.tsx:78-82 | no contract of its own; `Catalog.FilteredTestsBlank`, `Catalog.FilteredTestsInOrder` and `Catalog.FilteredTestsAgreesWithSearch` state it |
| `Catalog.FilteredTestsBlank` | app/index.tsx:79 | a whitespace-only query lists every test |
| `Catalog.FilteredTestsInOrder` | app/index.tsx:80-81 | the home filter keeps order, and keeps a test exactly when the query is blank or its lowercased name contains the lowercased untrimmed query |
| `Catalog.FilteredTestsAgreesWithSearch` | app/index.tsx:78-82 | on a query with no surrounding whitespace the home filter agrees with `searchTests` |
| `Catalog.TotalQuestions` | app/index.tsx:225 | no contract of its own; `Catalog.TotalQuestionsAppend` and `Catalog.TotalOfSummaries` state it |
| `Catalog.TotalQuestionsAppend` | app/index.tsx:225 | the header total of two lists of tests is the sum of their totals |
| `Catalog.TotalOfSummaries` | app/index.tsx:225 | the header total over the summaries equals the total over the full bank |
| `Content.Replace` | scripts/parse-questions.js:6-14 | no contract of its own; the global `.replace(/…/g)`, also used by the explanation cleaning at lines 48-55; `Content.ReplaceLeavesNone` and `Content.CollapseLeavesNoTriple` state what it leaves behind |
| `Content.DecodeHtmlEntities` | scripts/parse-questions.js:4-15 | no contract of its own; `Content.DecodeWithoutAmpersand`, `Content.DecodeNotLonger`, `Content.DecodeLeavesNoNbsp`, `Content.DecodeDoubleEscapedLt` and `Content.DecodeDoubleEscapedQuot` state it |
| `Content.ReplaceLeavesNone` | scripts/parse-questions.js:6-14 | a global replace of a literal by a character not in it leaves no occurrence behind |
| `Content.DecodeWithoutAmpersand` | scripts/parse-questions.js:4-15 | a text without `&` decodes to itself |
| `Content.DecodeNotLonger` | scripts/parse-questions.js:4-15 | decoding never makes a text longer |
| `Content.DecodeLeavesNoNbsp` | scripts/parse-questions.js:14 | a decoded text contains no `&nbsp;` |
| `Content.DecodeDoubleEscapedLt` | scripts/parse-questions.js:6-8 | `&amp;lt;` decodes to `&lt;`, because `&lt;` is replaced before `&amp;` |
| `Content.DecodeDoubleEscapedQuot` | scripts/parse-questions.js:8-9 | `&amp;quot;` decodes to a double quote, because `&quot;` is replaced after `&amp;` |
| `Content.CollapseLeavesNoTriple` | scripts/parse-questions.js:55 | after newline runs are shrunk no three newlines follow each other |
| `Content.CleanExplanation` | scripts/parse-questions.js:45-57 | no contract of its own; `Content.CleanedExplanationShape` states it |
| `Content.CleanedExplanationShape` | scripts/parse-questions.js:45-57 | a cleaned explanation is empty for a missing or empty one, has no whitespace at either end and no three newlines in a row |
| `Content.CleanQuestions` | scripts/parse-questions.js:44-70 | no contract of its own; `Content.CleanQuestionsShape` and `Content.QuestionIdsDistinct` state the whole record of every question |
| `Content.CleanQuestionsShape` | scripts/parse-questions.js:44-70 | one record per parsed question, in order, with ids 1 to n and trimmed text; options are mapped one to one with `correct` coerced to its truth value; the correct answer is the given text or `""`; the explanation is the cleaned one |
| `Content.QuestionIdsDistinct` | scripts/parse-questions.js:60 | two cleaned questions share an id exactly when they are the same position |
| `Content.BuildTest` | scripts/parse-questions.js:72-78 | no contract of its own; `Content.BuildTestShape` states the whole record |
| `Content.BuildTestShape` | scripts/parse-questions.js:72-78 | the record's id is key + "_" + block number, its name is the trimmed heading, its questions are the cleaned ones, its count is their number, and its duration is the page's value, or 210 when the page gives none |
| `Content.FileKey` | scripts/parse-questions.js:20 | the key is "btrs" when the path mentions `BTR's`, else "btr" |
| `Content.FileKeyOfFirstPage` | scripts/parse-questions.js:89 | the first page gets the key "btrs" in any directory |
| `Content.FileKeyOfSecondPage` | scripts/parse-questions.js:90 | the second page gets the key "btr" when the directory name has no apostrophe |
| `Content.TestIdsDistinct` | scripts/parse-questions.js:73 | ids from the two files never collide, and ids within a file differ when the block numbers do |
| `Content.Extracted` | scripts/parse-questions.js:25-84 | no contract of its own; `Content.ExtractTests`, `Content.ExtractedAppend`, `Content.ExtractedFromBlocks` and `Content.ExtractedShape` state it |
| `Content.ExtractTests` | scripts/parse-questions.js:25-84 | the loop returns the tests of the blocks, in page order, skipping blocks without questions |
| `Content.ExtractedAppend` | scripts/parse-questions.js:25-86 | the tests of consecutive runs of blocks are the concatenation of their tests |
| `Content.ExtractedFromBlocks` | scripts/parse-questions.js:25-84 | each test comes from some block, every block with a payload yields its test, and there are no more tests than blocks |
| `Content.ExtractedShape` | scripts/parse-questions.js:72-78 | every extracted test counts its own questions, numbers them from 1 and has an id starting with the file key and `_` |

## Left out

- Rendering is not modelled: JSX, styles, modals, haptics, alerts, router navigation and the hardware back button. The Submit dialog is reduced to a confirm-or-cancel flag.
- Timer scheduling (`setInterval` / `clearInterval`) is not modelled; one firing of the interval is the explicit `Quiz.Session.Tick`. It scores the current answers, which is the evidently intended behaviour (see Findings).
- Quiz.Session.Submit: it scores the current clock, which is the evidently intended behaviour. As written, the dialog's callback uses a `finalizeSubmit` whose clock is the one of the render after the last accepted click, so `timeSpent` misses all the time since that click (see Findings). Every accepted click builds a new answer list (app/quiz.tsx:102-104), also one that picks the option already chosen, and so refreshes that clock.
- Quiz.Session.Finalize: no idempotence is claimed. `finalizeSubmit` does not check `submitted` (app/quiz.tsx:154-156), so a second call would score and save again; the model does the same.
- A practice-mode result is not modelled: practice mode has no Submit button (its "End" only navigates back), and `Quiz.Session.Submit` requires timed mode.
- An absent route `mode` is not modelled separately. Without it the screen is not timed (app/quiz.tsx:43): no countdown runs (line 47) and no Submit button is shown (line 416), so no result is ever recorded and the `mode || "timed"` default at line 181 is never reached. `Mode` here always has one of the two values.
- AsyncStorage and the JSON text it persists are abstracted as one cell holding an optional list of records. A corrupt stored text is covered by the failed-read flag.
- Result ids from `Date.now()` and `Math.random()`, and ISO dates, are non-deterministic and are string parameters.
- Floating point is not modelled: `percentage` is a `real`. The score-colour thresholds and the progress bar are presentation only.
- In the converter, the file reads and writes, the driver (scripts/parse-questions.js:89-114) and its console output are left out. So is the regular-expression extraction of test blocks and of the `questions = [...]` payload with its `JSON.parse` (scripts/parse-questions.js:22-41). The blocks are an input list of `TestBlock` values. A block whose payload is missing stands for a regex miss (the `continue`) or for any error caught at line 81. That covers a `JSON.parse` failure and also a failure inside the record mapping (scripts/parse-questions.js:44-70): a `null` question object, a `text` or `explanation` that is not a string, or an `options` value that is truthy but not an array. The raw records here have string and list fields only, so those shapes are not otherwise representable.
- The entity decoding of the embedded page (scripts/parse-questions.js:28) feeds only that extraction; `Content.DecodeHtmlEntities` is modelled and proved on its own.
- Option `label` and `text` are copied as given; they are assumed to be strings.
- Case and whitespace use ASCII only: `toLowerCase` maps A-Z, and `trim` strips space, tab, newline, carriage return, vertical tab and form feed. Unicode case mapping and Unicode spaces are not modelled.
- constants/colors.ts, the static theme table, is not part of this model; the accent colour is a parameter.
- In practice mode `selectAnswer` has no `submitted` check (app/quiz.tsx:98-99): only the timed branch ignores clicks after submission. The model follows the code.

## Findings

| source | as written | input that shows it | evidently intended | confidence | as-written member | corrected member |
|---|---|---|---|---|---|---|
| app/quiz.tsx:46-61 | the interval callback keeps the `handleSubmit` of the render that started the timer, so the expiring clock scores the initial state: every answer empty and the full clock remaining | a timed attempt with one right answer, left until the clock runs out, is saved with 0 correct, all unanswered and 0 seconds spent | score the answers as they are when time runs out, with the whole duration spent | not executed | `Quiz.AutoSubmitLosesAnswers` | `Quiz.Session.Tick` |
| app/quiz.tsx:138-152 | `handleSubmit` depends only on the answers, so the confirmed dialog calls the `finalizeSubmit` of the render after the last accepted click (every accepted click builds a new answer list, app/quiz.tsx:102-104), with that render's clock | in a 210-minute timed test, answer one question at minute 1 and press Submit at minute 200: 60 seconds are saved instead of 12000; with no answer at all, 0 | record the time actually spent, from the clock at the moment of submission | not executed | `Quiz.ManualSubmitLosesTime` | `Quiz.Session.Submit` |
