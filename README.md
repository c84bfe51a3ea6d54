# Slovník flashcards — a Dafny model of the vocabulary core

The app keeps a list of vocabulary entries (a Slovak word and its English
translation). Each entry moves between three lists: NEW, LEARNING and
LEARNED. The app also keeps daily activity statistics and shows them as a
heat map. This project models the logic behind that:

- the context provider's list operations (`VocabStore`);
- the local-storage repository (`LocalStore`, a map from storage keys to
  stored values);
- the streak and activity counter, and the date keys it uses;
- the 105-day activity heat map: days, intensity tiers, the week grid and
  month labels;
- the typing quiz (`Quiz`);
- the handlers of the three word screens and their shared search box.

Modules follow the source files:

| module | file | source |
|---|---|---|
| `Types` | types.dfy | types.ts |
| `Text` | text.dfy | `trim`, `toLowerCase`, `includes`, `String(n)`, `padStart` |
| `Seqs`, `EntryLists` | seqs.dfy, entry_lists.dfy | list operations shared by the provider and the repository |
| `VocabContext` | vocab_context.dfy | context/VocabContext.tsx |
| `VocabRepository` | vocab_repository.dfy | services/VocabRepository.ts |
| `StatsService` | stats_service.dfy | services/StatsService.ts |
| `ActivityHeatmap` | activity_heatmap.dfy | components/Stats/ActivityHeatmap.tsx |
| `TestMode` | test_mode.dfy | components/TestMode.tsx |
| `Search` | search.dfy | the filter expression of the three screens |
| `NewWordsScreen`, `LearningScreen`, `LearnedScreen` | new_words_screen.dfy, learning_screen.dfy, learned_screen.dfy | screens/*.tsx |

Objects whose state the source updates become classes:

- the provider's entry list (`VocabStore`);
- local storage (`LocalStore`);
- the quiz (`Quiz`);
- the form, edit and delete state of the NEW and LEARNED screens (`NewWords`, `Learned`).

Their methods are proved against specification functions. Pure code, such as the record builders, the stats update and the filters, is written as functions with lemmas. The heat map's loops become methods with loop invariants; the grid-building loop keeps the source's 7-slot array.

Design points the model makes explicit:

- **Wiring between the provider and the repository.** The provider calls
  `getAllEntries(userId)` and `addEntry(newEntry, userId)`
  (context/VocabContext.tsx:32, 51). The repository's signatures take a
  collection id first (services/VocabRepository.ts:29, 33). The two layers
  are therefore modelled separately: `VocabStore` is the provider's
  in-memory list; `LocalStore` is the repository's storage, addressed by
  collection id.
- **Quiz guards.** `handleSubmit` itself checks only that no feedback is
  shown. The quiz form is rendered only with a non-empty queue and before
  the end (components/TestMode.tsx:26-33, 66). The submit button is disabled
  while the trimmed input is empty (components/TestMode.tsx:162-166).
  `Quiz.Submit` ignores the call in all of those states. `Quiz.Next` is
  reachable only through the continue button, which is shown while feedback
  is set.
- **Failed writes.** `LocalStore.writable` says whether `setItem`
  succeeds. A failed write of entries is caught and logged, so storage
  stays as it was (services/VocabRepository.ts:88-94). A failed write of
  the collection list escapes `createCollection` and `deleteCollection`,
  which then report failure; `deleteCollection` then also keeps the
  entries key.
- **Truthiness of ids.** `if (!editingId)` and `if (deletingId)` treat the
  empty string as absent, and the model does the same.
- **Learning cap.** The cap of 10 LEARNING words is checked only by the NEW
  screen. Moving a word back from LEARNED checks nothing, so the cap can be
  exceeded (`LearnedScreen.MoveBackSkipsCap`).
- **Streak.** `calculateNewStats` yields a positive streak only for stats
  that are consistent (`StatsService.Consistent`), as all stats built from
  `getEmptyStats` are. `StatsService.SameDayKeepsZeroStreak` shows an
  inconsistent record keeping streak 0.

## Model

| member | source | states |
|---|---|---|
| Text.Trim | screens/NewWordsScreen.tsx:45-46 | `trim()` returns a slice of the text with only white space cut off before and after it; the result is empty exactly when the text is all white space, and otherwise neither starts nor ends with white space |
| Text.TrimStart | screens/NewWordsScreen.tsx:45 | leading white space is dropped, the rest is a suffix not starting with white space |
| Text.TrimEnd | screens/NewWordsScreen.tsx:45 | trailing white space is dropped, the rest is a prefix not ending with white space |
| Text.TrimIdempotent | screens/NewWordsScreen.tsx:45-46 | trimming twice is trimming once |
| Text.LowerChar | components/TestMode.tsx:41-42 | a lower-cased character is white space exactly when the original is |
| Text.Lower | components/TestMode.tsx:41-42 | `toLowerCase()` keeps the length and maps each character |
| Text.LowerCharIdempotent | components/TestMode.tsx:41-42 | a lower-cased character stays the same when lower-cased again |
| Text.LowerIdempotent | components/TestMode.tsx:41-42 | lower-casing twice is lower-casing once |
| Text.LowerTrimStart | screens/NewWordsScreen.tsx:55 | lower-casing commutes with dropping leading white space |
| Text.LowerTrimEnd | screens/NewWordsScreen.tsx:55 | lower-casing commutes with dropping trailing white space |
| Text.LowerTrimCommute | screens/NewWordsScreen.tsx:55 | `toLowerCase().trim()` equals `trim().toLowerCase()` |
| Text.IncludesAt | screens/NewWordsScreen.tsx:35-38 | `includes` holds exactly when the query occurs at some offset |
| Text.DigitChar | services/StatsService.ts:11-12 | a digit prints as a character between '0' and '9' |
| Text.NatToString | services/StatsService.ts:10-13 | `String(n)` is non-empty, all digits, without a leading zero, one character exactly below 10, two for 10..99, and ends in the units digit |
| Text.NatToStringInjective | services/StatsService.ts:13 | different numbers print differently |
| Text.PadStart | services/StatsService.ts:11-12 | `padStart(width, fill)` reaches the width with fill characters in front and keeps the text at the end |
| Text.TwoDigits | services/StatsService.ts:11-12 | numbers below 100 padded to 2 are their tens and units digits |
| Seqs.Filter | context/VocabContext.tsx:68 | every element `filter` keeps passes and comes from the list, every passing element is kept, and the result is no longer than the list |
| Seqs.FilterCounts | context/VocabContext.tsx:68 | `filter` keeps every copy of a passing element and no copy of a failing one |
| Seqs.FilterIsSubsequence | context/VocabContext.tsx:68 | `filter` keeps list order |
| Seqs.FilterIdempotent | context/VocabContext.tsx:68 | filtering twice is filtering once |
| Seqs.FilterCountUpdate | context/VocabContext.tsx:58 | overwriting one element changes the number of survivors by what the old and the new element contribute |
| EntryLists.FindIndex | services/VocabRepository.ts:41 | `findIndex` returns -1 exactly when no entry holds the id, otherwise the first position holding it |
| EntryLists.FindFirst | context/VocabContext.tsx:72 | `find` is empty exactly when no entry holds the id, otherwise it returns the entry at a position holding the id with no earlier position holding it |
| EntryLists.FindFirstUnique | context/VocabContext.tsx:72 | with unique ids, `find` returns the holder of the id |
| EntryLists.ReplaceById | context/VocabContext.tsx:58 | every entry holding the id becomes the new record, all others stay |
| EntryLists.ReplaceByIdUnknown | context/VocabContext.tsx:58 | an unknown id changes nothing |
| EntryLists.ReplaceByIdKeepsIds | context/VocabContext.tsx:58 | replacing keeps every id, and keeps ids unique |
| EntryLists.ReplaceByIdAt | context/VocabContext.tsx:58 | with unique ids, replacing is writing one position |
| EntryLists.UpdateMatching | context/VocabContext.tsx:72-75 | find-then-update keeps the length |
| EntryLists.UpdateMatchingUnknown | context/VocabContext.tsx:72-73 | find-then-update on an unknown id changes nothing |
| EntryLists.UpdateMatchingExact | context/VocabContext.tsx:72-75 | with unique ids, find-then-update changes the holder of the id and nothing else |
| EntryLists.RemoveIdSpec | context/VocabContext.tsx:63 | after delete no entry holds the id, every other entry stays, in order; deleting an absent id or deleting twice changes nothing more |
| EntryLists.RemoveIdCounts | context/VocabContext.tsx:63 | delete keeps every copy of each entry with another id and no copy of one with the id |
| EntryLists.FilterStatusSpec | context/VocabContext.tsx:67-69 | `getEntriesByStatus` keeps exactly the entries of that status, every copy of them, in order |
| EntryLists.StatusCountAfterReplace | context/VocabContext.tsx:58 | with unique ids, replacing a record changes a status's count by what the old and new records contribute |
| VocabContext.NewEntry | context/VocabContext.tsx:42-50 | the new record is NEW, hidden, with zero counts, no sentence and no review time |
| VocabContext.FlipReveal | context/VocabContext.tsx:74 | only `isRevealed` changes, to its negation |
| VocabContext.WithTestResult | context/VocabContext.tsx:97-102 | exactly one count grows by 1, `lastReviewed` becomes now, nothing else changes |
| VocabContext.ToggleRevealExact | context/VocabContext.tsx:71-77 | with unique ids, only the entry holding the id changes, and only its `isRevealed` |
| VocabContext.ToggleRevealTwice | context/VocabContext.tsx:71-77 | toggling twice restores the list |
| VocabContext.ToggleRevealUnknown | context/VocabContext.tsx:72-73 | an unknown id changes nothing |
| VocabContext.RecordTestResultExact | context/VocabContext.tsx:94-105 | with unique ids, only the holder's counts and review time change; statuses stay |
| VocabContext.RecordTestResultUnknown | context/VocabContext.tsx:95-96 | an unknown id changes nothing |
| VocabContext.RevealedBatch | context/VocabContext.tsx:80-82 | the batch is the revealed LEARNING entries in list order, as many as there are, each with only `isRevealed` cleared; every batch item is such a copy of a list entry and every revealed LEARNING entry has its copy in the batch |
| VocabContext.ApplyFirstMatch | context/VocabContext.tsx:86-89 | the optimistic update keeps the length |
| VocabContext.ResetRevealedNoWrite | context/VocabContext.tsx:84 | the batch is empty, so there is no write, exactly when no LEARNING entry is revealed |
| VocabContext.RevealedBatchCovers | context/VocabContext.tsx:80-88 | every revealed LEARNING entry has a match in the batch |
| VocabContext.ResetRevealedHidesLearning | context/VocabContext.tsx:79-92 | afterwards no LEARNING entry is revealed |
| VocabContext.ResetRevealedExact | context/VocabContext.tsx:79-92 | with unique ids, LEARNING entries are hidden and NEW/LEARNED entries are untouched, even when revealed |
| VocabContext.VocabStore.constructor | context/VocabContext.tsx:22 | the list starts empty |
| VocabContext.VocabStore.Load | context/VocabContext.tsx:26-35 | loading replaces the list |
| VocabContext.VocabStore.AddEntry | context/VocabContext.tsx:41-54 | the list gains the new record at the end |
| VocabContext.VocabStore.UpdateEntry | context/VocabContext.tsx:56-60 | the list becomes `ReplaceById` of the old one |
| VocabContext.VocabStore.DeleteEntry | context/VocabContext.tsx:62-65 | the list becomes `RemoveId` of the old one |
| VocabContext.VocabStore.GetEntriesByStatus | context/VocabContext.tsx:67-69 | the result has only that status, holds every entry of it with all its copies, in list order |
| VocabContext.VocabStore.ToggleReveal | context/VocabContext.tsx:71-77 | the list becomes `Toggled` of the old one |
| VocabContext.VocabStore.ResetAllRevealed | context/VocabContext.tsx:79-92 | returns the batch written (empty when nothing is written); the list becomes `ResetRevealed` |
| VocabContext.VocabStore.RecordTestResult | context/VocabContext.tsx:94-105 | the list becomes `Recorded` of the old one |
| VocabRepository.EntriesKey | services/VocabRepository.ts:78-80 | the storage key is the prefix `slovnik_data_` followed by the collection id |
| VocabRepository.EntriesKeyInjective | services/VocabRepository.ts:80-90 | different collections use different keys |
| VocabRepository.EntriesKeyNotCollections | services/VocabRepository.ts:3-4 | no entry key collides with `slovnik_collections` |
| VocabRepository.ReadCollections | services/VocabRepository.ts:69-76 | a missing or unparsable value reads as the empty list |
| VocabRepository.ReadEntries | services/VocabRepository.ts:78-86 | a missing or unparsable value reads as the empty list |
| VocabRepository.ReadAfterWrite | services/VocabRepository.ts:88-94 | reading back a collection gives what was saved; other collections and the collection list are unchanged |
| VocabRepository.BatchMap | services/VocabRepository.ts:50 | every batch id is a key, and each key maps to a batch record with that id |
| VocabRepository.BatchMapLastWins | services/VocabRepository.ts:50 | for a repeated id, `new Map` keeps the last record |
| VocabRepository.ApplyBatch | services/VocabRepository.ts:52-57 | the mapped list keeps its length |
| VocabRepository.CreateCollectionPrepends | services/VocabRepository.ts:14-18 | the new collection comes first; entries are untouched |
| VocabRepository.DeleteCollectionSpec | services/VocabRepository.ts:20-25 | no collection keeps the id, every collection with another id stays, in order, its entries are gone, other collections' entries stay |
| VocabRepository.AddEntryAppends | services/VocabRepository.ts:33-37 | the entry is appended to that collection |
| VocabRepository.UpdateEntryReplacesFirst | services/VocabRepository.ts:39-46 | an unknown id writes nothing; otherwise only the first holder of the id is replaced |
| VocabRepository.UpdateEntriesSpec | services/VocabRepository.ts:48-59 | length and ids are kept, entries outside the batch stay, entries in the batch become the last batch record with their id |
| VocabRepository.DeleteEntryIdempotent | services/VocabRepository.ts:61-65 | deleting twice is deleting once, and no entry keeps the id |
| VocabRepository.LocalStore.constructor | services/VocabRepository.ts:6 | storage starts with the given items, and with whether `setItem` succeeds |
| VocabRepository.LocalStore.LoadEntries | services/VocabRepository.ts:78-86 | returns `ReadEntries`, changing nothing |
| VocabRepository.LocalStore.SaveEntries | services/VocabRepository.ts:88-94 | storage becomes `WriteEntries` of the old one; when `setItem` fails the error is swallowed and storage is unchanged |
| VocabRepository.LocalStore.GetCollections | services/VocabRepository.ts:10-12 | returns `ReadCollections`, changing nothing |
| VocabRepository.LocalStore.CreateCollection | services/VocabRepository.ts:14-18 | storage becomes `AfterCreateCollection`; when `setItem` fails the call reports failure and storage is unchanged |
| VocabRepository.LocalStore.DeleteCollection | services/VocabRepository.ts:20-25 | storage becomes `AfterDeleteCollection`; when `setItem` fails the call reports failure and the entries key is not removed either |
| VocabRepository.LocalStore.GetAllEntries | services/VocabRepository.ts:29-31 | returns `ReadEntries`, changing nothing |
| VocabRepository.LocalStore.AddEntry | services/VocabRepository.ts:33-37 | storage becomes `AfterAddEntry`, or stays unchanged when `setItem` fails |
| VocabRepository.LocalStore.UpdateEntry | services/VocabRepository.ts:39-46 | storage becomes `AfterUpdateEntry` (untouched for an unknown id), or stays unchanged when `setItem` fails |
| VocabRepository.LocalStore.UpdateEntries | services/VocabRepository.ts:48-59 | storage becomes `AfterUpdateEntries`, or stays unchanged when `setItem` fails |
| VocabRepository.LocalStore.DeleteEntry | services/VocabRepository.ts:61-65 | storage becomes `AfterDeleteEntry`, or stays unchanged when `setItem` fails |
| StatsService.EmptyStats | services/StatsService.ts:25-32 | streak 0, no last date, no actions, no activity |
| StatsService.CountOn | services/StatsService.ts:55 | an absent date counts 0 |
| StatsService.CalculateNewStats | services/StatsService.ts:35-63 | streak is kept for today, grows after yesterday, else restarts at 1; today becomes the last date; total and today's count grow by 1; other dates unchanged |
| StatsService.TotalRemove | services/StatsService.ts:54-55 | the sum of daily counts splits at any date |
| StatsService.TotalIncrement | services/StatsService.ts:54-55 | one more action on a date adds one to the sum |
| StatsService.EmptyStatsConsistent | services/StatsService.ts:25-32 | the empty stats are consistent |
| StatsService.CalculateNewStatsConsistent | services/StatsService.ts:35-63 | each update keeps total = sum of daily counts and gives a streak of at least 1 |
| StatsService.SameDayKeepsZeroStreak | services/StatsService.ts:42-44 | a record claiming activity today with streak 0 keeps streak 0 |
| StatsService.TwoDayScenario | services/StatsService.ts:35-63 | two days in a row and a third action: streak 2, three actions, counts 1 and 2 |
| StatsService.Pad2 | services/StatsService.ts:11-12 | `String(n).padStart(2, '0')` is the two digits of n |
| StatsService.DigitCharInjective | services/StatsService.ts:11-12 | digits print differently |
| StatsService.DateKey | services/StatsService.ts:8-14 | the key is the year's digits, '-', the month number as two digits, '-', the day as two digits |
| StatsService.FourDigitYear | services/StatsService.ts:10 | four-digit years print as four characters |
| StatsService.DateKeyShape | services/StatsService.ts:8-14 | keys of four-digit years are 10 characters, dashes at 4 and 7, months and days below 10 padded with '0' |
| StatsService.DateKeyInjective | services/StatsService.ts:8-22 | different dates give different keys |
| ActivityHeatmap.Intensity | components/Stats/ActivityHeatmap.tsx:29-33 | tiers 0, 1..5, 6..15, 16..30 and over 30 map to 0..4 |
| ActivityHeatmap.IntensityMonotone | components/Stats/ActivityHeatmap.tsx:29-33 | more activity never gives a lower tier |
| ActivityHeatmap.DayOf | components/Stats/ActivityHeatmap.tsx:24-35 | a cell carries its date key, its count (0 when absent) and the count's tier |
| ActivityHeatmap.BuildDays | components/Stats/ActivityHeatmap.tsx:15-36 | 105 days, oldest first, the last one today |
| ActivityHeatmap.BuildDaysConsecutive | components/Stats/ActivityHeatmap.tsx:16-18 | the weekdays of the window follow each other |
| ActivityHeatmap.Cells | components/Stats/ActivityHeatmap.tsx:40 | a week holds at most 7 days |
| ActivityHeatmap.CellsAppend | components/Stats/ActivityHeatmap.tsx:42-51 | the days of joined slots are the days of each part, in order |
| ActivityHeatmap.Blank | components/Stats/ActivityHeatmap.tsx:40 | `new Array(7).fill(null)` is all empty slots |
| ActivityHeatmap.CellsBlank | components/Stats/ActivityHeatmap.tsx:49 | an empty week holds no days |
| ActivityHeatmap.Filled | components/Stats/ActivityHeatmap.tsx:45 | slots filled from a list of days hold those days in order |
| ActivityHeatmap.CellsFilled | components/Stats/ActivityHeatmap.tsx:45 | reading the days back gives the list |
| ActivityHeatmap.Row | components/Stats/ActivityHeatmap.tsx:43-45 | each day sits in the slot of its weekday |
| ActivityHeatmap.RowCells | components/Stats/ActivityHeatmap.tsx:43-45 | a week's days read back in order |
| ActivityHeatmap.RowExtend | components/Stats/ActivityHeatmap.tsx:45 | placing one more day writes only its weekday's slot |
| ActivityHeatmap.AnyFilled | components/Stats/ActivityHeatmap.tsx:53 | `some(d => d !== null)` holds exactly when a slot is filled |
| ActivityHeatmap.AllClosedPush | components/Stats/ActivityHeatmap.tsx:47-48 | pushing a week keeps every earlier week closed on Saturday |
| ActivityHeatmap.RunGrows | components/Stats/ActivityHeatmap.tsx:43-45 | within a week the next day extends the row |
| ActivityHeatmap.PushWeek | components/Stats/ActivityHeatmap.tsx:47-48 | pushing the current week adds its days to the grid in order |
| ActivityHeatmap.PlaceDay | components/Stats/ActivityHeatmap.tsx:43-50 | one step of the `forEach` keeps the grid invariant |
| ActivityHeatmap.FinishGrid | components/Stats/ActivityHeatmap.tsx:53-55 | the partial week is pushed exactly when it holds a day, and the grid is then complete |
| ActivityHeatmap.GroupIntoWeeks | components/Stats/ActivityHeatmap.tsx:39-55 | every day lands in its weekday slot, in order, and every week but the last ends on Saturday |
| ActivityHeatmap.FirstDay | components/Stats/ActivityHeatmap.tsx:60 | `find(d => d !== null)` is the first filled slot, empty only for an empty week |
| ActivityHeatmap.LabelsIncreasing | components/Stats/ActivityHeatmap.tsx:58-71 | label positions are increasing week indices |
| ActivityHeatmap.LabelsMonths | components/Stats/ActivityHeatmap.tsx:62-67 | a label carries the month of its week's first day |
| ActivityHeatmap.LabelsLastMonth | components/Stats/ActivityHeatmap.tsx:58-68 | `lastMonth` is the last label's month, or -1 |
| ActivityHeatmap.LabelsExact | components/Stats/ActivityHeatmap.tsx:59-71 | a week is labelled exactly when its first day starts a new month |
| ActivityHeatmap.LabelsAlternate | components/Stats/ActivityHeatmap.tsx:63-68 | neighbouring labels name different months |
| ActivityHeatmap.MonthLabels | components/Stats/ActivityHeatmap.tsx:57-71 | the loop computes those labels: increasing, with matching months, one per new month, neighbours different |
| ActivityHeatmap.FirstWeekLabelled | components/Stats/ActivityHeatmap.tsx:58-63 | the first non-empty week is always labelled |
| ActivityHeatmap.Heatmap | components/Stats/ActivityHeatmap.tsx:9-74 | all 105 days appear in order in their weekday slots, weeks close on Saturday, labels mark each new month in increasing week order, each label carries its week's first-day month, and neighbouring labels differ |
| TestMode.AnswerReflexiveSymmetric | components/TestMode.tsx:41-43 | the expected answer is accepted, and the check is symmetric |
| TestMode.AnswerIgnoresCaseAndSpace | components/TestMode.tsx:41-43 | surrounding white space and letter case do not change the verdict |
| TestMode.AnswerCongruence | components/TestMode.tsx:41-43 | inputs that clean up alike get the same verdict |
| TestMode.CountCorrect | components/TestMode.tsx:47-50 | no more correct results than results |
| TestMode.Quiz.constructor | components/TestMode.tsx:15-23 | the queue is a reordering of the words; index 0, empty input, no feedback, zero tally |
| TestMode.Quiz.Type | components/TestMode.tsx:134 | only the input changes |
| TestMode.Quiz.Accept | components/TestMode.tsx:45-52 | the verdict is shown, one tally grows, and `onRecordResult(id, isCorrect)` is recorded for the current word |
| TestMode.Quiz.Submit | components/TestMode.tsx:37-53 | ignored while feedback is shown, on an empty queue, when finished or with blank input; otherwise the trimmed, lower-cased input is compared with the answer and recorded |
| TestMode.Quiz.Next | components/TestMode.tsx:55-64 | clears input and feedback; advances, or finishes after the last word; tally untouched |
| TestMode.FinishedAnsweredAll | components/TestMode.tsx:59-62 | a finished quiz recorded one result per word, in queue order, and the tally sums to the word count |
| Search.SearchFilterSpec | screens/NewWordsScreen.tsx:35-38 | a word is shown exactly when it matches, as often as it is listed, in list order |
| Search.MatchesOccurrence | screens/LearningScreen.tsx:23-26 | a match is an occurrence of the lower-cased query in the lower-cased Slovak or English text |
| Search.EmptyQueryKeepsAll | screens/LearnedScreen.tsx:19-22 | the empty query shows the whole list |
| Search.QueryCaseInsensitive | screens/NewWordsScreen.tsx:35-38 | the query's letter case does not matter |
| Search.ScreenListSpec | screens/LearningScreen.tsx:18-26 | a screen lists matching entries of its status only, every such entry, in that list's order |
| NewWordsScreen.DuplicateMeansSameEnglish | screens/NewWordsScreen.tsx:54-56 | the duplicate test finds exactly the entries whose English equals the input after trimming and lower-casing |
| NewWordsScreen.CheckAdd | screens/NewWordsScreen.tsx:45-61 | a blank field is rejected; a duplicate English word, of any status, is rejected; otherwise the trimmed pair is accepted |
| NewWordsScreen.AddKeepsEnglishDistinct | screens/NewWordsScreen.tsx:54-63 | adding only accepted pairs keeps English words distinct |
| NewWordsScreen.ToLearning | screens/NewWordsScreen.tsx:83-87 | status LEARNING and `lastReviewed` now; all else kept |
| NewWordsScreen.MoveKeepsCap | screens/NewWordsScreen.tsx:75-87 | below the cap, a move leaves at most 10 LEARNING words |
| NewWordsScreen.MoveCountsNewWord | screens/NewWordsScreen.tsx:83-87 | moving a NEW word adds one LEARNING entry and removes one NEW entry |
| NewWordsScreen.Edited | screens/NewWordsScreen.tsx:118-122 | only the two texts change |
| NewWordsScreen.EditNewWordExact | screens/NewWordsScreen.tsx:116-123 | with unique ids, the NEW word holding the id gets the texts, nothing else changes |
| NewWordsScreen.EditOnlyNewWords | screens/NewWordsScreen.tsx:116-117 | no NEW word with the id means no write |
| NewWordsScreen.EditKeepsIdsAndStatus | screens/NewWordsScreen.tsx:116-123 | an edit keeps ids unique and every id and status in place |
| NewWordsScreen.NewWords.constructor | screens/NewWordsScreen.tsx:16-30 | empty forms, no errors, not editing |
| NewWordsScreen.NewWords.HandleAdd | screens/NewWordsScreen.tsx:40-71 | a rejected pair shows its error and writes nothing; an accepted pair is added trimmed and the form cleared; fresh ids keep ids unique |
| NewWordsScreen.NewWords.Commit | screens/NewWordsScreen.tsx:63-65 | the record is appended and the inputs cleared |
| NewWordsScreen.NewWords.HandleMoveToLearning | screens/NewWordsScreen.tsx:73-88 | refused, with no write, at 10 or more LEARNING words; otherwise the word is written as LEARNING; at most 10 stays at most 10 |
| NewWordsScreen.NewWords.HandleDelete | screens/NewWordsScreen.tsx:90-92 | the list becomes `RemoveId` of the old one |
| NewWordsScreen.NewWords.StartEditing | screens/NewWordsScreen.tsx:94-99 | the edit form holds the word's id and texts |
| NewWordsScreen.NewWords.CancelEditing | screens/NewWordsScreen.tsx:101-105 | the edit form is cleared |
| NewWordsScreen.NewWords.TypeAdd | screens/NewWordsScreen.tsx:147-157 | only the two add inputs change |
| NewWordsScreen.NewWords.TypeEdit | screens/NewWordsScreen.tsx:262-271 | only the edit texts change |
| NewWordsScreen.NewWords.SaveEdit | screens/NewWordsScreen.tsx:107-125 | no id or a blank field writes nothing and keeps the form; otherwise the NEW word is written with trimmed texts and the form closes |
| NewWordsScreen.NewWords.WriteEdit | screens/NewWordsScreen.tsx:116-124 | the list becomes `EditNewWord` and the form closes |
| LearningScreen.ToLearned | screens/LearningScreen.tsx:40-46 | status LEARNED and `lastReviewed` now; `isRevealed` and counts kept |
| LearningScreen.ToNew | screens/LearningScreen.tsx:49-55 | status NEW and hidden; `lastReviewed` and counts kept |
| LearningScreen.MoveToLearnedSpec | screens/LearningScreen.tsx:40-46 | with unique ids, one position changes; LEARNING shrinks by one, LEARNED grows by one |
| LearningScreen.MoveToNewSpec | screens/LearningScreen.tsx:49-55 | with unique ids, one position changes; LEARNING shrinks by one, NEW grows by one |
| LearningScreen.HandleToggle | screens/LearningScreen.tsx:58-60 | with unique ids only the tapped word's `isRevealed` flips |
| LearningScreen.QuizCoversLearning | screens/LearningScreen.tsx:18-35 | the quiz asks every LEARNING word and nothing else |
| LearnedScreen.BackToLearning | screens/LearnedScreen.tsx:28-33 | only the status changes, to LEARNING |
| LearnedScreen.MoveBackSkipsCap | screens/LearnedScreen.tsx:28-33 | LEARNING grows by one with no cap check |
| LearnedScreen.AdvertisedTestSize | screens/LearnedScreen.tsx:76 | the count on the start button is at most 10 and at most the number of words, and equals one of them |
| LearnedScreen.TestSelection | screens/LearnedScreen.tsx:49 | `slice(0, 10)` is a prefix of length `min(10, n)` |
| LearnedScreen.TestSelectionSpec | screens/LearnedScreen.tsx:46-77 | the test has the announced `min(10, count)` words, all learned words, none twice |
| LearnedScreen.UniqueDistinct | screens/LearnedScreen.tsx:11 | entries with unique ids are distinct records |
| LearnedScreen.FilterKeepsUniqueIds | screens/LearnedScreen.tsx:11 | the LEARNED list keeps ids unique |
| LearnedScreen.SubsequenceKeepsUniqueIds | screens/LearnedScreen.tsx:11 | a subsequence keeps ids unique |
| LearnedScreen.Learned.constructor | screens/LearnedScreen.tsx:13-15 | nothing marked, not testing, no test words |
| LearnedScreen.Learned.HandleDeleteSwipe | screens/LearnedScreen.tsx:24-26 | the id is only marked; nothing is deleted |
| LearnedScreen.Learned.ConfirmDelete | screens/LearnedScreen.tsx:35-40 | a marked, non-empty id is deleted and the mark cleared; otherwise nothing happens |
| LearnedScreen.Learned.CancelDelete | screens/LearnedScreen.tsx:42-44 | the mark is cleared and nothing is deleted |
| LearnedScreen.Learned.HandleMoveBackToLearning | screens/LearnedScreen.tsx:28-33 | the list becomes `ReplaceById` with the moved record |
| LearnedScreen.Learned.HandleStartTest | screens/LearnedScreen.tsx:46-52 | testing starts with at most 10 LEARNED entries, as many as announced, no id twice |

## Left out

- The browser's local storage, JSON encoding and parse errors are not modelled as such. Storage is a map whose values are already-decoded lists or an unreadable marker.
- Promises and `await` are not modelled. Each handler runs to completion before the next starts.
- The clock, `Date.now()`, `new Date()` and calendar arithmetic are not modelled. Today's and yesterday's keys, the 105-day calendar and `now` are parameters.
- `Math.random` shuffles are not modelled. Any reordering with the same multiset is accepted.
- `crypto.randomUUID` is not modelled. The new id is a parameter, and uniqueness results are stated for fresh ids.
- `toLocaleString` month names are not modelled. A label carries the month number instead of the Slovak short name.
- `getStats`/`saveStats` are not modelled, because they only read and write JSON in local storage. The `|| 0` and `|| {}` fallbacks have no effect on a record whose fields always exist.
- Loading flags, authentication, alerts, focus timers, feedback toasts other than the cap message, and all rendering are not modelled.
- Text.LowerChar: lower-cases ASCII, Latin-1 and Latin Extended-A letters only, not full Unicode case mapping.
- VocabContext.VocabStore.AddEntry: the reload after adding is modelled as an append of the new record. The repository call it makes has a different signature and is not part of this model.
- ActivityHeatmap.BuildDays: takes the calendar of the last 105 days as input rather than computing it from today's date.
- ActivityHeatmap.MonthLabels: labels carry the month number, not its localised name.
- TestMode.Quiz.Submit: guarded by the states in which the form is rendered and the submit button enabled, not only by the handler's own `feedback` check.
- StatsService.CalculateNewStatsConsistent: the positive streak holds only for consistent stats, which all stats built by the app are.
- The week grid is returned as a sequence of value rows. The source pushes the `currentWeek` array objects themselves, but nothing mutates them after they are pushed, so no aliasing is observable.
