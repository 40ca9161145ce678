# Verified core of a personal automation system

A Dafny model of the parts of the system whose behaviour is hardest to see by reading them: the line diff, the keyed
locks, the front matter format, the local-day arithmetic, the rate limiter, and the algorithms of the regression
harness. Each module follows one source file. Where the source changes variables, a table or an object step by step, the
model is a method or a class, proved against a function or a transition system; the theorems are about those.

| module | source | what is proved |
|---|---|---|
| `Lcs`, `EditScript`, `Hunks`, `HunkShape`, `Diff`, `DiffText` | `core/src/utils/diff.ts` | the matches are a longest common subsequence, the script is minimal, the hunks patch forwards and backwards and show the promised context, what can be read from the text of a diff turns one file into the other, the diff is empty only for equal files |
| `AsyncLock` | `core/src/utils/async-lock.ts` | mutual exclusion, call order, and what an entry of the map means, in every interleaving |
| `KeyOrder`, `MultiLock` | `core/src/utils/file-mutex.ts` | exclusion, deadlock freedom and completion of nested locks, for any lists of keys |
| `AppendFile` | `core/src/utils/file.ts` | concurrent appends, those that fail half-way included, have the effect of running one after the other in lock order |
| `FrontMatter`, `FrontMatterRoundTrip`, `FrontMatterRead` | `core/src/utils/frontmatter.ts` | printing and parsing are inverse, exactly for the metadata that the format can hold; what the parser makes of any text, line and value |
| `Calendar`, `LocalDay`, `LocalDaySteady`, `LocalDayExact`, `LocalDayBack` | `core/src/utils/temporal.ts` | Gregorian day numbers, calendar validity, the midnight search, and exactly which dates and which zones get the right UTC range |
| `RateLimiter` | `core/src/middleware/rate-limiter.ts` | refinement of a log that never forgets, unobservable purging, the sliding-window cap on the admissions actually made |
| `Matching` | both receipt oracles | first-fit matching: injective, sound, maximal, at least half of the best, exact when keys decide |
| `Exchange`, `FirstFitExact`, `FirstFitOnRows` | both receipt oracles | exactly when first fit finds as much as any matching, for fixed drivers and for fixed rows |
| `Names`, `Transcription` | `regression/src/oracles/transcription.ts` | what a verdict of the transcription oracle means, and for exactly which transcripts it decides whether the items can be given rows |
| `MultisetRows` | `regression/src/oracles/structural.ts` | the buckets do not matter, what a verdict means, and for exactly which expected rows it decides whether the rows can be paired |
| `Utf8`, `CutLines`, `TrialRelay`, `TrialMessages` | `regression/src/runner/agent-trial-spawn.ts` | which lines of the worker's text are read back when chunks are cut anywhere, metering does not depend on the cuts, a trial settles once, what a failed trial is charged |
| `CanonicalAmount` | `regression/src/oracles/outcome.ts` | the normal form decides equality of decimal numbers |
| `Text`, `Basics` | | strings as the library functions of the source see them; shared facts |

`dafny verify dfyconfig.toml` checks the whole project.

## How concurrency is modelled

The code between two awaits runs without interruption, so it is one atomic step. `AsyncLock` has the steps enter (lines
21-25 of the source, up to the first await), start, settle (resolved or rejected) and clean (the finally block).
`MultiLock` and `AppendFile` build their steps from these. `After(acts)` is the state after any sequence of actions, each
enabled in its turn; theorems that take `acts` hold for every interleaving. The steps of the lock are tied to its code by
the class `AsyncLock.Lock`, whose two methods update the map with the same functions that the transition system uses.

## Where code and documentation differ

The model follows the code.

- `core/src/utils/diff.ts:8,184` speak of two context lines after a change; lines 161, 185 and 188 keep three, because the
  end of the change is exclusive and the end of the slice is moved one further. `Hunks.End` keeps three.
- `core/src/utils/temporal.ts:104` calls the lower search bound strictly earlier than local midnight. At UTC+14 they are
  equal. `LocalDay.SearchFinds` shows that the result is right anyway.
- `core/src/utils/temporal.ts:94-97` compares dates as strings, so years of three or five digits sort wrongly. The range of a
  date is right for every regular clock exactly from 1000-01-03 to 9999-12-29 (`LocalDayExact.RightExactlyOnSafeDates`), and
  for every regular clock whose offset changes by at most 20 hours while the day is searched for exactly from 1000-01-02 to
  9999-12-30 (`LocalDayExact.RightInSteadyZonesExactly`). Outside these the range is wrong in UTC already.
- `core/src/utils/temporal.ts:11-12` promises boundaries for any zone. A zone that falls back across midnight, as
  America/St_Johns did at 00:01 before November 2011, comes back to a day that has ended, and no range holds that day
  (`LocalDayBack.PutBackHasNoRange`). For a steady clock the range is right exactly when some range is, which is exactly
  when the local date does not go back across the midnight of the day or of the next one
  (`LocalDayBack.RightExactlyWhenDateNeverGoesBack`).
- `core/src/utils/file.ts:60-62,72` has front matter written when the file is created. A creation that fails after opening the file
  leaves part of it, and later calls append to that (`AppendFile.FailedCreationLosesFrontmatter`). The file starts with its
  front matter when the write that creates it comes that far (`AppendFile.MissingFileIsCreatedOnce`).
- `core/src/utils/frontmatter.ts:102` accepts the key `__proto__`, but assigning to it creates no field, so it is lost
  (`FrontMatterRoundTrip.ProtoIsLost`); the exact condition of the round trip excludes it.
- `regression/src/oracles/structural.ts:33-34` says that every numeric field declared on an expected row is checked; the code
  checks the declared value fields only.
- `regression/src/oracles/structural.ts:28` calls the block multiset equality. It is first fit, which can fail on rows that can
  be paired (`MultisetRows.ToleranceCanMissAPairing`). It passes exactly the pairable rows, whatever the actual rows are, if
  and only if of two expected rows of one key that some actual row could satisfy both, the earlier one declares every value
  field of the later one with the same value (`MultisetRows.PassesExactlyThePairableIff`; tolerances and undeclared fields
  are arbitrary).
- `regression/src/oracles/transcription.ts:68` has the same matcher (`Transcription.FirstFitCanMissAPairing`). The line items
  pass exactly when every item can be given a row of its own and every high-confidence row is used, whatever the items are,
  if and only if of two rows of one name and price whose quantities do not conflict, the earlier one declares the quantity
  and unit price of the later one, if it has any, and is of high confidence if the later one is
  (`Transcription.PassesExactlyTheCoverableIff`).
- `regression/src/runner/agent-trial-spawn.ts:237` decodes each chunk by itself, so a character cut in two is replaced, and the
  outcome of a trial can be garbled by it (`TrialRelay.CutGarblesOutcome`). The text is read exactly when no cut falls inside
  a character (`TrialRelay.ReadsTextIffCutsBetween`), and each line exactly when none falls inside a character of that line
  (`CutLines.LinesSurviveCuts`), so that meters and the presence of a result survive every cut.
- `regression/src/runner/agent-trial-spawn.ts:8-9,192-193` promise that a failed trial is charged the last meter reported. A
  meter line cut off before its newline is charged only when no earlier meter line ended
  (`TrialRelay.ChargedIsLastMeter` gives the exact condition, `TrialRelay.UnendedMeterIsNotCharged` the case).

## Model

| member | source | states |
|---|---|---|
| Text.SplitInjective | core/src/utils/diff.ts:16-18 | two strings that split into the same lines are the same string |
| Text.LessIff | core/src/utils/file-mutex.ts:22 | one string is before another exactly when it is a proper start of it or smaller at the first character that differs |
| Text.TrimIs | core/src/utils/frontmatter.ts:93-108 | trimming removes the white space around a text and nothing else |
| Text.SpacesAre | core/src/utils/frontmatter.ts:26 | which characters are white space, by code point |
| Text.SplitConcat | regression/src/runner/agent-trial-spawn.ts:236-251 | splitting a stream in two pieces: the unended rest of the first is completed by the second |
| Text.SplitAfterJoin | core/src/utils/frontmatter.ts:50-51 | splitting joined lines gives the lines back, when none holds the separator |
| Lcs.LenIsUpperBound | core/src/utils/diff.ts:70-81 | no common subsequence of two prefixes is longer than their table entry |
| Lcs.BacktrackIsBest | core/src/utils/diff.ts:83-100 | the walk back through the table yields increasing pairs of equal lines, as many as the table entry |
| Lcs.MatchesAreLongest | core/src/utils/diff.ts:65-101 | the matches are a common subsequence and every other one is at most as long |
| Lcs.LastMatchIsTaken | core/src/utils/diff.ts:87-98 | the matches before the last one are those taken for the two prefixes above it |
| Lcs.LastMatchIsLatest | core/src/utils/diff.ts:87-98 | of all longest common subsequences one is taken whose last match is furthest down in `before`; with the row above this fixes what happens on ties |
| Lcs.FullLengthIsIdentity | core/src/utils/diff.ts:23-26 | two files of one length are equal exactly when the matches are that many |
| Lcs.FillRow | core/src/utils/diff.ts:74-80 | the inner loop completes one row of the table with the right lengths and changes no later row |
| Lcs.FillTable | core/src/utils/diff.ts:70-81 | every cell holds the length of a longest common subsequence of its two prefixes |
| Lcs.ComputeLcs | core/src/utils/diff.ts:65-101 | the table and the walk back together compute the specified matches |
| EditScript.ScriptLeads | core/src/utils/diff.ts:112-147 | for any matches the script visits every line of both files once, in order, and costs what the matches leave unmatched |
| EditScript.DiffOpsLead | core/src/utils/diff.ts:103-147 | the script of the computed matches visits all of both files and costs both lengths less twice the longest common length |
| EditScript.ScriptIsMinimal | core/src/utils/diff.ts:103-147 | no script, however written, that turns one file into the other removes and adds fewer lines |
| EditScript.BuildOps | core/src/utils/diff.ts:112-147 | the loops push that script, for any matches of the two files |
| Hunks.RegionsPartition | core/src/utils/diff.ts:150-189 | grouping cuts the script into separate regions that together hold every change, with context only in between |
| Hunks.FindChangeEnd | core/src/utils/diff.ts:161-182 | the nested look-ahead loops extend a change over gaps of at most four context lines and stop at the first longer one |
| Hunks.MeasureHunk | core/src/utils/diff.ts:191-222 | the minimum and maximum loops give the start and count of each side and the text of each line |
| Hunks.GroupHunks | core/src/utils/diff.ts:150-225 | the outer loop produces one hunk for each region, in order |
| Hunks.BuildHunks | core/src/utils/diff.ts:103-228 | the whole function, from matches to hunks |
| Hunks.PatchTurnsBeforeIntoAfter | core/src/utils/diff.ts:103-228 | a strict patch, which checks every header position and every context and removed line, turns `before` into `after` |
| Hunks.ReversePatchRestoresBefore | core/src/utils/diff.ts:103-228 | the hunks read backwards turn `after` into `before`, so the diff loses nothing |
| Hunks.ChangesAreInOneHunk | core/src/utils/diff.ts:149-189 | hunks are ordered and disjoint, their changes are five or more context lines apart, and every change lies in exactly one |
| Hunks.HeadersCountLines | core/src/utils/diff.ts:191-212 | header counts equal the lines below them, and a zero count or start occurs exactly when that whole file is empty |
| HunkShape.HunksHaveContext | core/src/utils/diff.ts:149-222 | every hunk starts with two context lines or at the start of both files, ends with three or at their ends, and lists removed lines before added ones |
| Diff.LinesInInjective | core/src/utils/diff.ts:16-18 | two files have the same line lists exactly when they are the same string, the empty file included |
| Diff.NoHunksMeansEqual | core/src/utils/diff.ts:23-33 | there are no hunks exactly when the files are equal, so both early exits are for equal files only |
| Diff.WhereItIsCut | core/src/utils/diff.ts:42-52 | up to 3000 characters nothing is cut; longer output keeps the text before the last newline within 3000 characters, or 3000 characters when there is none, and then the notice, given word for word |
| Diff.CutDiffKeepsWholeLines | core/src/utils/diff.ts:35-54 | with a path shorter than 1490 characters a cut diff keeps its header and whole lines only, in at most 3022 characters |
| Diff.RenderDiff | core/src/utils/diff.ts:35-54 | the loop renders header and hunks in order and cuts the result; what the text means is in the rows of DiffText |
| DiffText.FormatIsRead | core/src/utils/diff.ts:230-239 | a reader of decimal headers, kept, dropped and inserted lines gets the hunks back from their text |
| DiffText.TextTurnsBeforeIntoAfter | core/src/utils/diff.ts:11-55 | the uncut text is the two file names and hunks that, as read, turn `before` into `after`; up to 3000 characters it is the whole result |
| Diff.DiffLines | core/src/utils/diff.ts:20-33 | empty for equal line lists, otherwise all their hunks rendered |
| Diff.GenerateDiff | core/src/utils/diff.ts:11-55 | the result is empty if and only if the two files are equal |
| AsyncLock.Lock.RunUntilAwait | core/src/utils/async-lock.ts:21-25 | chains onto the old tail of the key and becomes its tail, other keys untouched |
| AsyncLock.Lock.Finally | core/src/utils/async-lock.ts:28-34 | removes the entry only if this promise is still the tail |
| AsyncLock.StepKeepsInv | core/src/utils/async-lock.ts:20-35 | every step keeps the order of sections, the links between them and the meaning of every tail |
| AsyncLock.AtMostOneRuns | core/src/utils/async-lock.ts:20-35 | in every interleaving at most one section per key runs |
| AsyncLock.StartsInCallOrder | core/src/utils/async-lock.ts:22-24 | a section can start exactly when all earlier calls on its key have settled, successfully or not, and never before |
| AsyncLock.EntriesTrackSections | core/src/utils/async-lock.ts:28-34 | without an entry nothing of the key is queued or running, an entry names a section still to be cleaned, and when all is done the map is empty |
| KeyOrder.LessIsTotal | core/src/utils/file-mutex.ts:22 | the order of keys is total and irreflexive |
| KeyOrder.CanonicalAscends | core/src/utils/file-mutex.ts:22 | removing duplicates and sorting gives a strictly ascending list, for any list of keys |
| MultiLock.StepKeepsInv | core/src/utils/file-mutex.ts:21-30 | every step keeps each task's phase in agreement with the state of all of its sections |
| MultiLock.BodiesExclude | core/src/utils/file-mutex.ts:21-30 | two bodies whose key lists share a key never run at the same time |
| MultiLock.DeadlockFree | core/src/utils/file-mutex.ts:16-30 | in every reachable state with an unfinished task some step is enabled |
| MultiLock.CrossedListsDeadlock | core/src/utils/file-mutex.ts:16-22 | without the sort two tasks with crossed lists reach a state in which nobody can move |
| MultiLock.StepDropsTotal | core/src/utils/file-mutex.ts:21-30 | every step brings a measure of all tasks down |
| MultiLock.EveryRunCompletes | core/src/utils/file-mutex.ts:21-30 | every run is bounded, a run that can go no further has finished every task, and the lock's map is then empty |
| AppendFile.StepKeepsInv | core/src/utils/file.ts:92-110 | every step, look-ups and writes that fail at any point included, keeps each file equal to what the calls that opened it would leave one after the other |
| AppendFile.WriteExtends | core/src/utils/file.ts:105-109 | a write comes last in the line of its own file, and changes the line of no other |
| AppendFile.AppendsAreLinear | core/src/utils/file.ts:74-111 | in every interleaving, at every moment, each file is the result of the calls that opened it run one after the other in lock order, each writing as much as it did |
| AppendFile.FrontmatterIsWhole | core/src/utils/file.ts:105-106 | what a write leaves of a new file starts with the whole front matter if and only if the write came that far |
| AppendFile.MissingFileIsCreatedOnce | core/src/utils/file.ts:74-111 | whoever has written and whoever has failed at any point, a missing file is what the first call to open it left and then the contents of the later ones in lock order, or still missing; it has its front matter exactly when that first write came so far |
| AppendFile.FailedCreationLosesFrontmatter | core/src/utils/file.ts:92-110 | a creation that fails once the file is open makes the next call append without front matter |
| FrontMatter.UnquoteInvertsQuote | core/src/utils/frontmatter.ts:134-151 | unquoting inverts quoting on every string, the two-pass escape of backslashes and quotes included |
| FrontMatter.GenerateFrontmatter | core/src/utils/frontmatter.ts:33-52 | the loops print the delimiters and every field that is kept |
| FrontMatter.ParseFrontmatter | core/src/utils/frontmatter.ts:59-116 | the line loop with its pending key and array computes the specified document, missing delimiters included |
| FrontMatterRoundTrip.ParsedIsStorable | core/src/utils/frontmatter.ts:85-113 | whatever the parser returns, for any input, has identifier keys and one-line values |
| FrontMatterRoundTrip.MetaIsRead | core/src/utils/frontmatter.ts:85-113 | the lines of a printed block, with either line end, are read back as the kept fields |
| FrontMatterRoundTrip.CloseIsFound | core/src/utils/frontmatter.ts:65-72 | the search for the closing delimiter finds the printed one, however the body continues |
| FrontMatterRoundTrip.RoundTrip | core/src/utils/frontmatter.ts:33-116 | for any metadata and any body, parsing the printed block followed by the body returns the kept fields and the body if and only if every kept field has an identifier key other than `__proto__` and values without line terminators |
| FrontMatterRoundTrip.ProtoIsLost | core/src/utils/frontmatter.ts:102-112 | a field named `__proto__` does not survive, though its name is an identifier |
| FrontMatterRoundTrip.CrlfRoundTrip | core/src/utils/frontmatter.ts:64-86 | a printed block whose newlines became carriage return and newline reads back the same |
| FrontMatterRead.NoBlockIsContent | core/src/utils/frontmatter.ts:59-69 | without an opening line, or without a closing delimiter after it, the whole text is content and there are no fields |
| FrontMatterRead.BlockThenContent | core/src/utils/frontmatter.ts:59-116 | any other text is the opening line, a block up to the first closing delimiter, at most one line end, and the content; the fields are those of the lines of the block |
| FrontMatterRead.NothingIsRead | core/src/utils/frontmatter.ts:81-83 | before the first line there are no fields, and no key to which an item could belong |
| FrontMatterRead.LineIsRead | core/src/utils/frontmatter.ts:85-113 | what any line does: an item after a key adds to its list, a pair sets its field in place or at the end, any other line is ignored and ends a list |
| FrontMatterRead.ValueIsRead | core/src/utils/frontmatter.ts:143-151 | a value between two equal quotes, single or double, is what is between them with escapes undone; any other is itself |
| FrontMatterRead.ValueIsPrinted | core/src/utils/frontmatter.ts:134-141 | a value is printed bare exactly when it is not empty, has no outer white space, no special character, and is none of the five words in any case |
| FrontMatterRead.TwoPassesAreOne | core/src/utils/frontmatter.ts:138 | the two passes of the escape put one backslash before every backslash and double quote |
| FrontMatterRead.SingleQuotedField | core/src/utils/frontmatter.ts:59-116 | a file with one single-quoted field and any body reads as that field and body |
| FrontMatterRead.FieldsArePrinted | core/src/utils/frontmatter.ts:33-52 | the text of a block with a scalar, with a list, and with an undefined, null or empty field |
| Calendar.CivilDateIsReal | core/src/utils/temporal.ts:146-154 | every day number is the number of a real Gregorian date |
| Calendar.CivilDateInverts | core/src/utils/temporal.ts:146-154 | every real date is recovered from its day number |
| Calendar.SmallerIsEarlier | core/src/utils/temporal.ts:146-154 | day numbers order dates as year, month and day do |
| Calendar.MonthStartIs | core/src/utils/temporal.ts:146-154 | where each month starts in its year, by a formula without month lengths |
| Calendar.DayNumbersCount | core/src/utils/temporal.ts:146-154 | day numbers count from 1 January 1970 over Gregorian years and months |
| Calendar.StrictIsReal | core/src/utils/temporal.ts:135-157 | a string is accepted exactly when it is four, two and two digits for a year from 100 on, a month, and a day that this month has, with the lengths written out |
| LocalDay.FindLocalMidnight | core/src/utils/temporal.ts:57-123 | the search loop ends with the specified instant |
| LocalDay.LocalDayToUtcRange | core/src/utils/temporal.ts:21-44 | the range runs from the midnight of the date to the midnight of the next calendar date |
| LocalDay.SearchFinds | core/src/utils/temporal.ts:103-122 | halving the interval and rounding down finds a whole-second boundary anywhere in the interval, its lower end included |
| LocalDay.WrittenInOrder | core/src/utils/temporal.ts:94-97 | between years 1000 and 9999 the string comparison is the order of dates |
| LocalDay.MidnightIsFirst | core/src/utils/temporal.ts:57-123 | the search finds the first instant of the local date, whatever the zone does where the search does not read, if the date does not go back across this midnight |
| LocalDaySteady.MidnightIsFirstWhenSteady | core/src/utils/temporal.ts:57-123 | with offset changes of at most 20 hours the search is also right for the second four-digit day and the last |
| LocalDayExact.DayMembership | core/src/utils/temporal.ts:21-44 | an instant is in the range of a date exactly when its local date is that date, for every clock that is regular where the two searches read, and dates from 1000-01-03 to 9999-12-29, one day further on both sides for steady clocks |
| LocalDayExact.DaysTile | core/src/utils/temporal.ts:21-44 | consecutive days meet without gap or overlap |
| LocalDayExact.RightExactlyOnSafeDates | core/src/utils/temporal.ts:21-123 | the range is right for every clock that is regular around the day if and only if the date is from 1000-01-03 to 9999-12-29 |
| LocalDayExact.RightInSteadyZonesExactly | core/src/utils/temporal.ts:21-123 | the range is right for every such clock whose offset changes by at most 20 hours meanwhile if and only if the date is from 1000-01-02 to 9999-12-30 |
| LocalDayBack.RangeMeansNeverBack | core/src/utils/temporal.ts:11-20 | a day of a steady clock that has a range at all has a date that does not go back across either midnight |
| LocalDayBack.RightExactlyWhenDateNeverGoesBack | core/src/utils/temporal.ts:21-123 | for one steady clock and one date from 1000-01-02 to 9999-12-30, the range is right if and only if the date does not go back across the two midnights, and if and only if any range is right |
| LocalDayBack.PutBackHasNoRange | core/src/utils/temporal.ts:11-20 | a clock put back by an hour a minute past midnight: for this day and the one before no range is right |
| RateLimiter.StepRefines | core/src/middleware/rate-limiter.ts:57-188 | every call gets the answer that a log which never forgets would give, and keeps the agreement |
| RateLimiter.RunRefinesLog | core/src/middleware/rate-limiter.ts:57-188 | the same over whole runs with any interleaving of calls, tickets, revocations, resets and purges |
| RateLimiter.PurgesAreUnobservable | core/src/middleware/rate-limiter.ts:164-188 | two runs that differ only in purges give the same answers |
| RateLimiter.InsertedPurgeIsUnobservable | core/src/middleware/rate-limiter.ts:164-188 | a purge inserted anywhere changes no answer |
| RateLimiter.AnswersCountTheLog | core/src/middleware/rate-limiter.ts:57-114 | a call is let through exactly when fewer than the maximum of logged admissions are later than now less the window, isAllowed and check agree, and the remaining count is what is left of the maximum |
| RateLimiter.SpacedMeansCapped | core/src/middleware/rate-limiter.ts:82-101 | admissions of which any maximum plus one span the window never exceed the cap in any window |
| RateLimiter.StepIsRemembered | core/src/middleware/rate-limiter.ts:57-136 | the history of what the limiter itself adds and pops keeps the same window as its entries, and admissions spaced |
| RateLimiter.EntriesAreNewest | core/src/middleware/rate-limiter.ts:57-188 | in every run the entries of a key are the newest of its history, so a revocation pops the newest admission |
| RateLimiter.CapHolds | core/src/middleware/rate-limiter.ts:57-162 | in every run no window holds more than the maximum of the admissions that the limiter itself made and did not revoke since the key's reset; disposing forgets all keys, as a reset does, although isAllowed goes on admitting |
| RateLimiter.WindowActsWhole | core/src/middleware/rate-limiter.ts:35-40 | with whole times a fractional window holds the same times as the next whole one |
| RateLimiter.Limiter.Create | core/src/middleware/rate-limiter.ts:30-40 | refuses a non-positive maximum or window, fractional windows included, otherwise starts empty |
| RateLimiter.Limiter.IsAllowed | core/src/middleware/rate-limiter.ts:82-101 | the answer and the whole new map |
| RateLimiter.Limiter.GetRemainingAttempts | core/src/middleware/rate-limiter.ts:106-114 | counted and remaining attempts add up to the maximum while there is room, and nothing is changed |
| RateLimiter.Limiter.Reset | core/src/middleware/rate-limiter.ts:119-121 | the key is gone and nothing else changed |
| RateLimiter.Limiter.RevokeLastCommit | core/src/middleware/rate-limiter.ts:128-136 | the newest entry of the key is gone, unless disposed |
| RateLimiter.Limiter.PurgeExpiredForKey | core/src/middleware/rate-limiter.ts:165-175 | one key keeps its window, or disappears when that is empty |
| RateLimiter.Limiter.PurgeExpiredAll | core/src/middleware/rate-limiter.ts:178-188 | the loop leaves every key with its window and no empty key |
| RateLimiter.Limiter.Check | core/src/middleware/rate-limiter.ts:57-75 | no ticket when disposed, otherwise a fresh one, with only expired entries of the key removed |
| RateLimiter.CommitTicket.Commit | core/src/middleware/rate-limiter.ts:64-73 | records at most once per ticket, re-checks the room, and does nothing when disposed; the clock is read once for the purge and once for the entry |
| RateLimiter.Limiter.Dispose | core/src/middleware/rate-limiter.ts:155-162 | no entries are left |
| Matching.GreedyIsMatching | regression/src/oracles/transcription.ts:68-87 | first fit gives every row to at most one driver, each pair satisfies the predicate, and the rows left are exactly those given to nobody |
| Matching.GreedyIsMaximal | regression/src/oracles/transcription.ts:68-87 | a driver without a row is satisfied by no row left over |
| Matching.GreedyIsHalfOfBest | regression/src/oracles/transcription.ts:68-87 | first fit pairs at least half as many drivers as any matching |
| Matching.HalfIsReached | regression/src/oracles/transcription.ts:68-87 | the bound is reached: an eager first driver can take the only row of the second |
| Matching.UnmatchedFitsNoRest | regression/src/oracles/structural.ts:179-197 | maximality on the values reported |
| Matching.NothingLeftIsPairing | regression/src/oracles/structural.ts:199-206 | with nothing left on either side the choice is one to one and onto |
| Matching.LeftoversAreExcess | regression/src/oracles/structural.ts:170-198 | when keys decide, what is left on each side is the excess of that side, key by key |
| Matching.ExactWhenKeysDecide | regression/src/oracles/structural.ts:170-206 | when keys decide, nothing is left exactly when both sides have the same multiset of keys |
| Matching.FirstRowsOfEachKeyGo | regression/src/oracles/transcription.ts:68-87 | when keys decide, a row is left exactly when at least as many earlier rows have its key as there are drivers of it |
| Matching.SameRelation | regression/src/oracles/transcription.ts:68-87 | what first fit leaves depends only on which rows satisfy which drivers |
| Exchange.BestWhenRowsExchange | regression/src/oracles/transcription.ts:68-87 | when a row that a driver passes on can be replaced by any later row it fits, first fit leaves no more drivers than any matching |
| Exchange.FullWhenRowsExchange | regression/src/oracles/transcription.ts:68-115 | and it serves every driver and takes every row that must be taken whenever some matching does |
| FirstFitExact.BestOnAllRowsIffNested | regression/src/oracles/structural.ts:170-198 | first fit pairs as many of these drivers as any matching, whatever the rows, if and only if of two drivers that share a row the later one fits all rows of the earlier one |
| FirstFitExact.FindsEveryPairingIffNested | regression/src/oracles/structural.ts:170-206 | first fit leaves nothing exactly when everything can be paired, whatever the rows, if and only if the drivers nest or one of them fits no row |
| FirstFitOnRows.SucceedsWheneverPossibleIff | regression/src/oracles/transcription.ts:68-115 | first fit succeeds exactly when some matching does, whatever the drivers, if and only if the rows nest and those that must be taken come first |
| Names.SameNameMeansSameWords | regression/src/oracles/transcription.ts:17-19 | two normalised names are equal exactly when the lower-case names are the same words in the same order |
| Transcription.SatisfiedIff | regression/src/oracles/transcription.ts:17-48 | a line satisfies a row if and only if the words of the names, the rounded cents and the declared quantity are equal and unit prices given on both sides are at most 0.010000001 apart |
| Transcription.CheckFinite | regression/src/oracles/transcription.ts:54-64 | passes exactly when the total and all item numbers are finite, otherwise names the first item with one that is not, and of its price, quantity and unit price the first |
| Transcription.FindRow | regression/src/oracles/transcription.ts:72-80 | finds the first row left that the line satisfies |
| Transcription.MatchLines | regression/src/oracles/transcription.ts:68-87 | the nested loops compute what first fit leaves on both sides |
| Transcription.DiagnoseLines | regression/src/oracles/transcription.ts:89-115 | one diagnosed failure for each unmatched item, one for each high-confidence row left |
| Transcription.DiagnosisSays | regression/src/oracles/transcription.ts:89-106 | an unmatched item is hallucinated exactly when no row has its words and cents; otherwise the failure names what is wrong with the first that has |
| Transcription.MissingAreHighRows | regression/src/oracles/transcription.ts:108-115 | each high-confidence row left is reported as often as it is left, and no other |
| Transcription.TotalsAreRight | regression/src/oracles/transcription.ts:117-132 | there is no failure of the totals exactly when subtotal, tax and total, where given on both sides, are finite and within 0.010000001, and one failure for each that is not |
| Transcription.RunTranscriptionOracle | regression/src/oracles/transcription.ts:50-138 | an error exactly when the total or a number of an item is not finite; a pass exactly when first fit, over agreement as in SatisfiedIff, serves every item and leaves no high-confidence row, and the totals are right |
| Transcription.PassCoversEveryHighRow | regression/src/oracles/transcription.ts:68-115 | a pass gives each item a row of its own that it satisfies, and covers every high-confidence row |
| Transcription.FailedItemsAtMostHalf | regression/src/oracles/transcription.ts:68-105 | the items without a failure are at least half of any matching |
| Transcription.FailedItemsFitNothingLeft | regression/src/oracles/transcription.ts:68-115 | a failed item satisfies no row left over |
| Transcription.ExactWhenAllHigh | regression/src/oracles/transcription.ts:29-115 | with high-confidence rows without quantity and unit price, no line failure exactly when the multisets of name and cents are equal |
| Transcription.ExactWithLowRows | regression/src/oracles/transcription.ts:29-115 | with any confidences, no line failure exactly when the rows list every parsed name and price often enough and each high-confidence row is among the first that many of its kind |
| Transcription.PassesExactlyTheCoverableIff | regression/src/oracles/transcription.ts:29-115 | the line items pass exactly when every item can be given a row with every high-confidence row among them, whatever the items, if and only if overlapping rows come in the order stated above |
| Transcription.FirstFitCanMissAPairing | regression/src/oracles/transcription.ts:68-105 | with a quantity, two items can have a row each and the oracle still reports a failure |
| MultisetRows.BucketExpected | regression/src/oracles/structural.ts:135-148 | the map holds the rows of each key in order, or the first row without a string key is returned |
| MultisetRows.BucketActual | regression/src/oracles/structural.ts:149-169 | the same for actual rows, where rows without a string key are skipped and the first bad number is returned |
| MultisetRows.FindRow | regression/src/oracles/structural.ts:180-190 | finds the first actual row within tolerance in every declared field |
| MultisetRows.AssignBucket | regression/src/oracles/structural.ts:177-197 | the loops compute what first fit leaves on both sides of a bucket |
| MultisetRows.AssignAll | regression/src/oracles/structural.ts:170-206 | missing rows are reported before extra rows, over the buckets in key order |
| MultisetRows.SatisfiesIff | regression/src/oracles/structural.ts:180-190 | an expected row is satisfied if and only if the keys are equal and each declared value field holds two numbers at most the tolerance apart |
| MultisetRows.KeyedAreObjectsWithKey | regression/src/oracles/structural.ts:152-156 | the rows that count are the objects with a string key, as often as they occur |
| MultisetRows.OrderIsByFirstRow | regression/src/oracles/structural.ts:135-176 | keys are visited in the order of their first rows |
| MultisetRows.CheckMultisetRows | regression/src/oracles/structural.ts:130-207 | which of the verdicts is given when: no array, an expected row without key, a value that is no finite number, missing rows exactly when first fit leaves an expected row, and a pass exactly when it leaves nothing on either side |
| MultisetRows.RestInBuckets | regression/src/oracles/structural.ts:170-198 | the buckets leave the rows that first fit over the whole lists with equal keys would leave |
| MultisetRows.UnmatchedInBuckets | regression/src/oracles/structural.ts:170-198 | the buckets miss the rows that first fit over the whole lists would miss |
| MultisetRows.KeysAreVisitedOnce | regression/src/oracles/structural.ts:175-178 | every key of a row is visited, and once |
| MultisetRows.ReportedCounts | regression/src/oracles/structural.ts:170-206 | as many rows are reported as first fit over the whole lists leaves |
| MultisetRows.PassIsOneToOne | regression/src/oracles/structural.ts:170-207 | a pass pairs all expected rows one to one with all actual rows of a string key, with equal keys and fields in tolerance |
| MultisetRows.MissingFitsNoExtra | regression/src/oracles/structural.ts:170-206 | no missing row would be satisfied by an extra row |
| MultisetRows.FoundIsHalfOfBest | regression/src/oracles/structural.ts:170-198 | the rows found are at least half of any matching |
| MultisetRows.ExactRows | regression/src/oracles/structural.ts:130-207 | with zero tolerances and all value fields declared, a pass exactly when both sides are the same multiset of keys and values |
| MultisetRows.NestIffDecided | regression/src/oracles/structural.ts:180-190 | the expected rows nest exactly when the condition on their declared fields and tolerances holds |
| MultisetRows.PassesExactlyThePairableIff | regression/src/oracles/structural.ts:130-207 | the block passes exactly the rows that can be paired one to one, whatever the actual rows, if and only if that condition holds or an expected row cannot be satisfied |
| MultisetRows.ToleranceCanMissAPairing | regression/src/oracles/structural.ts:170-206 | with a tolerance, rows that can be paired one to one can fail |
| Utf8.DecodeAfterEncode | regression/src/runner/agent-trial-spawn.ts:237 | whatever bytes follow, the encoding of a text decodes to that text |
| Utf8.ChunksDecodeIffCutsBetween | regression/src/runner/agent-trial-spawn.ts:236-238 | decoding an encoded text chunk by chunk gives the text back if and only if no cut falls inside a character |
| Utf8.CompleteIsEncoded | regression/src/runner/agent-trial-spawn.ts:237 | bytes that are read as a character are exactly its encoding, so no overlong form, surrogate or number too large is |
| Utf8.IncompleteIsReplaced | regression/src/runner/agent-trial-spawn.ts:237 | other bytes are replaced by the longest piece that starts a character, or one by one |
| Utf8.CutCharacterIsLost | regression/src/runner/agent-trial-spawn.ts:236-238 | a two-byte character cut apart becomes two replacements |
| CutLines.DecodeApart | regression/src/runner/agent-trial-spawn.ts:237 | no character, broken or not, reaches past a byte at which a character starts |
| CutLines.LinesSurviveCuts | regression/src/runner/agent-trial-spawn.ts:236-248 | whatever the cuts, the lines of the text are read one for one, each right if and only if none of its own characters is cut |
| CutLines.AsciiIsReadRight | regression/src/runner/agent-trial-spawn.ts:236-248 | a line of ASCII is read right whatever the cuts |
| TrialRelay.ParseWorkerStdout | regression/src/runner/agent-trial-spawn.ts:57-78 | the last result and the last meter over all lines |
| TrialRelay.Trial.OnData | regression/src/runner/agent-trial-spawn.ts:236-251 | decodes the bytes of the chunk alone, relays the meters of the lines that it ends, in order, and keeps the unended rest |
| TrialRelay.Trial.Settle | regression/src/runner/agent-trial-spawn.ts:225-231 | the first call resolves and leaves the registry, later calls do nothing |
| TrialRelay.Trial.Fail | regression/src/runner/agent-trial-spawn.ts:194-200 | charges the last relayed meter, else the last meter of the output, else zero; by the message fields in ResolvesWithWhatLinesSay |
| TrialRelay.Trial.OnTimeout | regression/src/runner/agent-trial-spawn.ts:232-235 | settles as timed out |
| TrialRelay.Trial.OnError | regression/src/runner/agent-trial-spawn.ts:255 | settles as failed to start |
| TrialRelay.Trial.OnClose | regression/src/runner/agent-trial-spawn.ts:256-259 | settles with the worker's result if there is one |
| TrialRelay.RelaysWholeStream | regression/src/runner/agent-trial-spawn.ts:236-251 | whatever comes between the chunks, the meters relayed are those of the ended lines of the whole stream as decoded, once each and in order |
| TrialRelay.ReadsTextIffCutsBetween | regression/src/runner/agent-trial-spawn.ts:236-238 | the relay has read the text the worker wrote if and only if no chunk was cut inside a character |
| TrialRelay.ChunksAreUnobservable | regression/src/runner/agent-trial-spawn.ts:236-251 | two ways to cut one text anywhere give the same meters and charge, and between its characters the same relay |
| TrialRelay.MetersSurviveCuts | regression/src/runner/agent-trial-spawn.ts:194-251 | however the text is cut, the meters relayed are those of the ended lines as written, and a failed trial is charged as for the text as written; only lines of ASCII may be meter lines |
| TrialRelay.ResultSurvivesCuts | regression/src/runner/agent-trial-spawn.ts:57-78 | however the text is cut, a result is found exactly when one was written |
| TrialRelay.CutGarblesOutcome | regression/src/runner/agent-trial-spawn.ts:236-259 | a trial whose result line is cut inside a character resolves with the outcome of the line with replacements |
| TrialRelay.SettlesExactlyOnce | regression/src/runner/agent-trial-spawn.ts:224-259 | in any order of events the trial resolves once, at the first timeout, error or close, with the outcome of that moment |
| TrialRelay.ChargedIsLastMeter | regression/src/runner/agent-trial-spawn.ts:192-198 | a failed trial is charged the last meter of its output except exactly when an ended meter line is followed by a different unended one |
| TrialRelay.UnendedMeterIsNotCharged | regression/src/runner/agent-trial-spawn.ts:192-198 | the exception happens |
| TrialMessages.RelayedSayWhatLinesSay | regression/src/runner/agent-trial-spawn.ts:44-55 | in every run the k-th meter relayed has the cost and token counts of the k-th ended line that is a meter message, and no other line relays anything |
| TrialMessages.ResolvesWithWhatLinesSay | regression/src/runner/agent-trial-spawn.ts:57-78 | a trial resolves with the outcome of the last result message, or fails and is charged the figures of the last ended meter message, or else of an unended one, or else nothing |
| CanonicalAmount.CanonicalKeepsValue | regression/src/oracles/outcome.ts:127-133 | the normal form is a token of the same number without needless zeros |
| CanonicalAmount.SameFormMeansSameNumber | regression/src/oracles/outcome.ts:127-133 | two tokens have the same normal form exactly when they denote the same number |
| CanonicalAmount.CanonicalIsIdempotent | regression/src/oracles/outcome.ts:127-133 | normalising twice is normalising once |
| CanonicalAmount.CanonicalIsShortest | regression/src/oracles/outcome.ts:127-133 | no token of the same number is shorter |

## Left out

- Text: a Dafny character is a whole Unicode character, where the source indexes UTF-16 code units; no modelled rule looks inside
  a surrogate pair, but the lengths in `Diff.RenderDiff` and the order in `KeyOrder.CanonicalAscends` are by character.
- FrontMatter: lower-casing in the quoting rule covers ASCII letters, which is all the words it looks for need; wiki-links are not modelled.
- LocalDay: the zone is a function from UTC to local time. From 14 hours before the UTC midnight of the day to 14 hours after that
  of the next one its offsets are from -12 to +14 hours and its date changes on whole seconds; at all other times it only
  must not show the date in question. Formatting by the platform and ISO output of the result are not modelled.
- LocalDay.LocalDayToUtcRange: requires a date that passed `isCalendarStrict`, which is what its callers pass.
- RateLimiter: times are whole milliseconds, and the window is the next whole number; the timer that starts periodic purges is
  not modelled: purges may happen at any time instead.
- RateLimiter.CapHolds: a clock that goes back is excluded by the ordered trace; the source reads the wall clock.
- AsyncLock: a section never calls the same lock again from inside itself, except through the nesting of `MultiLock`; the lock is not
  re-entrant, and such a call would wait for ever.
- MultiLock.EveryRunCompletes: every critical section settles; one that never does holds its locks for ever.
- AppendFile: a write that fails breaks off between two characters, and there is no other writer.
  Directory creation, canonical paths and `atomicWrite` with its retries are not modelled; a path stands for its canonical
  lock key.
- Transcription: numbers are reals instead of floating point, so the micro-tolerance is exact; lower-casing is a parameter.
  Failures are kinds with their item or row; their wording is not modelled.
- MultisetRows: the look-up of the path itself, the schema check and the other blocks of the structural oracle are not
  modelled; numbers are reals.
- TrialRelay: parsing JSON is a parameter that may fail; bytes that are not UTF-8 are replaced as section 8.1.1 of the
  Encoding Standard says, which the runtime's decoder follows. Standard error, process signals, the liveness pipe and the
  durations in outcomes are left out.
- CanonicalAmount: the search for numbers in a reply and the printing of the wanted number are not modelled; the theorems are about
  the tokens that search can find.
- HTTP, the GUI, the command line, bootstrap and chat handlers: wiring over services outside the files modelled here.
- Shutdown, budgets, slugs, model ids and error classification: a counter or a few branches each.
