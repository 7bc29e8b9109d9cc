# Interview-prep review scheduler, modelled in Dafny

This project models the core of a command-line tool for practising coding-interview problems:

- the spaced-repetition scheduler and its queries over the `review_schedule` table (src/database.py);
- the per-problem success rate over `submissions`;
- the difficulty/tag filter, the INSERT OR IGNORE problem load and the tag counts over `problems`;
- the value-level helpers of the command line (src/cli.py);
- the clean-up of the model's reply in src/ai_reviewer.py.

The model takes these forms:

- The `problems` and `review_schedule` tables are Dafny maps keyed by their primary keys. The `submissions` table is a sequence in insertion order, because its key is an autoincrement id that nothing here looks up.
- Dates are integer day numbers, and "today" is a parameter.
- A missing row, and a SQL NULL in the nullable columns the model keeps (`last_reviewed`, `passed`, `ai_feedback`), is `Option.None`. The text columns of `problems` are plain strings; see "## Left out".
- The table updated in place by `update_review_schedule` is a class with a `map` field (`Scheduler.ReviewStore`). The update is a method proved against the pure transition `Scheduler.Advance`.
- The streak is a `while` loop, as in the source. So are the counting loops of `get_all_tags`, the clause-building loop of `_build_filter_clause` and the load loop of `load_problems_from_json`.
- The filters, counts and text helpers are functions.

Modules:

- `wrappers.dfy` (`Wrappers`): `Option` and a primary-key lookup.
- `text.dfy` (`Text`): the Python `str` behaviour the code relies on:
  - `isspace`, `strip`, `split` on one character, `startswith`/`endswith`;
  - code-point string order;
  - `str(int)`.
- `scheduler.dfy` (`Scheduler`):
  - the interval ladder and the update;
  - the table-wide ladder invariant;
  - replays of outcome sequences;
  - the due list, the due count, the reviewed count, the streak and the review info.
- `submissions.dfy` (`Submissions`): the success rate.
- `problems.dfy` (`Problems`): the filter, the load and the tag listing.
- `cli.dfy` (`Cli`):
  - tag parsing and the difficulty check;
  - the `mark` classifier and command;
  - the review label of `list`;
  - the "last reviewed" and success-rate lines of `review`.
- `ai_reviewer.dfy` (`AiReviewer`): `_strip_markdown_fences`.

Where the description of the tool and the code differ, the model follows the code:

- The `--difficulty` check (src/cli.py:88, :117) tests `if difficulty and …`. So an empty string passes the check, as does an absent option, and then adds no filter (src/database.py:99). `Cli.DifficultyAccepted` accepts both.
- `INSERT OR IGNORE` also skips a row that breaks the `CHECK(difficulty IN (…))` constraint (src/database.py:40). Such a row is neither stored nor counted.
- Only each problem's latest review day is stored (`last_reviewed`). So the streak counts the days on which some problem was *last* reviewed. The same problem marked on two consecutive days gives a streak of one (`Scheduler.SameProblemTwoDays`).

One place where the code is evidently not what its authors meant is recorded under "## Findings": the glyphs accepted by `mark` (src/cli.py:406, :408). `Cli.Mark` uses the corrected classifier, and the classifier as written is modelled beside it.

## Model

| member | source | states |
|---|---|---|
| Text.Strip | src/cli.py:67 | the result has no whitespace (Python's `isspace` set) at either end and is no longer than the input |
| Text.StripIsSlice | src/cli.py:67 | the result is a slice `s[i:j]` of the input, and everything outside that slice is whitespace |
| Text.StripIdempotent | src/ai_reviewer.py:49-55 | stripping twice is stripping once |
| Text.StripSurroundingSpace | src/ai_reviewer.py:49 | whitespace added at either end does not change `strip()` |
| Text.Split | src/cli.py:67 | `split(',')` always gives at least one piece |
| Text.SplitPieces | src/cli.py:67 | no piece holds the separator, and joining the pieces with it gives the input back |
| Text.SplitJoin | src/cli.py:67 | splitting the join of separator-free pieces gives the pieces back |
| Text.SplitConcat | src/cli.py:67 | splitting `a + ',' + b` gives the pieces of `a` followed by those of `b` |
| Text.StrLtTransitive | src/database.py:353 | Python's string `<` is transitive |
| Text.StrLtTotal | src/database.py:353 | of two different strings one is smaller |
| Text.StrLtIrreflexive | src/database.py:353 | no string is smaller than itself |
| Text.StrLtAsymmetric | src/database.py:353 | two strings are never each smaller than the other |
| Text.NatToString | src/cli.py:460 | `str(n)` is a non-empty string of digits with no leading zero |
| Text.ParseNatToString | src/cli.py:460 | reading `str(n)` back gives `n` |
| Text.IntToString | src/cli.py:455 | `str(i)` starts with a minus sign exactly when `i` is negative; it is the digits of `i` for `i >= 0` and a minus sign before the digits of `-i` otherwise |
| Text.IntToStringInjective | src/cli.py:455 | different numbers print differently |
| Scheduler.NextInterval | src/database.py:209-219 | the new interval is at least one day, and on success it exceeds a positive prior interval |
| Scheduler.Advance | src/database.py:209-221 | the new row is due `interval` days after today, its review day is today, and a failure or a first success gives 1 day, due tomorrow |
| Scheduler.LadderStep | src/database.py:210-217 | each rung of the success ladder is at least 1 day, and from the third rung on at least 7 |
| Scheduler.LadderClosedForm | src/database.py:214-217 | from the third rung on, the interval is `7 * 2^(n-2)` |
| Scheduler.SuccessClimbsOneStep | src/database.py:209-217 | a success moves an interval on rung n to rung n+1 (1→3, 3→7, otherwise doubled) |
| Scheduler.AdvanceKeepsLadder | src/database.py:209-219 | whatever the outcome, an interval in {1, 3, 7·2^k} stays in that set |
| Scheduler.UpdateKeepsLadder | src/database.py:221-231 | if every row's interval is on the ladder, it still is after updating any one problem |
| Scheduler.Replay | src/database.py:196-233 | recording at least one outcome always leaves a row |
| Scheduler.SuccessesClimbLadder | src/database.py:209-217 | k successes from rung n end on rung n+k |
| Scheduler.FreshSuccessesFollowLadder | src/database.py:209-217 | from no row, successive successes give 1, 3, 7, 14, 28, … |
| Scheduler.FailureRestartsLadder | src/database.py:218-219 | after a failure, whatever came before, k successes give rung k, so a failure then a success gives 3 |
| Scheduler.ReviewStore.constructor | src/database.py:56-63 | the review table starts empty |
| Scheduler.ReviewStore.UpdateReviewSchedule | src/database.py:196-233 | returns the date and interval of `Advance` on the prior row; stores exactly that row for the problem (create or replace); leaves every other row unchanged; keeps the ladder invariant |
| Scheduler.ReviewStore.GetReviewStats | src/database.py:263-304 | the due count is the length of the due list, the reviewed count is the rows with a review day, and the streak satisfies its definition |
| Scheduler.InsertByDate | src/database.py:245 | inserting an id gives the old list plus that one id, as a multiset: nothing is dropped or duplicated |
| Scheduler.InsertByDateKeepsSorted | src/database.py:245 | inserting into a list sorted by review date keeps it sorted |
| Scheduler.InsertByDateKeepsDistinct | src/database.py:245 | inserting a new id into a list without repeats keeps it without repeats |
| Scheduler.DueReviews | src/database.py:236-249 | the due list holds a problem iff its review date is today or earlier, holds each once, and is in non-decreasing date order |
| Scheduler.EmptyTableHasNothingDue | src/database.py:241-247 | with no rows the due list is empty |
| Scheduler.DueCount | src/database.py:268-271 | the due count equals the length of the due list and is at most the number of rows |
| Scheduler.JustReviewedIsNotDue | src/database.py:221-231 | when every stored interval is positive, a problem updated today is not on today's due list |
| Scheduler.TotalReviewed | src/database.py:273-275 | the reviewed count is at most the number of rows |
| Scheduler.UpdateCountsReviewed | src/database.py:223-231 | an update raises the reviewed count by one exactly when the problem had no review day before |
| Scheduler.ReviewedAfterWrite | src/database.py:223-231 | writing a row with a review day counts its problem as reviewed once: the count grows by one exactly when that problem had no review day |
| Scheduler.CountReviewedOn | src/database.py:290-294 | the count for a day is zero exactly when no row was last reviewed that day |
| Scheduler.StreakUnique | src/database.py:286-297 | at most one length satisfies the streak definition |
| Scheduler.Streak | src/database.py:286-297 | the loop ends; each of the `streak` days ending today has a review and the day before them has none; the streak is 0 when nothing was reviewed today and never exceeds the number of rows |
| Scheduler.ReviewInfo | src/database.py:307-329 | each requested id answers with its row, or nothing, and an empty request gives an empty map |
| Scheduler.ReviewInfoAfterUpdate | src/database.py:221-233 | after an update, the review info of that problem is the row the update reported |
| Scheduler.SuccessSuccessFailure | src/database.py:209-221 | success, success, failure on a fresh problem gives intervals 1, 3, 1 with the matching dates |
| Scheduler.OverdueComesFirst | src/database.py:241-246 | a problem due yesterday comes before one due today |
| Scheduler.TwoDueInOrder | src/database.py:241-246 | when exactly two problems are due, the one with the earlier review date is listed first |
| Scheduler.TwoDayStreak | src/database.py:286-297 | reviews today and yesterday (none the day before) give a streak of 2 |
| Scheduler.SameProblemTwoDays | src/database.py:286-297 | one problem marked yesterday and today gives a streak of 1, because only its latest review day is kept |
| Submissions.SuccessRate | src/database.py:332-341 | `passed <= total <= len(submissions)`, and `total` is 0 exactly when the problem has no graded submission |
| Submissions.SuccessRateCounts | src/database.py:335-341 | the pair is (number of passed, number of graded) submissions of the problem; ungraded ones count in neither |
| Submissions.AppendSubmission | src/database.py:143-156 | saving a submission adds to the problem's counts only when it is graded and for that problem |
| Submissions.Examples | src/database.py:332-341 | two passed of three graded give (2, 3); one ungraded gives (0, 0); no submissions give (0, 0) |
| Problems.BuildFilterClause | src/database.py:93-107 | a problem satisfies all built conditions iff it has the given non-empty difficulty and every requested tag; one condition per filter |
| Problems.TagsAreAnded | src/database.py:102-106 | two requested tags must both be present |
| Problems.InsertOrIgnore | src/database.py:75-79 | the ids after the insert are the old ones plus the new id exactly when it was absent and its difficulty passes the CHECK constraint; existing rows are never overwritten; a newly present id holds the inserted row |
| Problems.InsertCard | src/database.py:75-80 | the row count of one insert is 1 when the row is added and 0 when it is ignored |
| Problems.ProblemTable.Insert | src/database.py:75-80 | one INSERT OR IGNORE changes the table as `InsertOrIgnore` does, and its row count is the number of rows added |
| Problems.LoadAll | src/database.py:72-82 | after a load the ids are the old ones plus the admitted ones, and old rows are unchanged |
| Problems.LoadTwiceIsIdempotent | src/database.py:72-82 | loading the same list again changes nothing |
| Problems.FirstOccurrenceWins | src/database.py:74-79 | a new row is the first admitted problem of the list with that id |
| Problems.ProblemTable.constructor | src/database.py:35-42 | the problem table starts empty |
| Problems.ProblemTable.LoadProblems | src/database.py:72-82 | the count is the number of rows actually inserted: the admitted ids not already present |
| Problems.ReloadAddsNothing | src/database.py:72-82 | a first load counts every admitted id, and a second load of the same list counts 0 |
| Problems.BeforeTransitive | src/database.py:353 | the listing order (count descending, then name) is transitive |
| Problems.InsertRanked | src/database.py:353 | inserting into the listing gives the old entries plus the new one, as a multiset: nothing is dropped or duplicated |
| Problems.InsertRankedKeepsListing | src/database.py:353 | inserting a new tag keeps the listing strictly ordered and without repeats and adds that tag |
| Problems.CountRow | src/database.py:351-352 | counting one row's tags adds each tag's occurrences in that row to its running count, and adds exactly the tags that occur |
| Problems.CountTags | src/database.py:349-352 | a tag has a count iff it occurs in some row, and the count is its number of occurrences over all rows |
| Problems.RankCounts | src/database.py:353 | the listing holds each counted tag once with its count, ordered by count descending then name |
| Problems.GetAllTags | src/database.py:344-353 | the argument is the `tags` column of the `problems` table, one decoded tag list per row, in any row order; each listed tag's count is its number of occurrences over all tag lists; a tag is listed iff it occurs; ordered by count descending then name, each once |
| Cli.CleanPieces | src/cli.py:67 | the kept pieces are stripped and non-empty, and there are no more of them than pieces |
| Cli.CleanPiecesCommaFree | src/cli.py:67 | stripping comma-free pieces leaves them comma-free |
| Cli.ParseTags | src/cli.py:63-67 | nothing for a missing or empty argument; otherwise tags that are stripped, non-empty and comma-free |
| Cli.OnePiece | src/cli.py:67 | a comma-free argument gives its stripped text, or the empty list when blank |
| Cli.TagPiecesConcat | src/cli.py:67 | the tags keep their left-to-right order: the pieces on either side of a comma are parsed separately and concatenated |
| Cli.ParseTagsJoin | src/cli.py:63-67 | clean tags joined with commas parse back to the same list |
| Cli.BlankTagsGiveEmptyList | src/cli.py:65-67 | a non-empty argument of only spaces and commas gives the empty list, not nothing |
| Cli.DifficultyAccepted | src/cli.py:88-90 | the option is rejected exactly when it is non-empty and not easy, medium or hard |
| Cli.AcceptedFilterMatchesStoredDifficulty | src/cli.py:117-122 | an accepted non-empty difficulty selects only problems whose difficulty passes the table's constraint |
| Cli.Lower | src/cli.py:405 | `lower()` keeps the length and lowers each character on its own: A to Z, the Latin-1 capitals U+00C0 to U+00DE except U+00D7, and U+0152 |
| Cli.LowerCharIdempotent | src/cli.py:405 | a lowered character lowers to itself |
| Cli.ClassifyMark | src/cli.py:405-413 | success exactly for solved, s or the check mark U+2713; failure exactly for struggled, x, f or the cross U+2717 (after lowering); otherwise rejected. This is the corrected classifier (see "## Findings") |
| Cli.ClassifyMarkAsWritten | src/cli.py:405-413 | the same classifier with the glyph literals exactly as written in the file, three characters each |
| Cli.GlyphsAsWrittenRejectTheMarks | src/cli.py:406-408 | as written, the check mark and the cross themselves are rejected |
| Cli.GlyphsAsWrittenAcceptUpperCase | src/cli.py:405-408 | as written, U+00C2 U+0152 followed by U+201C or U+2014 is accepted too, since `lower()` maps it onto the literal |
| Cli.GlyphsAsWrittenAcceptTheSpellings | src/cli.py:406-408 | as written, the three-character strings are what is accepted in their place |
| Cli.ClassifyIgnoresCase | src/cli.py:405 | classifying the lowered argument gives the same answer |
| Cli.ClassifySolvedUpperCase | src/cli.py:405-407 | `SOLVED` is a success |
| Cli.ClassifyStruggledMixedCase | src/cli.py:405-409 | `Struggled` is a failure |
| Cli.ClassifyGlyphs | src/cli.py:406-409 | the check mark is a success and the cross a failure |
| Cli.ClassifyRejects | src/cli.py:410-413 | `maybe` and the empty argument are rejected |
| Cli.Mark | src/cli.py:399-417 | an unknown problem or an unrecognised result reports an error and leaves the schedule untouched; otherwise the schedule gets the `Advance` row and the report carries its date and interval |
| Cli.Label | src/cli.py:142-154 | no row gives the dash; due on or before today gives Due; up to 3 days ahead gives the date as soon; further ahead, an interval of 14 or more gives Mastered, else the plain date |
| Cli.DueLabelIsDueList | src/cli.py:142-146 | among the listed problems, "Due" is shown exactly for those on the due list, whatever their interval |
| Cli.MarkedIsNotDue | src/cli.py:142-148 | a problem marked today is never shown as due; after a failure it shows tomorrow as soon |
| Cli.SuccessFromSevenIsMastered | src/cli.py:149-150 | a success from an interval of 7 or more days shows Mastered |
| Cli.LastReviewedText | src/cli.py:447-458 | "Never reviewed" exactly when there is no review day; otherwise the line starts with "Last reviewed: " |
| Cli.LastReviewedTextInjective | src/cli.py:447-458 | different review days (or none) give different lines: "Today", "1 day ago" and "N days ago" never collide |
| Cli.MarkedTodayReadsToday | src/cli.py:449-451 | a problem marked today reads "Last reviewed: Today" |
| Cli.YesterdayReadsOneDayAgo | src/cli.py:452-453 | a review yesterday reads "Last reviewed: 1 day ago" |
| Cli.FiveDaysAgo | src/cli.py:454-456 | a review five days ago reads "Last reviewed: 5 days ago" |
| Cli.TwelveDaysAgo | src/cli.py:454-456 | a review twelve days ago reads "Last reviewed: 12 days ago" |
| Cli.RateLine | src/cli.py:460 | the line is empty exactly when no submission is graded, and otherwise starts with "Success rate: " |
| Cli.RateLineShownIffGraded | src/cli.py:440-464 | the rate line appears exactly when the problem has a graded submission |
| Cli.RateLineInjective | src/cli.py:460 | a shown line gives back both numbers |
| Cli.RateLineExample | src/cli.py:460 | two passed of three graded read "Success rate: 2/3" |
| AiReviewer.DropOpeningFence | src/ai_reviewer.py:51-52 | with a line break, the result is what follows a first line that holds no line break; without one, the input is the fence followed by the result |
| AiReviewer.Unfence | src/ai_reviewer.py:50-55 | the result has no surrounding whitespace and is no longer than the input |
| AiReviewer.StripMarkdownFences | src/ai_reviewer.py:47-55 | the result has no leading or trailing whitespace and is no longer than the input |
| AiReviewer.NoFenceIsOnlyStripped | src/ai_reviewer.py:49-55 | text that, once stripped, neither opens nor closes with a fence is only stripped |
| AiReviewer.FencedBlockGivesBody | src/ai_reviewer.py:48-55 | a fenced block with a one-line language tag gives back its body, stripped |
| AiReviewer.OpeningLineDropped | src/ai_reviewer.py:50-52 | an opening line that starts with the fence is removed together with its line break, and nothing else is |
| AiReviewer.ClosingFenceDropped | src/ai_reviewer.py:53-54 | text ending in the fence is recognised as fenced, and cutting the fence leaves the text before it |
| AiReviewer.SurroundingSpaceIgnored | src/ai_reviewer.py:49 | whitespace around the reply does not change the result |
| AiReviewer.OneLineDropsThreeBackticks | src/ai_reviewer.py:52 | with no line break, only the three opening backticks are dropped |
| AiReviewer.ClosingFenceRemovedOnce | src/ai_reviewer.py:53-54 | a doubled closing fence loses only one |

## Left out

- SQLite plumbing: the connection, the WAL and foreign-key pragmas, commit and rollback (src/database.py:15-28), and the schema DDL. The tables are in-memory maps. The foreign key from `review_schedule` to `problems` is not enforced by the model.
- JSON and file I/O in `load_problems_from_json` and `load_all_problems`: the problem list is a parameter. A missing `id`, `title`, `description` or `difficulty` key, which raises a `KeyError`, is not modelled.
- The system clock: `today` is a parameter in every member that uses it.
- The `ease_factor` column: it is never read or written.
- `avg_success_rate` in `get_review_stats`: it uses float division and Python's half-even `round`.
- Date range limits: Python dates end at year 9999, where `today + timedelta` would raise. Day numbers are unbounded integers.
- Problems.InsertOrIgnore: the JSON values of a problem are taken to be strings. A `null` difficulty, which passes `CHECK(difficulty IN (…))` and is inserted and counted (src/database.py:40, :75-80), cannot be expressed. A `null` title or description, which `NOT NULL` makes OR IGNORE skip, cannot be expressed either. Nor can `"tags": null`, which is stored as the text `null` and makes `get_all_tags` fail (src/database.py:351).
- Problems.BuildFilterClause: the `tags LIKE '%"tag"%'` text match is modelled as list membership. SQLite's LIKE is also ASCII case-insensitive and matches substrings of the JSON text, and neither is modelled.
- Scheduler.Schedule: `interval_days` is never NULL in the model. The column has a default of 1, and the code always writes it.
- Cli.Lower: only A to Z, U+00C0 to U+00DE (except U+00D7) and U+0152 are lowered. Python's full Unicode `lower()` changes other characters too, but none of them lowers onto a character of an accepted word, as corrected or as written.
- The Gemini call in `review_code` (a network client over a library that is not part of this model) and its JSON decoding.
- All Typer/Rich rendering in src/cli.py, including the date formatting `%b %d`, the "day"/"days" plural and the colours, plus file reading in `submit` and the `init`/`stats` exception handling.
- `get_random_problem`, `list_problems`, `get_problem`, `get_next_review_date`, `get_stats` and `get_submissions` are left out. They are plain queries that these operations do not depend on, beyond the filter that is modelled.
- The order of problems with the same review date in the due list: SQLite leaves it unspecified. `Scheduler.DueReviews` is one of the allowed orders.
- Concurrency and transactions: the tool runs one command at a time over one connection.

## Findings

| source | as written | input that shows it | evidently intended | confidence | as-written member | corrected member |
|---|---|---|---|---|---|---|
| src/cli.py:406-408 | the glyph literals are the three-character strings U+00E2 U+0153 U+201C and U+00E2 U+0153 U+2014, the UTF-8 bytes of the check mark and the cross decoded once more as Windows-1252 | the argument `✓` (U+2713) is rejected as an invalid result, and the three-character string is accepted instead | accept U+2713 CHECK MARK as solved and U+2717 BALLOT X as struggled, as the help text at src/cli.py:412 suggests | not executed | Cli.GlyphsAsWrittenRejectTheMarks | Cli.ClassifyGlyphs |
