# Habit tracker: streak metrics, daily scores and page state

A Dafny model of the domain rules of a small Next.js habit tracker.

- **Streaks.** A streak (a habit to MAINTAIN or to AVOID) gets one log per day: FOLLOWED, BROKEN or SKIP.
  - The streak-log route upserts that log.
  - It then recomputes the streak's `currentStreak`, `highestStreak` and `lastBrokenDate`.
- **Habits.** Habits earn `points` when COMPLETED and `missedPoints` when MISSED.
  - The day-log route stores a day's entries wholesale.
  - It scores them over all habits.
- **Pages.** The dashboard and streaks pages keep keyed lists of statuses in memory.
  - They update these lists with a replace-or-append and look them up with UNTRACKED as the default.
  - The dashboard also recomputes the day's score locally, over its active habits.
  - They replace their copy of a streak with the one the server answers with.
- **Summaries.** The analytics page summarises the score history. The history page draws a month calendar shaded by each day's score.

Days are integers counted from 1970-01-01 (day 0).

The modules:

- `Domain` holds the entities, request bodies and responses.
- `Scoring` holds the daily score and the active-habit filter.
- `StreakMetrics` holds the streak recount and its invariant.
- `Server` holds the routes, on one `Store` class whose fields are the habit, streak, streak-log and day-log tables.
- `ClientLists` holds the pages' keyed lists.
- `DashboardPage`, `StreaksPage`, `Analytics` and `History` model the pages.

Three things are passed in as parameters:

- The server's date-text normalisation is `dayOf: string -> Day`.
- The clock's "today" is passed as text.
- The database's fresh id and creation time are passed to `CreateStreak`.

The central invariant is `StreakMetrics.Consistent`. Every stored streak satisfies `0 <= currentStreak <= (FOLLOWED days after lastBrokenDate) <= highestStreak`. Every write preserves it, so `currentStreak <= highestStreak` holds across any sequence of writes.

## Model

| member | source | states |
|---|---|---|
| `Domain.ParseLoggableStatus` | src/app/api/streaks/log/route.ts:22-24 | exactly FOLLOWED, BROKEN and SKIP are accepted; UNTRACKED and every other text are refused; an accepted text names its status |
| `Domain.StatusTextRoundTrip` | src/lib/types.ts:27 | a status a page sends parses back to itself, except UNTRACKED, which is refused |
| `Scoring.FindHabit` | src/app/api/days/route.ts:67 | the first habit with the id, or none exactly when no habit has it |
| `Scoring.EntryPoints` | src/app/api/days/route.ts:67-74 | an entry scores something only when it is COMPLETED or MISSED and some habit has its id; then the first such habit's points or missed points |
| `Scoring.Score` | src/app/api/days/route.ts:66-77 | a day with nothing COMPLETED or MISSED scores 0, and a day none of whose entries loses points scores at least 0 |
| `Scoring.ScoreEntries` | src/app/api/days/route.ts:57-77 | the `totalScore +=` loop computes the day's score: points for COMPLETED, missed points for MISSED, 0 otherwise and for unknown habits |
| `Scoring.ScoreConcat` | src/app/api/days/route.ts:66-77 | the score of two runs of entries is the sum of their scores |
| `Scoring.ScorePermutation` | src/app/api/days/route.ts:66-77 | the score does not depend on the order of the entries |
| `Scoring.ScoreIgnoresNeutralEntry` | src/app/api/days/route.ts:66-77 | a SKIPPED or UNTRACKED entry, or one for an unknown habit, adds nothing wherever it is inserted |
| `Scoring.ActiveHabits` | src/app/dashboard/page.tsx:33 | keeps exactly the active habits and never lengthens the list |
| `Scoring.FindActiveHabit` | src/app/dashboard/page.tsx:63 | after the active filter, a habit whose first match is active is still found, and it is the same habit |
| `Scoring.ScoreActiveAgrees` | src/app/dashboard/page.tsx:60-74 | the dashboard's score over active habits equals the server's score over all habits when every habit the entries name is active or unknown |
| `StreakMetrics.FollowedDays` | src/app/api/streaks/log/route.ts:94-102 | a day is counted exactly when the streak has a FOLLOWED log on it that is strictly after the lower bound |
| `StreakMetrics.FollowedCount` | src/app/api/streaks/log/route.ts:94-102 | the count is 0 exactly when the streak has no FOLLOWED log after the lower bound |
| `StreakMetrics.CountAntitone` | src/app/api/streaks/log/route.ts:99 | a later lower bound never counts more days |
| `StreakMetrics.CountAfterOverwrite` | src/app/api/streaks/log/route.ts:108-121 | overwriting a log with BROKEN or SKIP never raises the count |
| `StreakMetrics.CountAfterFollow` | src/app/api/streaks/log/route.ts:94-107 | FOLLOWED on a counted day that was not FOLLOWED raises the count by exactly one |
| `StreakMetrics.CountIgnoresBreakDay` | src/app/api/streaks/log/route.ts:99 | a log on the break day itself never changes the count after that break, FOLLOWED included |
| `StreakMetrics.CountOtherStreak` | src/app/api/streaks/log/route.ts:94-102 | a write for one streak leaves every other streak's count unchanged |
| `StreakMetrics.LaterBreak` | src/app/api/streaks/log/route.ts:68-75 | BROKEN moves the break date to the new day exactly when there was none or the new day is later, so it never moves back |
| `StreakMetrics.RecomputeFrom` | src/app/api/streaks/log/route.ts:63-132 | only the three metric fields change. BROKEN zeroes current and may advance the break. FOLLOWED and SKIP set current to the count. FOLLOWED sets highest to the larger of the old highest and the new current; nothing else changes highest, and a raised highest equals current. The break only moves with BROKEN |
| `StreakMetrics.Recompute` | src/app/api/streaks/log/route.ts:63-132 | the corrected recount: FOLLOWED and SKIP set current to the FOLLOWED days after the last break, or all of them when there is none; BROKEN zeroes current and leaves a break on or after the day |
| `StreakMetrics.RecomputeAsWritten` | src/app/api/streaks/log/route.ts:94-120 | the route's recount: FOLLOWED and SKIP count after the last break, or after 1970-01-01 when there is none; BROKEN zeroes current and leaves a break on or after the day |
| `StreakMetrics.Write` | src/app/api/streaks/log/route.ts:28-132 | the upsert leaves exactly one log for the (streak, day) key, holding the new status, and every other log as it was; the recount keeps the streak's identity |
| `StreakMetrics.WriteAsWritten` | src/app/api/streaks/log/route.ts:28-132 | the route's write stores the same log table as the corrected write and moves the break date the same way; the streak keeps every field but current and highest, and highest also agrees unless the status is FOLLOWED; only the count and the highest raised from it can differ |
| `StreakMetrics.WriteAll` | src/app/api/streaks/log/route.ts:28-132 | a sequence of writes keeps every earlier log key, leaves a log on every written day, and the last write to a day is the status that day holds; every log of another streak or of a day nobody wrote keeps its status |
| `StreakMetrics.AsWrittenAgrees` | src/app/api/streaks/log/route.ts:99 | the route's 1970-01-01 fallback agrees with counting from the start of time unless the streak has no break and a FOLLOWED log on or before 1970-01-01 |
| `StreakMetrics.InitialConsistent` | src/app/api/streaks/route.ts:25-26 | a new streak (0/0, no break) with no logs satisfies the store invariant |
| `StreakMetrics.WritePreservesConsistent` | src/app/api/streaks/log/route.ts:28-132 | an upsert followed by a recount keeps `0 <= current <= count <= highest` for FOLLOWED, BROKEN and SKIP |
| `StreakMetrics.WriteKeepsOthersConsistent` | src/app/api/streaks/log/route.ts:28-41 | a write for one streak keeps every other streak consistent |
| `StreakMetrics.WriteIdempotent` | src/app/api/streaks/log/route.ts:28-132 | repeating the same write leaves the same log table and the same streak |
| `StreakMetrics.WriteAllInvariant` | src/app/api/streaks/log/route.ts:63-132 | across any sequence of writes the streak stays consistent and keeps `current <= highest`; highest never decreases and the break never moves back |
| `StreakMetrics.AsWrittenExceedsHighest` | src/app/api/streaks/log/route.ts:99 | with the 1970-01-01 fallback, a new streak ends with current 1 above highest 0 after FOLLOWED 1969-12-30, BROKEN 1969-12-25, SKIP |
| `Server.CheckLogRequest` | src/app/api/streaks/log/route.ts:8-24 | in order: 400 "Invalid JSON", then a JSON `null` body whose destructuring throws (and exactly that body), then 400 "Missing required fields" when a field is absent or empty, then 400 "Invalid status"; an accepted body names its streak, normalised day and a loggable status |
| `Server.PageRequestAccepted` | src/app/api/streaks/log/route.ts:16-24 | a page's write for a named streak and day is accepted exactly when its status is not UNTRACKED |
| `Server.NewStreak` | src/app/api/streaks/route.ts:18-28 | the body's fields, metrics 0/0, no break date; active unless the body says false |
| `Server.SaveDay` | src/app/api/days/route.ts:79-102 | one log per day: the day's log holds exactly the submitted entries and their score; other days are unchanged |
| `Server.SaveDayIdempotent` | src/app/api/days/route.ts:57-102 | posting the same day twice leaves the table as posting it once |
| `Server.LookupDay` | src/app/api/days/route.ts:9-42 | 400 "Date is required" without a date; otherwise the normalised day's log, or null exactly when there is none |
| `Server.SaveThenLookup` | src/app/api/days/route.ts:27-42 | a day saved under a date text reads back under that text with exactly its entries and score |
| `Server.LogWriteKeepsStore` | src/app/api/streaks/log/route.ts:28-132 | writing a log and recounting only its own streak, if it exists, keeps every stored streak consistent and under its own id |
| `Server.Store.CreateStreak` | src/app/api/streaks/route.ts:15-34 | inserts exactly the new record under its fresh id and keeps the store invariant; a malformed body is a 500 and changes nothing |
| `Server.Store.ListStreaks` | src/app/api/streaks/route.ts:4-13 | every stored streak exactly once, ordered by `createdAt` ascending |
| `Server.Store.PostStreakLog` | src/app/api/streaks/log/route.ts:5-139 | a rejected body writes nothing and answers its 400; a `null` body writes nothing and answers 500 "Failed to log streak". Otherwise the (streak, day) log is upserted and other logs are unchanged. A known streak is recounted, stored and returned with the log. An unknown streak gives a 500 after the log write. The store invariant is kept |
| `Server.Store.GetStreakLogs` | src/app/api/streaks/log/route.ts:141-168 | a date query wins and lists that day's logs; otherwise a streak id lists that streak's logs by strictly ascending date; otherwise nothing |
| `Server.Store.Collect` | src/app/api/streaks/log/route.ts:152-161 | the selected logs, each exactly once with its stored status, by date ascending |
| `Server.Store.PostDay` | src/app/api/days/route.ts:48-109 | the day's log is created or its entries replaced wholesale, scored over all habits, inactive ones included; a malformed body is a 500 and changes nothing |
| `ClientLists.KeyIndex` | src/app/dashboard/page.tsx:51 | the first position holding the id, or -1 exactly when none does |
| `ClientLists.StatusOf` | src/app/dashboard/page.tsx:120-126 | the status of the first entry with the id, the default (UNTRACKED) exactly when none has it |
| `ClientLists.WithStatus` | src/app/dashboard/page.tsx:50-58 | the first entry with the id gets the new status in its place, or one entry is appended; every other entry keeps its position and status |
| `ClientLists.ReplaceOrAppend` | src/app/dashboard/page.tsx:53-58 | the copy, index-assign or push computes exactly that list |
| `ClientLists.LookupAfterWithStatus` | src/app/streaks/page.tsx:35-64 | after an update, looking the id up gives the new status |
| `ClientLists.LookupOtherAfterWithStatus` | src/app/streaks/page.tsx:35-42 | an update leaves the lookup of every other id unchanged |
| `ClientLists.WithStatusIdempotent` | src/app/dashboard/page.tsx:96-103 | giving an id the same status twice is the same as once |
| `ClientLists.WithStatusLastWins` | src/app/dashboard/page.tsx:50-58 | of two updates to one id only the second shows |
| `ClientLists.WithStatusKeepsUnique` | src/app/dashboard/page.tsx:57-58 | an update keeps ids unique |
| `ClientLists.ReplaceStreak` | src/app/dashboard/page.tsx:115-117 | same length; the streaks with the answer's id become the answer and every other stays |
| `ClientLists.ReplaceAbsentStreak` | src/app/streaks/page.tsx:57-59 | an answer about a streak the page does not list changes nothing |
| `ClientLists.ActiveStreaks` | src/app/dashboard/page.tsx:36 | keeps exactly the active streaks |
| `DashboardPage.Dashboard.Load` | src/app/dashboard/page.tsx:32-39 | only active habits and streaks are kept; the day's log and rows as fetched |
| `DashboardPage.Dashboard.HabitStatusOf` | src/app/dashboard/page.tsx:120-122 | UNTRACKED when there is no day log or no entry for the habit, else the first entry's status |
| `DashboardPage.Dashboard.StreakStatusOf` | src/app/dashboard/page.tsx:124-126 | UNTRACKED when no row has the streak, else the first row's status |
| `DashboardPage.Dashboard.HandleStatusChange` | src/app/dashboard/page.tsx:48-93 | the entries are the replace-or-append update. The local score is the score over the page's active habits. The id is kept when non-empty and is "temp" otherwise. The request carries the whole day |
| `DashboardPage.Dashboard.HandleStreakUpdate` | src/app/dashboard/page.tsx:95-113 | the rows are the replace-or-append update keyed on the streak id; the request names the streak, the selected day and the status |
| `DashboardPage.Dashboard.ReceiveStreak` | src/app/dashboard/page.tsx:114-117 | an answer with a streak replaces only the streaks with its id; an error answer changes nothing |
| `DashboardPage.StatusChangeAgreesWithServer` | src/app/dashboard/page.tsx:60-74 | after a change the habit shows the new status, and the local score equals the server's whenever the named habits are active or unknown |
| `StreaksPage.StreaksView.Status` | src/app/streaks/page.tsx:62-64 | the first row's status for the streak, UNTRACKED when there is none |
| `StreaksPage.StreaksView.UpdateStatus` | src/app/streaks/page.tsx:34-53 | the rows are the replace-or-append update; the request always names today's date |
| `StreaksPage.StreaksView.ReceiveStreak` | src/app/streaks/page.tsx:55-59 | an answer with a streak replaces only the streaks with its id; an error answer changes nothing |
| `Analytics.ToChartRows` | src/app/analytics/page.tsx:19-23 | same length and order; every row keeps its date and total and gets `score` equal to its total |
| `Analytics.Loaded` | src/app/analytics/page.tsx:17-24 | a missing or empty history leaves the data unchanged; otherwise the data are exactly the mapped rows, one per history row with its total as the score |
| `Analytics.PositiveDays` | src/app/analytics/page.tsx:91 | exactly the number of rows whose score is above 0, so never more than the days tracked |
| `Analytics.NegativeDays` | src/app/analytics/page.tsx:97 | exactly the number of rows whose score is below 0, so never more than the days tracked |
| `Analytics.ShiftedCount` | src/app/analytics/page.tsx:91-97 | the passing positions of a list number those of its tail plus one for a passing head |
| `Analytics.LifetimeScore` | src/app/analytics/page.tsx:103 | a history with no negative day has a lifetime score of at least 0, and one with no positive day at most 0 |
| `Analytics.PositiveNegativeCover` | src/app/analytics/page.tsx:86-97 | positive plus negative days never exceed the days tracked, and equal them exactly when no day scored 0 |
| `Analytics.LifetimeConcat` | src/app/analytics/page.tsx:103 | the lifetime score of two runs of rows is the sum of theirs |
| `Analytics.LifetimeSign` | src/app/analytics/page.tsx:91-103 | a positive lifetime score needs a positive day and a negative one a negative day |
| `Analytics.LifetimeOfHistory` | src/app/analytics/page.tsx:19-103 | the lifetime score of the loaded rows is the sum of the history's day totals |
| `History.ScoreFor` | src/app/history/page.tsx:25-29 | the total of the first row whose date text starts with the day's text; null exactly when no row does |
| `History.Classify` | src/app/history/page.tsx:62-65 | exactly one shade per score: no data for null, then positive, negative, and neutral for 0 |
| `History.ShowsTooltip` | src/app/history/page.tsx:70-74 | the tooltip is drawn exactly for the cells with data, a score of 0 included |
| `History.Weekday` | src/app/history/page.tsx:22 | a weekday index from 0 (Sunday) to 6 |
| `History.WeekdaySuccessor` | src/app/history/page.tsx:22 | 1970-01-01 is a Thursday (4), and each next day has the next weekday, Saturday wrapping round to Sunday |
| `History.MonthCells` | src/app/history/page.tsx:19-53 | one blank per weekday before the month's first day, then one cell per day holding that day's score |
| `History.DayInItsColumn` | src/app/history/page.tsx:45-53 | in the seven-column grid every day lands in the column of its own weekday |

## Findings

| source | as written | input that shows it | evidently intended | confidence | as-written member | corrected member |
|---|---|---|---|---|---|---|
| src/app/api/streaks/log/route.ts:99 | with no break date, FOLLOWED and SKIP count FOLLOWED logs only strictly after 1970-01-01 (also line 118) | a new streak; FOLLOWED on 1969-12-30, BROKEN on 1969-12-25, SKIP on 1970-01-06: current ends at 1 while highest stays 0 | count from the start of time, as the comment at line 90 says; then current never exceeds highest | not executed; high that the invariant breaks, low that pre-1970 dates occur in use | `StreakMetrics.AsWrittenExceedsHighest` | `StreakMetrics.WriteAllInvariant` |

The store uses the corrected recount, `StreakMetrics.Recompute`. The route as written is `StreakMetrics.RecomputeAsWritten` and `StreakMetrics.WriteAsWritten`. `StreakMetrics.AsWrittenAgrees` shows that the two differ only for FOLLOWED logs on or before 1970-01-01 of a streak that has no break date.

## Left out

- **I/O and JSON plumbing.** `fetch`, `request.json()` and the response objects are left out. A body that is not JSON is a `Malformed…` request value; for the day and streak routes, whose `request.json()` and destructuring both sit inside the one `try`, so is a JSON `null` body. For the streak-log route, a JSON `null` body is `NullLogBody`, answered 500 by the outer `catch`. Other wrong shapes (a field of the wrong JSON type, such as a number where text is expected) are not modelled: the request values carry text fields only.
- **Database failures.** The catch-all 500s for database failures are left out. Only the failures the model can name are modelled: a malformed body and an unknown streak.
- **Date handling (date-fns).** `parseISO`, `startOfDay` and `format` are parameters: `dayOf` on the server, and already formatted `yyyy-MM-dd` text on the pages. Time zones are not modelled, and neither is `displayDate` on the analytics chart.
- **The clock and database ids.** `new Date()` and the database's generated ids and `createdAt` are parameters.
- **Clock values in the streak record.** `startDate` and `createdAt` are integers.
- `Server.Store.CreateStreak`:
  - It requires an id that no streak and no log uses yet, which is the database id generator's guarantee.
  - The body's name, type and description are not validated, as in the source.
- `Server.Store.PostStreakLog`:
  - It writes the log before it looks the streak up, in the code's order, so an unknown streak answers 500 with the log already stored.
  - The database schema's foreign key may refuse that log write instead. The schema is not part of this model.
  - It uses the corrected recount described under Findings.
  - The recount is the database's `count` query, modelled as the size of a set.
- `Server.Store.GetStreakLogs`: the date query has no `orderBy` in the source. The model returns one of the allowed orders, by date, which is vacuous for one day.
- `Server.Store.Valid`: its clause that every stored day log holds the score of its entries holds only because the model's habit table never changes. In the program, `PUT /api/habits/[id]` (`src/app/api/habits/[id]/route.ts:13-14`) rewrites a habit's `points` and `missedPoints` without rescoring the stored day logs, so a stored total can go stale there.
- **Other routes.** The habit routes (`src/app/api/habits/route.ts`, `src/app/api/habits/[id]/route.ts`) are not part of this model. Neither are the history route, the streak PUT/DELETE route or the settings reset route. They are thin database wrappers. The habit table is a given `seq<Habit>` in `findMany` order.
- **Status strings.**
  - Habit entry statuses are the four enum values. A stored status outside them would score 0, like SKIPPED.
  - Page-side streak statuses are the enum values that the streak card sends.
- **Page streak rows.** The dashboard's and the streaks page's streak rows (`LogRow`) keep only `streakId` and `status`. Neither page reads their date.
- **Concurrency and rendering.**
  - Races between optimistic updates and server answers, and React rendering, animation and styling, are left out.
  - The habit form's `|| 10` points default is UI defaulting and is left out.
- **Numbers.** Scores and points are unbounded integers. JavaScript numbers are doubles, but points come from `parseInt`, and the model does not track precision loss beyond 2^53.
