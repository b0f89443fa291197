# Performance tracker — a verified model of its core

The performance tracker is a small desktop app. A warehouse picker uses it to
log tasks. Each task record has a start and a finish time of day, a target in
minutes, breaks and delays. The app computes how long the work took, the
effective time and a performance percentage. It stores the record in SQLite,
together with shifts that are started and finished, and reports daily, weekly
and date-range statistics. A bounded in-memory log history feeds its debug
panel.

This project models that core in Dafny and proves properties of it:

- `clock.dfy` (module `Clock`): `strptime(s, '%H:%M')` exactly as Python's
  regular expression reads it, as minutes after midnight. It also models
  `strftime('%H:%M')` and `str.strip()`.
- `calculator.dfy` (module `Calculator`): the metric chain of the save handler.
  It covers the day wrap, the break and delay switches, the floors at 0 and 1,
  and the percentage.
- `tables.dfy` (module `Tables`): the rows of the three tables and the pure
  functions the SQL statements amount to. These are the upserts, the listing
  newest first, the choice of the shift a finish closes, the task lookup and
  its deduplication, the break and battery rules, and the two shift-duration
  helpers.
- `stats.dfy` (module `Stats`): the aggregate `SELECT` of the statistics
  queries. SQL's NULL aggregates of an empty window are modelled, and so is the
  loop that turns them into 0.
- `database.dfy` (module `Store`): class `Database`. It holds the record map,
  the next AUTOINCREMENT id, the shift list, the task list and a creation
  clock, and its methods update them in place.
- `app.dfy` (module `App`): class `TrackerApp`. It models the handlers that
  save a record, delete a record, and start or finish a shift behind the
  `HH:MM` gate.
- `debug.dfy` (module `Debug`): class `LogHistory`. It models the 200-entry
  history that `emit` appends to, and `get_recent_logs`.
- `wrappers.dfy` (module `Wrappers`): `Option` and `Result`.

Numbers other than minutes of the day are exact `real`s. `created_at` is a
counter that increases with every insert, so "newest" means "inserted last".
`date(created_at)` is a day number passed in by the caller. The current time
is also a parameter.

The model follows the code where it departs from the documented intent:

- A non-positive target is not rejected.
- `save_record` with an id that is not stored silently changes nothing.
- `save_record` returns nothing.

## Model

| member | source | states |
|---|---|---|
| Clock.ParseHHMM | preformancetracker/app.py:87-88 | A parse gives a minute in [0, 1440) from a string of 3 to 5 characters. Which strings are accepted and which minute each yields is stated by `Clock.ParseHHMMSpellings`. |
| Clock.ParseMinuteField | preformancetracker/app.py:87-88 | The minute field is below 60 and has one or two characters. `Clock.MinuteFieldSpellings` states which fields are accepted. |
| Clock.MinuteFieldSpellings | preformancetracker/app.py:87-88 | The minute field (pattern `[0-5]\d\|\d` with nothing after it) yields m exactly when 0 ≤ m < 60 and the field is m's two-digit spelling or, for m < 10, its one-digit spelling. |
| Clock.ParseHHMMSpellings | preformancetracker/app.py:87-88 | `strptime(s, '%H:%M')` yields v exactly when 0 ≤ v < 1440 and s is v's hour, a colon and v's minute. The hour and the minute may each drop their leading zero. So "9:05", "09:5" and "9:5" all yield 545, and nothing else is accepted. |
| Clock.ParsedIsSpelled | preformancetracker/app.py:87-88 | Every accepted string spells the minute it yields. |
| Clock.SpelledIsParsed | preformancetracker/app.py:87-88 | Every spelling of a minute of the day is accepted and yields that minute. |
| Clock.ParseExamples | preformancetracker/app.py:87-88 | "9:05" and "9:5" are accepted. "24:00", "12:60", "12:30 " and " 12:30" are rejected. |
| Clock.Format | preformancetracker/database.py:419 | `strftime('%H:%M')` of a minute is five characters with the colon third. |
| Clock.ParseFormat | preformancetracker/database.py:419 | Parsing the formatted current time gives back that minute. |
| Clock.FiveCharFormIsCanonical | preformancetracker/app.py:87-88 | A five-character string that parses is the zero-padded form of its value. |
| Clock.StripStart | preformancetracker/app.py:119 | The result is the suffix left once the leading white space is removed. |
| Clock.StripEnd | preformancetracker/app.py:119 | The result is the prefix left once the trailing white space is removed. |
| Clock.Strip | preformancetracker/app.py:119 | The result is a middle slice of the input. Only white space lies around it, and it neither starts nor ends with white space. |
| Calculator.Elapsed | preformancetracker/app.py:89-90 | The elapsed minutes lie in [0, 1440) and equal (finish − start) mod 1440. |
| Calculator.Performance | preformancetracker/app.py:95 | performance × effective = target × 100. |
| Calculator.MetricsOf | preformancetracker/app.py:89-95 | The break is paid + unpaid only when the break switch is on. Delays count only when the delays switch is on. actual = max(0, elapsed − break) and effective = max(1, actual − delays) ≥ 1. performance × effective = target × 100. |
| Calculator.ComputeMetrics | preformancetracker/app.py:87-95 | The result fails exactly when one of the two times does not parse, and names the first bad time. Otherwise the result is the metrics of the parsed minutes. |
| Calculator.ElapsedFollowsClock | preformancetracker/app.py:89-93 | Elapsed is the clock difference mod a day. Without a wrap it is the plain difference, and actual = max(0, difference − break). |
| Calculator.PerformanceReachesHundred | preformancetracker/app.py:95 | With a positive target, performance ≥ 100 exactly when effective ≤ target. |
| Calculator.DayWrapExample | preformancetracker/app.py:89-90 | 23:30 to 00:15 lasts 45 minutes. |
| Calculator.ZeroLengthExample | preformancetracker/app.py:94-95 | 09:00 to 09:00 gives effective 1 and performance 3000 for target 30. |
| Calculator.OnTargetExample | preformancetracker/app.py:93-95 | Target 30 over 09:00 to 09:30 gives actual 30 and performance 100. |
| Calculator.BreakExample | preformancetracker/app.py:91-95 | Target 30 over 09:00 to 10:00 with a 15-minute break gives actual and effective 45, and performance 200/3. |
| Calculator.BadStartExample | preformancetracker/app.py:87 | A malformed start fails with that text, whatever the finish. |
| Tables.FlatRow | preformancetracker/database.py:80-96 | The inserted row holds exactly the 14 given fields under its id. The task-link and battery columns are NULL. |
| Tables.WithRecordData | preformancetracker/database.py:62-79 | The updated row holds the 14 given fields. Its id, creation, task link and battery columns are kept. |
| Tables.Overwrite | preformancetracker/database.py:62-79 | Only the row with that id changes. The keys stay the same, and an absent id changes nothing. |
| Tables.Upsert | preformancetracker/database.py:58-98 | A truthy id overwrites. `Tables.IsUpdate` is Python's truthiness of `if record_id:` (line 62), so None and 0 insert. Otherwise exactly one new key, `nextId`, is added. It holds the given fields, the new stamp and the given day, and every other row is kept. |
| Tables.BreakMinutes | preformancetracker/database.py:206 | The result is 15 exactly for 'break', 30 exactly for 'lunch', and 0 for anything else or for no type. |
| Tables.LinkedRow | preformancetracker/database.py:201-220 | The row is linked to the task. Each of the 13 other INSERT columns holds its value: actual time and performance from the metrics, start and end (from the finish time), break type, break minutes of the type, delays, has_delays, notes, battery count, count × 9 battery minutes, paid and unpaid break. The task name, target, skill and has_break keep their defaults. |
| Tables.WithLinkedColumns | preformancetracker/database.py:222-240 | The 13 SET columns hold the same values as on insert. The id, task link, task name, target, has_break, skill and creation are kept. |
| Tables.UpdateOfInsertedRow | preformancetracker/database.py:201-240 | Updating a row that `insert_record` created equals inserting the new form and metrics under the same id, task and creation. |
| Tables.LinkedColumnsDetermineRow | preformancetracker/database.py:222-240 | The kept columns and the 13 written ones determine the updated row: any row that agrees on both is it. |
| Tables.OverwriteLinked | preformancetracker/database.py:222-240 | Only the row with that id changes, and an absent id changes nothing. |
| Tables.DescSpec | preformancetracker/database.py:115-120 | `Tables.Desc`, the `ORDER BY created_at DESC` listing (line 119), holds exactly the stored rows, with strictly decreasing id and creation. |
| Tables.NewestOpen | preformancetracker/database.py:137 | The chosen shift is open and every later one is closed. There is none only when every shift is closed. |
| Tables.NewestOpenIsNewest | preformancetracker/database.py:146 | The chosen shift has the latest creation among the open shifts. |
| Tables.Finish | preformancetracker/database.py:130-140 | Only the newest open shift gets the end time. Every other shift is unchanged, and no shift changes other than in its end time. |
| Tables.SecondStartStrandsFirst | preformancetracker/database.py:122-140 | After two starts and a finish, the second shift is closed, the first stays open and becomes the newest open shift. |
| Tables.ClosedNewestFirst | preformancetracker/database.py:153 | The history holds exactly the closed shifts. |
| Tables.ClosedNewestFirstSorted | preformancetracker/database.py:153 | The history is strictly newest first. |
| Tables.FirstMatch | preformancetracker/database.py:176-182 | A found id belongs to a task with exactly that name and target. None is returned exactly when no task matches. |
| Tables.FirstMatchAppend | preformancetracker/database.py:184-197 | Appending to a table without a match makes the new task the match. |
| Tables.CountMatchingZero | preformancetracker/database.py:176-182 | The count of matching tasks is 0 exactly when none matches. |
| Tables.WithTask | preformancetracker/database.py:184-197 | The task table after get_or_create_task keeps the old table as a prefix. It grows by exactly one task when no task has the pair, and that task gets id \|ts\| + 1. The pair is found afterwards. |
| Tables.WithTaskCount | preformancetracker/database.py:192-197 | The number of matching tasks becomes 1 when it was 0 and is otherwise unchanged. |
| Tables.WithTaskIdempotent | preformancetracker/database.py:192-197 | Asking twice for the same pair equals asking once. |
| Tables.ShiftDuration | preformancetracker/database.py:398-409 | The result is 0 when the info or either time is missing or malformed, or when the end precedes the start (no day wrap). Otherwise it is end − start, always in [0, 1440). |
| Tables.CurrentShiftDuration | preformancetracker/database.py:411-423 | The same rule applies, with "now" as the end, and the result lies in [0, now]. |
| Tables.CurrentIsClosedAtNow | preformancetracker/database.py:411-423 | The current duration equals the closed duration with the formatted "now" as the end. |
| Stats.InWindow | preformancetracker/database.py:288 | The filter keeps at most as many rows as it is given. Its contents are stated by `Stats.InWindowCounts`. |
| Stats.InWindowCounts | preformancetracker/database.py:288 | Each row dated in [lo, hi] occurs as often as in the input, and every other row not at all. So COUNT and SUM see each matching row once. |
| Stats.InWindowAppend | preformancetracker/database.py:288 | Filtering a concatenation is the concatenation of the filtered parts. |
| Stats.Max | preformancetracker/database.py:285 | MAX is at least every value and is one of them. |
| Stats.Min | preformancetracker/database.py:286 | MIN is at most every value and is one of them. |
| Stats.ZeroNulls | preformancetracker/database.py:303-306 | The keys are kept. Every NULL becomes 0, and every other value is kept. |
| Stats.SumAbove | preformancetracker/database.py:280-282 | A lower bound on all values, times the count, is at most SUM. |
| Stats.SumBelow | preformancetracker/database.py:280-282 | SUM is at most an upper bound on all values, times the count. |
| Stats.AvgBetweenExtremes | preformancetracker/database.py:280-286 | MIN ≤ AVG ≤ MAX. |
| Stats.DaysAtMostRows | preformancetracker/database.py:324 | There are no more distinct dates than rows. |
| Stats.ActiveDaysBounded | preformancetracker/database.py:324-328 | In a window [lo, hi], active days ≤ rows and active days ≤ hi − lo + 1. |
| Stats.Aggregate | preformancetracker/database.py:278-289 | One aggregate of the SELECT list is NULL exactly when the window is empty and the column is not a count (COUNT(*), or COUNT(DISTINCT date) as the size of `Stats.Days`). AVG times the row count is `Stats.Sum` of the performances. |
| Stats.Summarize | preformancetracker/database.py:278-308 | Each key holds its aggregate, with NULL as 0, and total_records is the row count. An empty window gives all zeros. With rows, worst ≤ avg ≤ best, and active_days ≤ rows. |
| Stats.SummarizeRange | preformancetracker/database.py:355-385 | Over rows that all lie in [lo, hi], the 8 range keys hold their aggregates with NULL as 0. Worst ≤ average ≤ best when there are rows. active_days ≤ total_records, and active_days ≤ the number of dates in the range. |
| Store.Database.constructor | preformancetracker/database.py:9-12 | On a new database file, the store has empty tables. |
| Store.Database.SaveRecord | preformancetracker/database.py:58-98 | The record table becomes the upsert. An insert uses a fresh id, adds exactly one row, and `get_record_by_id` on it gives the 14 fields. Shifts and tasks are untouched. |
| Store.Database.GetRecordById | preformancetracker/database.py:100-105 | A row is found exactly when the id is stored, and it carries that id. |
| Store.Database.DeleteRecord | preformancetracker/database.py:107-113 | Only that id is removed. An absent id is a no-op, so deleting twice is deleting once. |
| Store.Database.GetAllRecords | preformancetracker/database.py:115-120 | Every stored row appears, and nothing else, in strictly decreasing creation order. |
| Store.Database.Window | preformancetracker/database.py:288 | The result holds exactly the stored rows whose date lies in the window. |
| Store.Database.WindowSize | preformancetracker/database.py:281-288 | The window has exactly one row per stored record dated in it. |
| Store.DescWindowSize | preformancetracker/database.py:281-288 | The window of the id-ordered listing of ids a .. b − 1 has one row per stored id in that range dated in the window. |
| Store.Database.WindowEmpty | preformancetracker/database.py:292-301 | The window is empty exactly when no stored row has a date in it. |
| Store.Database.InsertRecord | preformancetracker/database.py:201-220 | The task is found or created, and one linked row is added under a fresh id. The row is linked to the id the corrected `GetOrCreateTask` returns; as written, the first record of a new task is linked to task id 0 (see Findings). |
| Store.Database.UpdateRecord | preformancetracker/database.py:222-240 | The record table becomes the linked overwrite of that id. |
| Store.Database.StartShift | preformancetracker/database.py:122-128 | An open shift is appended, even while another is open, and it becomes the current shift. |
| Store.Database.FinishShift | preformancetracker/database.py:130-140 | The shifts become `Finish` of the old ones. With no open shift nothing changes. |
| Store.Database.GetCurrentShift | preformancetracker/database.py:142-147 | The result is the open shift created last. There is none exactly when every shift is closed. |
| Store.Database.GetShiftHistory | preformancetracker/database.py:149-154 | The result holds exactly the closed shifts, strictly newest first. |
| Store.Database.GetTaskByName | preformancetracker/database.py:176-182 | The result is the id of a task with that exact pair. None is returned exactly when there is no such task. |
| Store.Database.CreateTask | preformancetracker/database.py:184-190 | Corrected: one task is appended, and its id is returned. |
| Store.Database.CreateTaskAsWritten | preformancetracker/database.py:184-190 | As written: one task is appended, but 0 is returned, and 0 is no task's id. |
| Store.Database.GetOrCreateTask | preformancetracker/database.py:192-197 | The task table gains the pair only if it was absent. The returned id is the lookup's answer afterwards, and it is the existing id when there was one. |
| Store.Database.GetOrCreateTaskAsWritten | preformancetracker/database.py:192-197 | The table changes in the same way, but a newly created task is reported as 0. |
| Store.Database.GetDailyStats | preformancetracker/database.py:273-308 | The 7 keys hold the aggregates of that day's rows, with NULL as 0. total_records is the number of stored records of that day. A day without records gives all zeros, and with records worst ≤ avg ≤ best. |
| Store.Database.GetStatsForDateRange | preformancetracker/database.py:351-385 | The 8 keys hold the aggregates of the inclusive range. total_records is the number of stored records dated in it. No records gives all zeros. With records worst ≤ avg ≤ best. active_days ≤ total_records, and active_days ≤ the days of the range. |
| Store.Database.GetWeeklyStats | preformancetracker/database.py:310-349 | The window is [start, start + 6]. total_records is the number of stored records dated in it. An empty week gives all zeros, and with records worst ≤ avg ≤ best. active_days ≤ 7 and active_days ≤ total_records. |
| Store.StrandedShiftScenario | preformancetracker/database.py:122-154 | Start 08:00, start 09:00, finish 17:00: the 08:00 shift stays current, and the history holds only the 09:00 shift. |
| Store.TaskIdLostScenario | preformancetracker/database.py:184-197 | As written, two requests for one new task return 0 and then 1. |
| Store.TaskIdStableScenario | preformancetracker/database.py:184-197 | Corrected, both requests return 1. |
| App.RecordFollowsMetrics | preformancetracker/app.py:96-101 | For times already parsed, the record dict `App.RecordDataFor` carries the start and finish as typed, actual ≥ 0, performance × effective = target × 100, and break = paid + unpaid only when the switch is on. Paid and unpaid are kept as typed, and the skill is "Picker". |
| App.ShiftDurationVersusElapsed | preformancetracker/database.py:403-407 | For times in order, the shift duration equals the record's elapsed time. Across midnight the shift counts 0 while the record wraps. |
| App.TrackerApp.constructor | preformancetracker/app.py:14-15 | On a new database file, the app has an empty store and edits no record. |
| App.TrackerApp.SaveRecordAsync | preformancetracker/app.py:82-108 | The result is the calculation. On an error the store is untouched. Otherwise the records become the upsert of the form's data under the edited id, and an insert advances the id and stamp counters by one. Shifts and tasks are unchanged. |
| App.TrackerApp.DeleteRecordAsync | preformancetracker/app.py:110-114 | The record is deleted only when the user confirms. Nothing else changes. |
| App.TrackerApp.StartShiftAsync | preformancetracker/app.py:116-124 | The stripped input starts a shift exactly when it parses. Otherwise the shifts are unchanged. Records, tasks and the id counter are unchanged. |
| App.TrackerApp.FinishShiftAsync | preformancetracker/app.py:126-135 | The stripped input finishes the newest open shift only when it parses and the user confirms. Nothing else changes. |
| Debug.Emitted | preformancetracker/debug.py:13-14 | Starting within the cap, the history stays within 200 entries. |
| Debug.EmittedKeepsLast | preformancetracker/debug.py:12-14 | One emit keeps the newest 200 of the old entries plus the new one. |
| Debug.EmittedThenAppend | preformancetracker/debug.py:12-14 | Capping the history after one emit does not change the newest 200 once more entries are appended. |
| Debug.EmittedAllKeepsLast | preformancetracker/debug.py:10-14 | Any sequence of emits keeps exactly the newest 200 entries ever emitted, in order. |
| Debug.LogHistory.constructor | preformancetracker/debug.py:7 | The history starts empty. |
| Debug.LogHistory.Emit | preformancetracker/debug.py:10-14 | The history becomes `Emitted` of the old one: the last 200 of the old entries plus the new one. Below the cap it grows by exactly that entry at the end. At the cap exactly the oldest entry is dropped and the order is kept. It stays within 200 entries. |
| Debug.LogHistory.GetRecentLogs | preformancetracker/debug.py:29-30 | The result is a suffix of the history. For n ≥ 1 it is the last min(n, len) entries. n = 0 gives everything, because `[-0:]` is `[0:]`. For n < 0 the first −n entries are dropped. |

## Left out

- Reopening an existing database file: `CREATE TABLE IF NOT EXISTS` keeps the stored rows. The constructors model only a new file. A reopened file is covered as an arbitrary `Valid()` store, since every method's contract holds from any such state.
- SQLite plumbing is not modelled: connections, schema creation, and the `_execute` wrapper that turns any storage exception into None or 0. The `if not result` fallback of the stats queries is left out for the same reason. An aggregate query always yields one row, so that branch is reached only on a storage error.
- The model does not carry the schema mismatch. `insert_record`, `update_record` and the task functions use a `tasks` table and columns (`task_id`, `break_type`, `battery_changes_*`) that the created schema lacks. Their intended meaning is modelled on one row type holding both column sets. A column a writer does not name keeps its SQL default.
- `get_recent_records` and `get_records_for_date` are not modelled. They are joined reads over those missing tables.
- `get_today_shift_info` is not modelled. It reads a `shift_records` table that is never defined.
- `float()` parsing of the form fields is not modelled; the numbers arrive as reals. IEEE rounding of the percentage and of `total_seconds() / 60` is not modelled either.
- Dates are day numbers, and `strftime('%Y-%m-%d')` of dates is not modelled. The clock is a parameter: the day of an insert, "now" as a minute, and a log entry's time.
- Clock.ParseHHMM: only ASCII digits are accepted, whereas Python's `\d` also matches other Unicode decimal digits.
- Tables.ShiftDuration: the `TypeError` branch is not modelled, because the times are strings.
- The UI is not modelled: dialogs, view switching, toga widgets and the async event loop. A confirmation dialog's answer is a parameter.
- The logging framework is not modelled: handler registration, the formatter and the stderr stream. `Emit` receives the formatted message.
- The default argument `n=50` of `get_recent_logs` is not modelled.

## Findings

| source | as written | input that shows it | evidently intended | confidence | as-written member | corrected member |
|---|---|---|---|---|---|---|
| preformancetracker/database.py:184-190 | `create_task` inserts, then returns `last_insert_rowid()` queried through `_execute`, which opens a new connection, where that value is 0 | `get_or_create_task("Pick", 30.0)` on a store with no tasks returns 0; the same call again returns 1 | return the id of the inserted task | not executed; high (last_insert_rowid is per connection) | Store.Database.CreateTaskAsWritten | Store.Database.CreateTask |
