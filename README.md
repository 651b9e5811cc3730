# Task tracker core in Dafny

This project models the core of a daily task tracker. The server is an Express app on MongoDB. The browser pages list the day's tasks and the task history.

The model covers these parts of the server:
- **Daily record documents.** A record holds one user's tasks for one date. Its totals and completion rate are derived from the task list. The daily-record router creates records, adds tasks, toggles completion and deletes tasks. The router exists in a TypeScript and a JavaScript version.
- **User documents.** A user document carries a streak, a per-day completion summary, friends, friend requests, a ban flag, a warning count and an admin level.
- **The daily rollover.** It extends or resets the streak once per day.
- **The friends router.** It handles requests, accept, deny, remove, search and a friends leaderboard that cleans up stale friend names.
- **The user-management router.** It lists users, toggles bans, issues warnings and deletes users.
- **The admin router.** Its token middleware checks the admin level. It serves four segregated listings and creates admin accounts.
- **The statistics route.** It returns a user's counters and a calendar heat-map.

It also covers these browser-side functions:
- In `tasks.js`: HTML escaping, guessing a difficulty from a title, the difficulty bars, toggling a task, the progress percentage and the countdown to midnight.
- In `task-history.ts`: the completed-first sort, the item markup, the per-day rate, grouping by year, month and day, and the descending list of years.

## How state is kept

The two collections are classes.
- `UserModel.UserStore` holds a field `users: map<UserId, User>`.
- `RecordModel.RecordStore` holds `records: map<(user_id, date), DailyRecord>` and a counter that stands for ObjectId generation.

Each handler is a method that loads a document, transforms it with a function and saves it. A save is a map update.

Each store's `Valid()` bundles what the unique indexes and schema validators guarantee, plus what the handlers keep:
- **Users:** documents are keyed by their `user_id`, usernames and emails are unique, and nobody lists themselves as a friend.
- **Records:** records are keyed by `(user_id, date)`, totals are consistent, task ids are distinct, and titles are trimmed and non-empty.

Every state-changing handler states its exact new state and keeps `Valid()`.

## Values standing in for foreign calls

Foreign calls become values:
- A verified JWT is a `Token`.
- A bcrypt hash, a generated uuid and the join date are parameters.
- The clock is the `today: Date` parameter.
- The database's sorted leaderboard query is a `ranked` sequence. Its required shape is stated by `Friends.IsRanking`.
- Whether a save succeeds is a parameter.

JavaScript conventions are written out:
- A missing or empty request field is `""`.
- `x || 0` is explicit.
- Rates are exact rationals (`real`).
- `Math.round` and integer division are spelled out for non-negative operands.

## Model

| member | source | states |
|---|---|---|
| Auth.Authenticate | backend/routes/dailyrecords.ts:21-43 | No token, a token that fails verification, or a payload without any id all give 401. Otherwise the request proceeds with a non-empty id, taking `user.id` before the legacy `user_id`. |
| UserModel.NewUserDefaults | backend/models/User.ts:4-64 | A new document has every counter at its schema default. Its lists are empty, it is not banned, deleted or admin, and the streak invariant holds. The required validators pass exactly when all four required fields are non-empty. |
| UserModel.FindByUsername | backend/routes/friends.ts:103-109 | Returns the unique document with exactly that username, or none exactly when no document has it. |
| UserModel.ReplaceKeepsWellFormed | backend/models/User.ts:4-22 | Saving a document under its own id, with its username, email and self-exclusion unchanged, keeps the unique indexes satisfied. |
| RecordModel.ParseDifficulty | backend/models/DailyRecord.ts:15-19 | An absent difficulty is Medium. Each enum name maps to itself. Any other value fails the enum validator. |
| RecordModel.ParseDifficultyName | backend/models/DailyRecord.ts:15-19 | Parsing a difficulty's name gives that difficulty back (round trip). |
| RecordModel.NewTask | backend/models/DailyRecord.ts:5-24 | A pushed task has the given id and difficulty, is not completed, and has its title trimmed. It conforms to the schema exactly when the title has a non-space character. |
| RecordModel.NewRecord | backend/models/DailyRecord.ts:27-57 | A new record has the owner and date, no tasks, zero totals, rate 0 and is unlocked. |
| RecordModel.CountCompletedAppend | backend/routes/dailyrecords.ts:153-155 | Counting completed tasks distributes over concatenation. |
| RecordModel.CompletionRate | backend/routes/dailyrecords.ts:123 | The rate is 0 for no tasks; otherwise rate × total = completed × 100. |
| RecordModel.CompletionRateBounds | backend/routes/dailyrecords.ts:121-123 | With consistent totals, the rate lies between 0 and 100. It is 100 exactly when every task is done, and 0 exactly when none is. |
| RecordModel.NewRecordConsistent | backend/models/DailyRecord.ts:36-51 | A new record's totals and rate agree with its empty task list. |
| RecordModel.WellFormedRecordsRaise | backend/models/DailyRecord.ts:60 | Handing out a fresh task id keeps every stored record well formed. |
| RecordModel.WellFormedRecordsStore | backend/models/DailyRecord.ts:60 | Saving a well-formed record under its `(user_id, date)` key keeps the collection well formed. |
| Rollover.TodayStringIsFullDate | backend/utils/dailyRollover.ts:8-14 | For four-digit years, today's string is an RFC 3339 `full-date` that parses back to today. |
| Rollover.YesterdayIsOneDayBefore | backend/utils/dailyRollover.ts:19-26 | Yesterday's string parses to a valid date exactly one day before today, across month ends, year ends and leap days. |
| Rollover.SummaryCount | backend/utils/dailyRollover.ts:36 | A missing summary entry counts as 0; a present one counts as its value. |
| Rollover.CalculateStreak | backend/utils/dailyRollover.ts:33-50 | The streak grows by one after a day with completions and resets to 0 otherwise. The record streak becomes the maximum of itself and the new streak. No other field changes. |
| Rollover.RollOver | backend/utils/dailyRollover.ts:65-78 | A document already stamped today is left alone. Otherwise the streak is recalculated for yesterday and the document is stamped with today. The result is always stamped today. |
| Rollover.RollOverIdempotent | backend/utils/dailyRollover.ts:69-72 | Two rollovers on the same day equal one. |
| Rollover.RollOverKeepsStreakInvariant | backend/utils/dailyRollover.ts:33-50 | The rollover keeps `0 <= current_streak <= highest_streak` and never lowers the record streak. |
| Rollover.StreakGrowsOverActiveDays | backend/utils/dailyRollover.ts:57-86 | Over n distinct days, each preceded by a day with completions, rolling over each day raises the streak by exactly n. |
| Rollover.ProcessDailyRollover | backend/utils/dailyRollover.ts:57-86 | The store is unchanged for an unknown user, a rollover already done today, or a failed save. Otherwise the rolled-over document replaces the stored one. The store stays well formed. |
| DailyRecordRoutes.FindTask | backend/routes/dailyrecords.ts:118-119 | `tasks.id(taskId)`: returns the first task with that id, or none exactly when no task has it. |
| DailyRecordRoutes.AppendTaskKeepsTotals | backend/routes/dailyrecords.ts:73-74 | Pushing an uncompleted task keeps the earlier tasks and puts the new one last. The totals stay consistent and the completed count is unchanged. |
| DailyRecordRoutes.AppendTaskLeavesRateStale | backend/routes/dailyrecords.ts:65-82 | `addTask` does not recompute the rate. If a record had any completed task, its stored rate no longer matches its totals after a push. |
| DailyRecordRoutes.SetAt | backend/routes/dailyrecords.ts:121 | Only the chosen task's `completed` flag changes; every other task is kept. |
| DailyRecordRoutes.CountCompletedSetAt | backend/routes/dailyrecords.ts:122 | Setting one task's flag changes the completed count by that task's change alone. |
| DailyRecordRoutes.SetCompletedKeepsInvariant | backend/routes/dailyrecords.ts:121-123 | After an update the totals and the rate agree with the task list. |
| DailyRecordRoutes.RemoveTaskKeepsInvariant | backend/routes/dailyrecords.ts:150-155 | After a deletion the remaining tasks are exactly the old tasks without that id, and the totals and rate are recomputed consistently. |
| DailyRecordRoutes.RemoveUniqueTask | backend/routes/dailyrecords.ts:150 | With distinct ids, removing the task found at i leaves exactly the tasks before and after i. |
| DailyRecordRoutes.FilterKeepsUniqueIds | backend/routes/dailyrecords.js:107 | Filtering keeps the task ids distinct. |
| DailyRecordRoutes.RemovalLengthIff | backend/routes/dailyrecords.js:106-110 | The filter keeps the length exactly when no task has the id. |
| DailyRecordRoutes.NewRecordOk | backend/routes/dailyrecords.ts:51-55 | A record created for a non-empty user and date is well formed. |
| DailyRecordRoutes.AppendTaskOk | backend/routes/dailyrecords.ts:73-75 | Appending a conforming task with the fresh id keeps the record well formed. |
| DailyRecordRoutes.SetCompletedOk | backend/routes/dailyrecords.ts:121-123 | Updating a task's flag keeps the record well formed. |
| DailyRecordRoutes.RemoveTaskOk | backend/routes/dailyrecords.ts:150-155 | Deleting a task keeps the record well formed. |
| DailyRecordRoutes.GetRecord | backend/routes/dailyrecords.ts:46-62 | A missing date is 400. An existing record is returned unchanged. Otherwise a new empty record is stored and returned. |
| DailyRecordRoutes.AddTask | backend/routes/dailyrecords.ts:65-82 | A missing date or title is 400. A difficulty outside the enum, or a title of only white space, fails validation with 500 and nothing saved. Otherwise the record is found or created, the new task is appended with a fresh id, and `total_tasks` becomes the number of tasks. |
| DailyRecordRoutes.GetTasks | backend/routes/dailyrecords.ts:85-96 | A missing date is 400. Otherwise returns the record's tasks, or an empty list when there is no record. |
| DailyRecordRoutes.GetAllTasks | backend/routes/dailyrecords.ts:99-107 | Returns exactly the current user's records, one per date. |
| DailyRecordRoutes.UpdateTask | backend/routes/dailyrecords.ts:110-131 | A missing field is 400. A missing record or task is 404 with nothing changed. Otherwise only that task's flag changes and the totals and rate are recomputed. |
| DailyRecordRoutes.DeleteTask | backend/routes/dailyrecords.ts:134-163 | A missing field is 400. A missing record or task is 404 with nothing changed. Otherwise the task is pulled and the totals and rate are recomputed. |
| DailyRecordRoutes.DeleteTaskByFilter | backend/routes/dailyrecords.js:98-122 | The JavaScript variant: filter by id and answer 404 when the length is unchanged. Otherwise the filtered list is saved with recomputed totals. |
| DailyRecordRoutes.DeleteVariantsAgree | backend/routes/dailyrecords.js:106-110 | With distinct ids, both deletions find the same tasks and leave the same list. |
| Friends.Without | backend/routes/friends.ts:191 | Filtering a name out never lengthens the list. |
| Friends.WithoutMembers | backend/routes/friends.ts:191 | After filtering a name out, the list holds every other name it held and no copy of the name. |
| Friends.AddIfAbsent | backend/routes/friends.ts:188-190 | The name ends up present. The list is unchanged if the name was there; otherwise the name is appended once. |
| Friends.AutoAcceptSymmetric | backend/routes/friends.ts:186-202 | After the mutual auto-accept, each lists the other as a friend: the target exactly once, and the requester exactly once if it was absent. Neither holds a request from the other. Only those two lists change. |
| Friends.AcceptSymmetric | backend/routes/friends.ts:270-277 | After an accept, each side lists the other and neither holds a request from the other. The accepter's copies of the name grow by one. |
| Friends.AcceptCanListTwice | backend/routes/friends.ts:270-271 | The accepting side appends without checking, so a name already listed appears twice. |
| Friends.RemoveSymmetric | backend/routes/friends.ts:354-355 | After a removal, neither side lists the other and every other friend is kept. |
| Friends.SaveUser | backend/routes/friends.ts:198-199 | Saving a document that keeps its identity fields and does not name itself keeps the store well formed. |
| Friends.SendRequest | backend/routes/friends.ts:138-213 | Each rejection (400 or 404), in the code's order, leaves the store unchanged. A pending request from the target is accepted on both sides. Otherwise our name is appended to the target's requests. |
| Friends.ListRequests | backend/routes/friends.ts:217-234 | Unknown user is 404; otherwise returns the incoming requests. |
| Friends.AcceptRequest | backend/routes/friends.ts:238-287 | Each of these saves nothing: missing name 400; unknown current user or target 404; no request from the target 400. Otherwise the accepter appends the name unconditionally, the target adds the accepter if absent, and both clear the mutual request. |
| Friends.DenyRequest | backend/routes/friends.ts:291-321 | Each of these saves nothing: missing name 400; unknown user 404; no such request 400. Otherwise only the current user's requests lose the name. |
| Friends.RemoveFriend | backend/routes/friends.ts:325-365 | Each of these saves nothing: missing name 400; unknown user or target 404; not a friend 400. Otherwise each side loses the other from its friends. |
| Friends.Search | backend/routes/friends.ts:82-134 | Each of these is refused: empty query 400; unknown user 404; one's own name in any case 400. Otherwise the answer is "no such user" exactly when no name matches ignoring case. A hit reports friend, incoming and outgoing status, and a request can be sent exactly when none of the three holds. |
| Friends.OutgoingMeansPendingAtTarget | backend/routes/friends.ts:113-120 | The outgoing flag is set exactly when the target holds our pending request. |
| Friends.Rows | backend/routes/friends.ts:57-60 | The leaderboard rows are the ranked users' rows, in ranking order. |
| Friends.Leaderboard | backend/routes/friends.ts:42-78 | Unknown user is 404. Given the query's ranking, the rows are those of the user and its non-banned friends by points, highest first. The friend list is filtered to the listed names exactly when some friend is no longer listed; otherwise nothing is saved. |
| Friends.CleanupKeepsListedFriends | backend/routes/friends.ts:63-71 | The cleanup keeps a friend exactly when that friend exists and is not banned. |
| Moderation.Redact | backend/routes/userRoutes.ts:10 | The listing omits the hash and nothing else. |
| Moderation.RedactHidesHash | backend/routes/userRoutes.ts:10 | Documents that differ only in their hash list the same. |
| Moderation.ToggleBan | backend/routes/userRoutes.ts:23 | The ban flag flips and nothing else changes. |
| Moderation.ToggleBanTwice | backend/routes/userRoutes.ts:23 | Two toggles restore the document. |
| Moderation.Warn | backend/routes/userRoutes.ts:38-43 | The count grows by one. The user is banned exactly when already banned or when the count reaches 5. Nothing else changes. |
| Moderation.WarnTimesBans | backend/routes/userRoutes.ts:38-43 | n warnings raise the count by n, never lift a ban, and ban once the count reaches 5. |
| Moderation.FifthWarningBans | backend/routes/userRoutes.ts:41-43 | From zero warnings, four warnings do not ban and the fifth does. |
| Moderation.ListUsers | backend/routes/userRoutes.ts:8-15 | Lists every user, with the hash omitted. |
| Moderation.Ban | backend/routes/userRoutes.ts:18-29 | Unknown id is 404; otherwise the toggled document is saved and returned. |
| Moderation.WarnUser | backend/routes/userRoutes.ts:32-50 | Unknown id is 404; otherwise the warned document is saved and returned. |
| Moderation.Delete | backend/routes/userRoutes.ts:53-61 | Unknown id is 404; otherwise the document is removed from the store. |
| AdminRoutes.AdminAuthenticate | backend/routes/adminRoutes.ts:21-46 | A missing token or one that fails verification is 401. A level below the requirement (a missing level counts as 0) is 403. Otherwise the request proceeds exactly then, with the payload's id and its level. |
| AdminRoutes.AdminLevelsNest | backend/routes/adminRoutes.ts:34-38 | Passing level 2 implies passing level 1; a payload without a level is refused level 1. |
| AdminRoutes.RequiredLevel | backend/routes/adminRoutes.ts:53-93 | Only the deleted-admins listing demands level 2; the others demand 1. |
| AdminRoutes.ListingsPartition | backend/routes/adminRoutes.ts:55-88 | Each user with a non-negative level is in exactly one of the four listings; a user with a negative level is in none. |
| AdminRoutes.List | backend/routes/adminRoutes.ts:53-93 | Returns the middleware's refusal, or exactly the users matching the listing's filter, with the hash omitted. |
| AdminRoutes.NewAdmin | backend/routes/adminRoutes.ts:134-141 | The new document carries the given identity, the hash, the join date, the admin flag and the level. Every other field takes its default. |
| AdminRoutes.CreateAdmin | backend/routes/adminRoutes.ts:98-147 | Rejections, each with nothing saved: level-2 middleware; missing field 400; level not the number 1 or 2 is 400; email or username taken 400; id clash or empty required field 500. Otherwise returns 201 with id, username and level, and stores the new admin. |
| AdminRoutes.CreatedAdminIsCurrentAdmin | backend/routes/adminRoutes.ts:73-81 | A created admin appears in the current-admin listing and in no other. |
| Stats.HeatmapKeyOfDate | backend/routes/stats.ts:59-61 | A date's key is its days since 1970-01-01 times 86400, written in decimal. |
| Stats.HeatmapKeyNextDay | backend/routes/stats.ts:59-61 | The epoch's key is "0", and the next day's key is 86400 further. |
| Stats.ValidKeyNotInvalid | backend/routes/stats.ts:59-64 | A real date never gets the "NaN" key. |
| Stats.HeatmapKeyInjective | backend/routes/stats.ts:59-61 | Distinct parsable date strings never share a key (every unparsable string gets "NaN"). |
| Stats.ConvertToCalendarData | backend/routes/stats.ts:51-69 | The keys are the images of the summary's dates, and every real date keeps its count. The "NaN" key holds the count of some unparsable entry. |
| Stats.TasksMissed | backend/routes/stats.ts:91 | Tasks missed is `max(0, created - completed)`: the shortfall, never negative. |
| Stats.GetStats | backend/routes/stats.ts:75-109 | Refused token 401, unknown user 404. Otherwise the body holds the username, the completed and created counters (the latter as tasks started), the tasks missed, the points and the converted heat-map. The answer carries no streak fields. |
| TasksPage.EscapeHtml | frontend/tasks.js:71-84 | An absent value gives the empty string. The output holds no `<` or `>`, and decodes back to the input text. |
| TasksPage.EscapeHasNoMarkup | frontend/tasks.js:71-84 | Escaped text holds no HTML special character except the `&` that opens an entity. |
| TasksPage.UnescapeEscape | frontend/tasks.js:71-84 | Decoding the entities of escaped text gives the original text back (round trip). |
| TasksPage.InferDifficulty | frontend/tasks.js:142-147 | On the lower-cased title (`A`-`Z` and the Kelvin sign U+212A lowered), "workout" or "project" makes a task Hard, checked first. Otherwise "read" or "plan" makes it Easy. Anything else, including no title, is Medium. |
| TasksPage.InferIgnoresCase | frontend/tasks.js:142-147 | The guess does not depend on letter case: a title and its lower-cased form get the same difficulty. |
| TasksPage.KelvinSignIsK | frontend/tasks.js:142-147 | "WOR\U{212A}OUT PLAN", with a Kelvin sign for the `K`, lower-cases to "workout plan" and is Hard. |
| TasksPage.HardKeywordWins | frontend/tasks.js:143-145 | A title containing "project" in any letter case is Hard, whatever else it contains. |
| TasksPage.DifficultyLevel | frontend/tasks.js:239-241 | "easy" is 1 bar, "medium" 2, "hard" 3, and any other name 0. |
| TasksPage.StoredDifficultyLevels | frontend/tasks.js:239-241 | The stored difficulty names, lower-cased, draw 1, 2 and 3 bars in order. |
| TasksPage.StoredNameLabel | frontend/tasks.js:239 | A span showing a stored difficulty name and no stored label reads the name lower-cased. |
| TasksPage.RenderBars | frontend/tasks.js:237-253 | The label is the stored `data-difficulty`, or else the trimmed, lower-cased text, and it is stored back. Of three bars, bar i is filled exactly when i ≤ the label's level, so exactly that many bars are filled. |
| TasksPage.RenderAgainSameLabel | frontend/tasks.js:239-243 | Rendering an already rendered span again reads the same label, so it draws the same bars. |
| TasksPage.PatchByTitleEffect | frontend/tasks.js:183-189 | Patching changes only the first task with the title, and only its completion flag. Without such a task, exactly one task with the title and flag is appended. |
| TasksPage.PatchByTitleIdempotent | frontend/tasks.js:183-189 | After a patch, the first task with the title carries the flag, so patching again changes nothing. |
| TasksPage.ClientRecord.ToggleTaskState | frontend/tasks.js:170-194 | The new flag is true exactly when the status was not "completed". The cached list is patched by title with it. |
| TasksPage.ClientRecord.ToggleTomorrowCancel | frontend/tasks.js:197-223 | Whatever the status, the cached list is patched by title with "not completed". |
| TasksPage.ProgressPercent | frontend/tasks.js:229 | 0 for no tasks. Otherwise the integer nearest to completed × 100 / total, with halves rounded up. |
| TasksPage.ProgressPercentBounds | frontend/tasks.js:229 | With completed ≤ total, the percentage is between 0 and 100. It is 0 when nothing is done and 100 when everything is. |
| TasksPage.CountdownParts | frontend/tasks.js:336-339 | Minutes and seconds are below 60. The hours, minutes and seconds bound the remaining milliseconds from below, within a second. |
| TasksPage.CountdownShape | frontend/tasks.js:330-346 | Within a day of midnight, the countdown is `HH:MM:SS`, each field the two decimal digits of its part. |
| TaskHistory.SortCompletedFirstCorrect | frontend/task-history.ts:91-92 | The sorted list puts every completed task first. It is a permutation of the input and keeps the order within each group. |
| TaskHistory.StatusLabel | frontend/task-history.ts:96 | "completed" exactly when the task is done, "missed" exactly when it is not. |
| TaskHistory.ItemHtmlInjectsTitle | frontend/task-history.ts:98-103 | As written, the title `<b>x</b>` puts a `<b>` tag into the item's markup. |
| TaskHistory.ItemHtmlKeepsTitleText | frontend/task-history.ts:98-103 | With escaping, the first span holds the escaped title. That text includes no `<` or `>`, and decodes back to the title. |
| TaskHistory.EmptyDayRateIsNaN | frontend/task-history.ts:142-144 | As written, the rate is undefined (NaN) for a day with no tasks. `DayRateAsWritten` is undefined exactly then. |
| TaskHistory.DayRateBounds | frontend/task-history.ts:142-146 | The corrected rate is between 0 and 100, and agrees with the as-written rate on every non-empty day. It is 0 when no task is done and 100 when all are. |
| TaskHistory.GroupLastWriterWins | frontend/task-history.ts:117-132 | A (year, month, day) is present exactly when some record has it. It then holds the tasks of the last such record. |
| TaskHistory.GroupRecords | frontend/task-history.ts:117-132 | The loop builds the same nested grouping as the functional definition. |
| TaskHistory.YearsDescending | frontend/task-history.ts:172-173 | Returns exactly the given years, in strictly decreasing order, so each appears once. |
| TaskHistory.GroupYears | frontend/task-history.ts:117-132 | The grouping's years are exactly the records' years. |

## Left out

- Token verification, password hashing, the uuid, ObjectId generation and the clock are foreign calls. Their results are parameters or fields.
- Concurrency is not modelled. Each handler runs atomically, including the re-read of the target at backend/routes/friends.ts:180-183.
- Database failures are not modelled, apart from the rollover's failed save and the validation failures modelled in `AddTask` and `CreateAdmin`. Each `catch` → 500 path that a failure would reach is not modelled.
- The order of database query results is not modelled. Query results are maps keyed by id. The leaderboard's sorted query is the `ranked` parameter, whose shape `IsRanking` requires.
- Floating point is not modelled. Rates are exact rationals, and `Math.round` and the countdown's divisions are exact integer arithmetic. The two can differ at a half: for 29 tasks done of 200, IEEE arithmetic gives `29/200*100 = 14.499999999999998` and `Math.round` gives 14, where the exact rate 14.5 rounds to 15.
- TasksPage.InferDifficulty and TasksPage.InferIgnoresCase lower-case `A`-`Z` and U+212A KELVIN SIGN (to `k`) only; JavaScript's `toLowerCase` also applies the other Unicode case mappings. None of those yields an ASCII letter of the keywords "workout", "project", "read" or "plan" (U+0130 gives `i` plus a combining dot, and no keyword contains `i`), so the difficulty guess is unaffected, but `TasksPage.BarLabel` and `TasksPage.RenderBars` keep other non-ASCII capitals as they are.
- Search's `RegExp` is not modelled: the query is matched literally, not as a regular expression. Case-insensitivity covers ASCII letters only. Trimming follows ECMAScript white space.
- Mongoose strict mode is not modelled. `isAdmin`, `adminLevel`, `isDeleted`, `friends`, `friendRequests`, `warnCount`, `isBanned`, `total_tasks_created` and `last_rollover_date` are treated as stored with their defaults, although backend/models/User.ts does not declare every one of them. `Rollover.RollOverIdempotent` and the "already done today" branch of `Rollover.ProcessDailyRollover` depend on `last_rollover_date` being stored; under a strict save the stamp is dropped and every later call on the same day recalculates the streak again.
- `Date` parsing is modelled as strict RFC 3339 `full-date` parsing; V8 also accepts strings such as 2024-02-30 or non-ISO formats. Heat-map dates that are not `YYYY-MM-DD` take the "NaN" key.
- TaskHistory: the year of a record whose date does not parse is not modelled. GET `/` stores any non-empty date string, and `getFullYear()` of an invalid date is NaN, so such records are grouped under the key "NaN", for which the year comparator at frontend/task-history.ts:173 returns NaN and the order is left to the engine. `TaskHistory.Group`, `TaskHistory.GroupRecords` and `TaskHistory.YearsDescending` take integer years as inputs and do not describe that group or its position.
- Moderation.Ban, Moderation.WarnUser, Moderation.Delete and AdminRoutes.CreateAdmin identify the document `_id` with `user_id`: the source looks users up with `findById`/`findByIdAndDelete` on `_id`. An id that is not a valid ObjectId makes those calls throw a CastError, which the source answers with 500; the model answers 404 for every unknown id. The id in `CreateAdmin`'s reply is the generated uuid, where the source replies with the document's `_id`. Friends.Rows and Friends.Leaderboard leave `_id` out of `LeaderRow`, although the `.select(...)` at backend/routes/friends.ts:60 still returns it with each row.
- `Auth.Authenticate` models the TypeScript routers' middleware, which refuses an empty id. The JavaScript middleware at backend/routes/dailyrecords.js:7-18 passes an empty id through. The handlers therefore require a non-empty `userId`.
- DailyRecordRoutes: the JavaScript router's GET, addTask, getTasks and updateTask do the same as the TypeScript ones and share their members. Only its delete-by-filter differs, and it has its own member.
- `Stats.GetStats` does not model the 401 at backend/routes/stats.ts:78-80, because the middleware never lets an empty id through.
- DOM updates, `fetch`, local storage and the per-element counting in updateProgress are not modelled. Only the computations they feed are modelled.
- saveRecordTasks in frontend/tasks.js is not modelled, because it only sends the cached list to the server.
- JavaScript's in-place `Array.sort` and object key iteration order are not modelled. The sort is a function on sequences. The grouping is nested maps, and the years are sorted separately.
- Month and day labels are not modelled: they are locale rendering, so the grouping takes year, month and day as inputs.
- A `completed` that is not a boolean is not modelled: `completed` is a `bool` everywhere. A history task with no `completed` field counts as not done.
- `daily_completion_summary`, `total_points`, `total_tasks_completed` and `locked` are modelled as fields only. No handler shown here writes the first three, and none reads `locked`. The rollover is modelled as a function of a user, although nothing shown here calls processDailyRollover.
- The user-management router in backend/routes/userRoutes.ts: its routes carry no authentication middleware; neither server file shown mounts it (nor the friends and admin routers). Its delete removes the document for good and leaves the user's name in other users' friend lists. The model reproduces both.

## Findings

| source | as written | input that shows it | evidently intended | confidence | as-written member | corrected member |
|---|---|---|---|---|---|---|
| frontend/task-history.ts:142-144 | The day's rate is `completed / tasks.length * 100` with no guard for an empty list | A day with no tasks, which GET `/` creates. The rate is 0/0 = NaN and the page shows "NaN%" | 0% for a day without tasks, as the server's `completion_rate` does | not executed | TaskHistory.EmptyDayRateIsNaN | TaskHistory.DayRateBounds |
| frontend/task-history.ts:98-103 | The task title is interpolated into `innerHTML` without escaping | Title `<b>x</b>`: the item's markup contains the `<b>` element | Escape the title, as `escapeHtml` does in frontend/tasks.js:71-84 | not executed | TaskHistory.ItemHtmlInjectsTitle | TaskHistory.ItemHtmlKeepsTitleText |
