# ActivityTracker core, modelled in Dafny

ActivityTracker logs user activity events (page views, clicks, purchases, …) into a SQL
database and reports on them. The model covers four parts of it.

- **`ActivityService`, logging and the writer.**
  - `LogUserActivity(userId, …)` builds an event and writes it to a bounded channel (capacity 10000, writers wait when it is full).
  - `LogUserActivity(username, email, …)` first resolves the user by the trimmed, lower-cased email. It looks the user up, inserts one if absent, and re-queries when the insert hits the unique email index.
  - A background writer drains the channel in batches of up to 500 events into the UserActivities table. It clears its buffer whether the save succeeds or fails.
- **The six reports.** These are most active users, average activities per session, daily and weekly active users, the duration of one session, and the durations of the most recent sessions. Each is a pure function over the sequence of stored events (and the Users table where names are needed).
- **`Seeder.SeedBulk`.**
  - It creates `numUsers` seed users, then gives each user `activitiesPerUser` events spread over about one session per four events. Sessions differ in size by at most one.
  - Timestamps lie up to 119 min 59 s after a random session base within the last 30 days.
  - All rows go to the table with a bulk copy, in chunks of at most 50000 rows.
- **The records.** A user row (`Models.User`) has an id, a username and an email. An event row (`Models.UserActivity`) has an id, a user id, an activity type, a timestamp, a session id and metadata.
- **The store.** The Users and UserActivities tables are sequences of rows in insertion order. Identity ids count up, Users.Email is unique, and a failing save leaves a table unchanged.

## How the model is built

- **Timestamps** are integers counting 100 ns ticks.
- **Clock, random numbers and GUIDs.**
  - `DateTimeOffset.UtcNow` is a parameter (`now`, or `clock` in the seeder).
  - `Random.Next(lo, hi)` is a caller-supplied integer reduced into `[lo, hi)` (`Seeding.NextIn`). It is indexed by what it is drawn for: the user, the session and the activity (`Seeding.Draw`).
  - `Guid.NewGuid()` is a caller-supplied function of the user and session.
- **Class-based parts.**
  - The channel is an object (`Channels.BoundedChannel`) holding a `seq` that its methods reassign.
  - The database is an object (`Store.ActivityDb`) with the two tables and the next identity values.
  - `Service.ActivityService` holds both, plus the writer's buffer.
- **Database faults.** A save that throws for reasons the model does not see is a `fault` boolean parameter.
- **The resolver's race.** The race declared in the resolver's `catch` is the `rival` parameter: another request that stores a user under the same email between the lookup and the save.
- **A producer waiting on a full channel.** The call returns `Waiting(activity)` with the channel unchanged. The call resumes once the writer makes room.
- **One writer round.** One iteration of the `ProcessQueueAsync` loop is `ProcessQueueStep`. A cancelled token ends the loop before anything is read.
- **Reports.**
  - The reports are functions of the event sequence.
  - The grouping (`Grouping.Keys`, `Grouping.Count`) and the descending sort with `Take` (`Ranking.SortDesc`, `Ranking.Take`) are generic. Each has its own proved contract.
- **Seeder loops.** Its three nested `for` loops are the methods `EmitAll`, `EmitUser` and `EmitSession`. They are specified against the function `PlannedRows`, the rows the loops generate in order. Each of the 50000-row flushes is recorded in the `flushes` result.

## Model

| member | source | states |
|---|---|---|
| Text.Trim | ActivityTracker/ActivityTracker/Services/ActivityService.cs:70 | the result is the input with the longest white-space prefix and suffix removed; it is empty exactly when the input is all white space, and otherwise begins and ends with a non-white character |
| Text.ToLower | ActivityTracker/ActivityTracker/Services/ActivityService.cs:70 | same length, each letter mapped to lower case, no upper-case letter left |
| Text.NormalizeEmail | ActivityTracker/ActivityTracker/Services/ActivityService.cs:70 | the lookup key `email.Trim().ToLowerInvariant()`: no longer than the email, empty exactly when the email is blank, no surrounding white space, no upper-case letter |
| Text.NormalizeIdempotent | ActivityTracker/ActivityTracker/Services/ActivityService.cs:70 | normalising a normalised key changes nothing |
| Text.NonBlankEmailHasKey | ActivityTracker/ActivityTracker/Services/ActivityService.cs:67-70 | an email that passes the IsNullOrWhiteSpace guard normalises to a non-empty key |
| Store.FindUser | ActivityTracker/ActivityTracker/Services/ActivityService.cs:72-74 | FirstOrDefault over `u.Email.ToLower() == key`: None exactly when no row matches, otherwise the first matching row |
| Store.FindUserMissesFreeKey | ActivityTracker/ActivityTracker/Services/ActivityService.cs:72-88 | a failed lookup for a lower-case key means the key is free in the unique email index, so the insert can succeed |
| Store.FindUserAfterInsert | ActivityTracker/ActivityTracker/Services/ActivityService.cs:93-95 | after a row stored under the key is appended to a table with no match, the re-query finds exactly that row |
| Store.FindUserInNormalizedTable | ActivityTracker/ActivityTracker/Data/ActivityContext.cs:43-46 | in a table of lower-case emails the lookup succeeds exactly when the unique index already holds the key, and finds the row stored under it |
| Store.Numbered | ActivityTracker/ActivityTracker/Services/ActivityService.cs:214-215 | the saved rows are the batch in order, with consecutive identity ids from the next value |
| Store.ActivityDb.InsertUser | ActivityTracker/ActivityTracker/Services/ActivityService.cs:84-88 | the user is stored with the next id unless its email is taken or the save faults; a failed save leaves the table as it was |
| Store.ActivityDb.InsertUsers | ActivityTracker/ActivityTracker/Services/Seeder.cs:41-42 | all users are stored with consecutive ids, or none when an email clashes or the save faults; the unique index is kept |
| Store.ActivityDb.InsertActivities | ActivityTracker/ActivityTracker/Services/ActivityService.cs:214-215 | the batch is appended with consecutive ids when the save succeeds, nothing changes when it fails |
| Store.ActivityDb.BulkCopy | ActivityTracker/ActivityTracker/Services/Seeder.cs:105-123 | the rows are appended in order with consecutive identity ids |
| Channels.BoundedChannel.Write | ActivityTracker/ActivityTracker/Services/ActivityService.cs:27-34 | a completed channel refuses, a full one (10000 items) makes the writer wait with nothing changed, otherwise the item is appended at the tail; the queue never exceeds 10000 |
| Channels.BoundedChannel.TryRead | ActivityTracker/ActivityTracker/Services/ActivityService.cs:207 | the head of the queue, removed, or nothing from an empty queue |
| Channels.BoundedChannel.Complete | ActivityTracker/ActivityTracker/Services/ActivityService.cs:243 | the channel is completed and its items stay queued |
| Service.NewActivity | ActivityTracker/ActivityTracker/Services/ActivityService.cs:47-54 | the new event carries the given user id, type, session id and clock reading, with metadata `metadata ?? ""` |
| Service.ActivityService.LogUserActivity | ActivityTracker/ActivityTracker/Services/ActivityService.cs:41-57 | exactly one event is appended at the tail and the queued events are unchanged; a full channel makes the call wait and a completed one makes it fail, with the queue unchanged |
| Service.ActivityService.ResolveUser | ActivityTracker/ActivityTracker/Services/ActivityService.cs:72-103 | an existing user for the key is used and nothing is inserted; otherwise one insert is attempted; when a rival stored the key first, the re-query finds and uses the rival's row; when the save fails for another reason nobody is found and the table is unchanged; the user used is the one the table holds under the key; at most one row, stored under the key, is added |
| Service.ActivityService.LogUserActivityForEmail | ActivityTracker/ActivityTracker/Services/ActivityService.cs:60-106 | a blank email fails before any lookup, insert or enqueue; the call fails on the user's save exactly when no user holds the key, no rival stored it and our save faulted; otherwise the event is enqueued as by LogUserActivity for the user the table holds under the normalised email |
| Service.ActivityService.ProcessQueueStep | ActivityTracker/ActivityTracker/Services/ActivityService.cs:205-229 | a cancelled token changes nothing; an empty queue ends the loop when completed and waits otherwise; else the first min(500, queued) events, in order, are saved as one batch (or dropped when the save fails), the queue keeps exactly the rest, and the buffer is empty afterwards |
| Grouping.Count | ActivityTracker/ActivityTracker/Services/ActivityService.cs:114-115 | the size of a group, positive exactly when some event has the key |
| Grouping.Keys | ActivityTracker/ActivityTracker/Services/ActivityService.cs:114 | the GroupBy keys: distinct, each one occurring in the input and every key of the input listed |
| Grouping.SumOfGroupSizes | ActivityTracker/ActivityTracker/Services/ActivityService.cs:137-139 | the group sizes add up to the number of events |
| Grouping.KeysCountKeySet | ActivityTracker/ActivityTracker/Services/ActivityService.cs:152-154 | the number of listed keys is the number of distinct keys (`Distinct().Count()`) |
| Ranking.SortDesc | ActivityTracker/ActivityTracker/Services/ActivityService.cs:116 | OrderByDescending: a permutation of its input in non-increasing rank |
| Ranking.Take | ActivityTracker/ActivityTracker/Services/ActivityService.cs:117 | Take(n): the first n elements, none for n <= 0, all for n >= the length |
| Ranking.TopSpec | ActivityTracker/ActivityTracker/Services/ActivityService.cs:114-117 | the top n groups: min(n, groups) of them, non-increasing in rank, each a group, distinct keys, and any group left out ranks no higher than every listed one while n groups are listed |
| Reports.UsernameOf | ActivityTracker/ActivityTracker/Services/ActivityService.cs:122-127 | the username of the user row with the id, "Unknown" exactly when there is none |
| Reports.UserCounts | ActivityTracker/ActivityTracker/Services/ActivityService.cs:114-115 | one entry per active user id, with the number of its events as count |
| Reports.MostActiveUsers | ActivityTracker/ActivityTracker/Services/ActivityService.cs:110-127 | at most topN entries (min(topN, active users)), counts non-increasing, each count the number of events of that user and at least one, distinct ids, the name looked up or "Unknown"; an active user left out has no more events than any listed one |
| Reports.ActiveUserLeftOut | ActivityTracker/ActivityTracker/Services/ActivityService.cs:116-117 | an active user missing from the top list means the list is full and every listed count is at least that user's count |
| Reports.AverageActivitiesPerSession | ActivityTracker/ActivityTracker/Services/ActivityService.cs:130-142 | 0 with no events; otherwise the number of events over the number of distinct sessions, which is the mean group size and at least 1 |
| Reports.Midnight | ActivityTracker/ActivityTracker/Services/ActivityService.cs:146 | the start of the UTC day holding the instant |
| Reports.EventsBetween | ActivityTracker/ActivityTracker/Services/ActivityService.cs:151 | exactly the events in the half-open window [start, end) |
| Reports.ActiveUsersBetween | ActivityTracker/ActivityTracker/Services/ActivityService.cs:149-154 | the number of distinct user ids with an event in the window; at most the events in it, and 0 exactly when it holds none |
| Reports.DailyActiveUsers | ActivityTracker/ActivityTracker/Services/ActivityService.cs:144-155 | distinct users in [midnight(d), midnight(d) + 1 day), at most the events in that window |
| Reports.WeeklyActiveUsers | ActivityTracker/ActivityTracker/Services/ActivityService.cs:157-168 | distinct users in [midnight(d), midnight(d) + 7 days), at most the events in that window |
| Reports.WiderWindowMoreUsers | ActivityTracker/ActivityTracker/Services/ActivityService.cs:149-167 | a wider window never counts fewer users |
| Reports.SessionFirst | ActivityTracker/ActivityTracker/Services/ActivityService.cs:177 | the minimum timestamp of the session: attained by one of its events, no later than any |
| Reports.SessionLast | ActivityTracker/ActivityTracker/Services/ActivityService.cs:177 | the maximum timestamp of the session: attained by one of its events, no earlier than any |
| Reports.SessionDuration | ActivityTracker/ActivityTracker/Services/ActivityService.cs:171-182 | none exactly when no event has the session id; otherwise max - min of its timestamps: non-negative, the difference of two of its events and at least every such difference |
| Reports.SingleEventSession | ActivityTracker/ActivityTracker/Services/ActivityService.cs:171-182 | a session with a single event lasts 0 |
| Reports.TwoEventSessionScenario | ActivityTracker/ActivityTracker/Services/ActivityService.cs:171-182 | two events of one session, five minutes apart, give a five-minute duration |
| Reports.SessionSpans | ActivityTracker/ActivityTracker/Services/ActivityService.cs:188-189 | one entry per session id with its min and max timestamps |
| Reports.SessionsListed | ActivityTracker/ActivityTracker/Services/ActivityService.cs:188-194 | min(take, sessions) entries; each listed session exists, once, with the duration GetSessionDuration gives it, latest-ending first |
| Reports.SessionLeftOut | ActivityTracker/ActivityTracker/Services/ActivityService.cs:190-191 | a session missing from the list means the list is full and the missing session ended no later than any listed one |
| Reports.RecentSessionDurations | ActivityTracker/ActivityTracker/Services/ActivityService.cs:184-195 | min(take, sessions) entries, ordered by non-increasing last timestamp, distinct session ids, each duration non-negative and equal to GetSessionDuration's; a session left out ended no later than any listed one |
| Seeding.ClampActivities | ActivityTracker/ActivityTracker/Services/Seeder.cs:25 | a non-positive count becomes 1, a positive one is kept |
| Seeding.SessionsPerUser | ActivityTracker/ActivityTracker/Services/Seeder.cs:62-63 | between 1 and the activity count; 1 below 8 activities; about a quarter of the activities from 4 on |
| Seeding.SessionSize | ActivityTracker/ActivityTracker/Services/Seeder.cs:65-71 | base + 1 exactly for the first `remainder` sessions, base for the others, never 0 |
| Seeding.SessionSizesBalanced | ActivityTracker/ActivityTracker/Services/Seeder.cs:65-71 | two sessions of a user differ in size by at most one |
| Seeding.SizesUpToClosed | ActivityTracker/ActivityTracker/Services/Seeder.cs:65-71 | the first k sessions hold k * base + min(k, remainder) activities |
| Seeding.SessionSizesSum | ActivityTracker/ActivityTracker/Services/Seeder.cs:65-71 | the session sizes add up to exactly the activities per user |
| Seeding.SeedUser | ActivityTracker/ActivityTracker/Services/Seeder.cs:33-38 | the username `seed_user_<suffix>` and the email `seed_<suffix>@example.com` |
| Seeding.SeedEmailInjective | ActivityTracker/ActivityTracker/Services/Seeder.cs:33-38 | two seed users share an email only if they share a suffix |
| Seeding.SeedUsersUnique | ActivityTracker/ActivityTracker/Services/Seeder.cs:30-42 | seed users with distinct suffixes satisfy the unique email index |
| Seeding.BuildSeedUsers | ActivityTracker/ActivityTracker/Services/Seeder.cs:30-39 | one seed user per index, in order, built from that index's suffix |
| Seeding.NextIn | ActivityTracker/ActivityTracker/Services/Seeder.cs:73-78 | a draw of Random.Next(lo, hi) lies in [lo, hi) |
| Seeding.SessionBase | ActivityTracker/ActivityTracker/Services/Seeder.cs:73 | the session base lies within 43199 minutes before the clock reading |
| Seeding.RowAt | ActivityTracker/ActivityTracker/Services/Seeder.cs:75-81 | a generated row carries the current user's id and the session's GUID, one of the five activity types and the sample metadata, with a timestamp in [base, base + 119 min 59 s] |
| Seeding.SessionRows | ActivityTracker/ActivityTracker/Services/Seeder.cs:70-81 | a session yields exactly its size in rows, all generated for that user and session |
| Seeding.PlannedRowsCount | ActivityTracker/ActivityTracker/Services/Seeder.cs:58-90 | the loops generate users * activities-per-user rows |
| Seeding.RowOrigin | ActivityTracker/ActivityTracker/Services/Seeder.cs:58-90 | each generated row is row j of session s of user u for some valid u, s, j |
| Seeding.SeededSessionDuration | ActivityTracker/ActivityTracker/Services/Seeder.cs:73-78 | with distinct session GUIDs, every seeded session is found by GetSessionDuration and lasts at most 119 min 59 s |
| Seeding.WriteTableToServer | ActivityTracker/ActivityTracker/Services/Seeder.cs:101-103 | an empty table changes nothing; otherwise its rows are bulk-copied |
| Seeding.AddRow | ActivityTracker/ActivityTracker/Services/Seeder.cs:81-87 | the row is added; a table reaching 50000 rows is copied as a full chunk and cleared, so the table stays below 50000 |
| Seeding.EmitSession | ActivityTracker/ActivityTracker/Services/Seeder.cs:68-88 | the inner loop adds exactly the session's planned rows, in order |
| Seeding.EmitUser | ActivityTracker/ActivityTracker/Services/Seeder.cs:60-89 | the middle loop adds exactly the user's planned rows, in order |
| Seeding.EmitAll | ActivityTracker/ActivityTracker/Services/Seeder.cs:58-90 | the outer loop adds all planned rows, in order, through full chunks and what is left in the table |
| Seeding.SeedActivities | ActivityTracker/ActivityTracker/Services/Seeder.cs:58-96 | all planned rows are copied exactly once, in order, in chunks of 1 to 50000 rows, all but the last full |
| Seeding.SeedBulk | ActivityTracker/ActivityTracker/Services/Seeder.cs:21-99 | nothing happens for numUsers <= 0; a failed user save writes nothing; otherwise the seed users get consecutive ids, and numUsers * max(activitiesPerUser, 1) planned rows are copied in order in 50000-row chunks |

## Left out

- Concurrency: `Task.Run`, the background writer running beside the producers, and the single-reader and multiple-writer channel options. Each call is one atomic step, and a producer's wait on a full channel is the `Waiting` result.
- `CancellationToken`, `Task.Delay(_flushInterval)` and `DisposeAsync`. Cancellation is the `cancelled` flag of one writer round. The `Task.Delay` branch is not reached with a single reader. The model makes no claim that shutdown drains the queue, and the source does not promise one either, since it cancels right after completing.
- Service.ActivityService.ProcessQueueStep: the cancellation of a save already in progress by the token is not modelled. A fault during the save is the `writeFails` flag.
- EF Core's change tracker keeps entities from a failed `SaveChangesAsync` and would retry them on a later save. The model keeps only the service's own state.
- SQL semantics are left out: collation (case-insensitive comparison, trailing-space equality) and LINQ-to-SQL translation. The predicates are read as written, on exact strings.
- `ToLowerInvariant`, `ToLower` and `Trim` are modelled for ASCII letters and the .NET white-space characters only. Full-Unicode case mapping is left out.
- `DateTimeOffset` offsets and the range of valid instants. The report's `day` argument is the clock reading in the value's own offset (`dayUtc.Ticks`, not `UtcTicks`), and `Midnight` is the start of that calendar day; only under that reading does the model match `dayUtc.Date`. A caller passing a value with a non-zero offset, as the console menu does after `DateTimeOffset.TryParse`, gets a window that can lie in a different UTC day, and the model does not capture that shift.
- `double`: the average is a `real`. NaN cannot arise in the model.
- `GetMostActiveUsers` and `GetRecentSessionDurations` with a negative `take`: they are modelled as `Take`, which yields nothing.
- The null check of `db` in `SeedBulk` and the null-table half of `WriteTableToServerAsync`: references are never null in the model.
- The maximum lengths of Username and Email, which ActivityContext.cs declares and the database enforces.
- Identity gaps: the model's store hands out identity ids consecutively. SQL Server does not promise that: failed or rolled-back inserts use up identity values, the identity cache can be lost on a restart, and concurrent inserts interleave. So `Seeding.Consecutive`, `Store.Numbered` and `Store.NumberedUsers` describe the model's store; in the database the ids are only increasing.
- A failing or timed-out bulk copy and the SQL connection: `SqlBulkCopy` is modelled as always appending its rows.
- Seeding.SeedBulk: the GUID suffix is any caller-supplied string, not exactly 8 hexadecimal digits. Clashing suffixes are covered by the save-fails path.
- Console output in `SeedBulk` and the writer.
- The order among equal counts in `GetMostActiveUsers` and among equal last timestamps in `GetRecentSessionDurations`: the code leaves ties unspecified, and the model proves nothing about it.
- `Program.cs`, the interactive menu, is not part of this model.
