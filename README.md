# rothko-bot moderation core in Dafny

This project models the core of a Telegram bot that moderates a group chat and
keeps activity metrics for it. Each module follows one part of the Python code:

- `util.dfy` (util.py): `percentile` with linear interpolation, the Markdown escaper, `parse_hhmm` and the `str.strip`/`str.split`/`int()` it relies on, the owner list behind `owners_only`, and local day, weekday and hour of a timestamp.
- `config.dfy` (config.py): `load_config` after the JSON file has been parsed. A configuration without a truthy `token` is refused. Otherwise the fourteen `setdefault` defaults are applied in order.
- `db.dfy` (db.py): the three sqlite tables, held in memory by the class `Store`.
  - `activity` is a map keyed by user id.
  - `messages` is a sequence whose `(chat_id, message_id)` keys are unique.
  - `scheduled_posts` is a map keyed by an AUTOINCREMENT id, with a `lastPostId` counter.
  - Modelled statements: `upsert_user`, `delete_user`, the `INSERT OR IGNORE` of the message tracker and `add_scheduled_post`.
  - Modelled queries: `fetch_messages_since`, `fetch_first_msg_ts_per_user`, `fetch_last_msg_ts_per_user` and `user_display_names`.
- `seqs.dfy`: Python's stable `sorted`/`list.sort` over a lexicographic integer key, list comprehension filters, minimum and maximum, and `sorted(set)` over integers.
- `counting.dfy`: `collections.Counter` as bot.py uses it. Keys are counted in a loop, `values()` sums to the number of keys, and `most_common(n)` is modelled.
- `metrics.dfy` (bot.py `metrics_summary`, `_heatmap_text`, `_leaders_text`):
  - the current and previous windows
  - active, new and returning users
  - reply counts and time to first reply
  - the weekday/hour heatmap, top talkers and the last seven days
- `streaks.dfy` (bot.py `_streaks_text`):
  - each user's set of days with messages
  - `longest_streak`, proved to return the length of the longest run of consecutive days
  - the streak ranking and the users at risk of inactivity
- `commands.dfy` (bot.py):
  - the day arguments of `/metrics`, `/heatmap` and `/leaders`, clamped
  - `int(float(arg))` for plain decimal arguments
  - `/chill`
  - `/mute`, including the `@username` member lookup
- `scheduler.dfy` (bot.py `schedule_day`, `schedule_collect_photo`, `schedule_cancel`, `post_photo_job`, `_reload_scheduled_posts`):
  - The class `Dispatcher` holds one user's batch of photos and day (`context.user_data`).
  - The job queue is modelled as the list of `(post id, time)` registrations it received.

Times are Unix seconds. The configured zone is a fixed offset `utcOffset` in seconds. A local day is `(ts + utcOffset) div 86400`. Calls into Telegram are modelled as their outcomes, passed in as parameters: member lists, admin status, and whether a send, a status read, a member listing or a restriction succeeded. The clock is passed in as `now`, and randomness is a nondeterministic choice.

## Model

| member | source | states |
|---|---|---|
| Util.SortedInts | util.py:27 | `sorted(values)`: an ascending permutation of the input |
| Util.RankBounds | util.py:28-30 | the index `(N-1)*p` and its floor stay inside the list for `0 <= p <= 1` |
| Util.PercentileOfEmpty | util.py:25-26 | an empty list gives 0.0 |
| Util.PercentileAtZero | util.py:24-35 | `percentile(0, xs)` is the minimum of a non-empty list |
| Util.PercentileAtOne | util.py:24-35 | `percentile(1, xs)` is the maximum of a non-empty list |
| Util.PercentileBetweenNeighbours | util.py:28-35 | the result lies between the sorted values at `floor(k)` and `min(floor(k)+1, N-1)` |
| Util.PercentileBracketed | util.py:24-35 | the result lies between the minimum and the maximum of the list |
| Util.PercentileMedianExample | util.py:24-35 | the median of [1, 2, 3, 4] interpolates to 2.5 |
| Util.PercentileSingleton | util.py:31-32 | a one-element list gives its element for every p |
| Util.PercentileOrderFree | util.py:27 | lists with the same elements give the same percentile, whatever their order |
| Util.SortedEnds | util.py:27 | the first sorted element is the minimum, the last the maximum |
| Util.EscapeMd | util.py:11-12 | the escaped text is longer by exactly the number of Markdown special characters, and never starts with a bare special |
| Util.EscapeMdRoundTrip | util.py:11-12 | reading the backslash escapes back gives the original text |
| Util.EscapeMdAppend | util.py:11-12 | escaping distributes over concatenation |
| Util.Split | util.py:43 | `str.split(':')` gives one more part than separators, no part holds one, and joining the parts gives the input back |
| Util.StripLeft | util.py:43 | `strip` keeps a suffix of the input that starts with a non-space, and everything it removes is whitespace |
| Util.StripRight | util.py:43 | `strip` keeps a prefix of the input that ends with a non-space, and everything it removes is whitespace |
| Util.NatToString | util.py:44 | `str(n)` is a non-empty string of digits |
| Util.DigitsRoundTrip | util.py:44 | the digits of `str(n)` read back as n |
| Util.ParseIntOfNat | util.py:44 | `int(str(n)) == n` |
| Util.ParseHhmmRoundTrip | util.py:41-46 | `parse_hhmm("H:M")` of two formatted naturals gives them back |
| Util.ParseHhmmNeedsOneColon | util.py:43-46 | a value without exactly one colon falls into the except branch: (0, 0) |
| Util.ParseHhmmNonInteger | util.py:44-46 | a part that `int()` refuses gives (0, 0) |
| Util.ParseHhmmOfParts | util.py:43-44 | how the two parts of the split are read |
| Util.MetricsOwners | util.py:75-78 | the configured `allowed_user_ids` (absent or null read as none) followed by the four fixed owner ids |
| Util.OwnersOnly | util.py:66-72 | the wrapped handler runs if and only if there is a user whose id is configured or is one of the fixed owners |
| Util.LocalWeekday | bot.py:99-100 | `weekday()` of the local date is in 0..6 |
| Util.LocalHour | bot.py:99-100 | the local hour is in 0..23 |
| Config.SetDefault | config.py:12 | `setdefault` adds the key with the value only when it is absent and changes nothing else |
| Config.DefaultKeysDistinct | config.py:12-37 | the fourteen defaulted keys are distinct |
| Config.SetDefaultStep | config.py:12-37 | each `setdefault` keeps every file value and every default set before it |
| Config.LoadConfig | config.py:7-38 | refused if and only if the token is missing or falsy; otherwise the keys are the file's plus the defaults, file values win, and every absent key gets its default |
| Db.Store.constructor | db.py:16-47 | `init_db` on a fresh database: empty tables, no post id used |
| Db.Store.UpsertUser | db.py:55-75 | a known user gets the three names and each timestamp that is given (none given: row unchanged); an unknown user gets a full new row with `is_bot` as 0/1; other rows unchanged |
| Db.Store.DeleteUser | db.py:77-81 | the user's activity row and exactly the user's messages are removed; posts untouched |
| Db.Store.InsertMessage | bot.py:331-334 | `INSERT OR IGNORE`: a row whose `(chat_id, message_id)` is taken is dropped, otherwise it is appended; the key is present afterwards and keys stay unique |
| Db.Store.AddScheduledPost | db.py:119-126 | a new pending row without caption or sent time, under the next id, which no other row had |
| Db.WithoutUser | db.py:80 | the rows kept are exactly those of other users |
| Db.WithoutUserKeepsKeysUnique | db.py:42 | deleting rows keeps the primary key unique |
| Db.FilterKeepsKeysUnique | db.py:42 | any selection of rows keeps the primary key unique |
| Db.MessagesSince | db.py:84-90 | exactly the rows of the chat from `since_ts` on, ordered by ts |
| Db.OrderedByTs | db.py:87 | rows sorted on the ts key are in ascending ts order |
| Db.FirstTsPerUser | db.py:92-99 | one entry per user who wrote in the chat |
| Db.FirstTsIsEarliest | db.py:92-99 | each user's first time is at most each of their message times in the chat, and the time of one of them |
| Db.LastTsPerUser | db.py:101-108 | one entry per user who wrote in the chat |
| Db.LastTsIsLatest | db.py:101-108 | each user's last time is at least each of their message times in the chat, and the time of one of them |
| Db.UserDisplayNames | db.py:110-117 | empty for no ids; an entry for exactly the requested ids with a row; "@username", else "@first_name", else "@<id>"; empty names give the bare id |
| Seqs.SortBy | bot.py:150 | `sort` on a key: same length, a permutation, ordered by the key |
| Seqs.SortedUnique | bot.py:150 | two key-sorted permutations of the same list are equal when the key identifies elements |
| Seqs.Filter | bot.py:32 | a list comprehension with a condition keeps every row that satisfies it, as often as it occurs, and no other row |
| Seqs.FilterAppend | bot.py:32 | filtering distributes over concatenation, so the kept rows stay in their input order |
| Seqs.FilterSingle | bot.py:32 | one row is kept exactly when it satisfies the condition |
| Seqs.FilterMember | bot.py:32 | an element is kept if and only if it is in the input and satisfies the condition |
| Seqs.SortedSet | bot.py:141 | `sorted(dates)`: strictly ascending and holding exactly the set's elements |
| Counting.Distinct | bot.py:38 | the Counter's keys, without duplicates, exactly the counted keys |
| Counting.DistinctFirstSeen | bot.py:38 | the keys are listed in the order of their first occurrence, the Counter's insertion order |
| Counting.CountKeys | bot.py:38 | the counting loop: keys in first-seen order, and each count is the key's multiplicity |
| Counting.CountsAddUp | bot.py:40 | the counts sum to the number of counted elements |
| Counting.Multiplicities | bot.py:40 | one entry per key, the key's number of occurrences |
| Counting.SumCountsCovers | bot.py:40 | summing multiplicities over the distinct keys gives the total |
| Counting.Items | bot.py:87 | `items()` pairs each key with its count |
| Counting.MostCommon | bot.py:44 | `most_common(n)`: min(n, #keys) pairs, by count descending |
| Counting.OccursOnce | bot.py:44 | in a list of dictionary items each pair occurs at most once |
| Counting.PermutationKeepsKeysDistinct | bot.py:44 | reordering dictionary items keeps each key once |
| Counting.MostCommonKeysDistinct | bot.py:44 | `most_common(n)` of a counter, whose keys are distinct, names no key twice |
| Counting.MostCommonSelects | bot.py:44 | the pairs of `most_common(n)` are a sub-multiset of the counter's pairs, so none is taken twice, and none left out has a higher count than the last one taken |
| Counting.SortedByCountDescends | bot.py:44 | sorting on the descending-count key leaves the counts descending |
| Counting.PrefixOfSortedByCount | bot.py:44 | a prefix of a list sorted by descending count holds pairs of the list and dominates the rest |
| Metrics.CurrentWindow | bot.py:32 | exactly the fetched rows with ts >= start |
| Metrics.PreviousWindow | bot.py:33 | exactly the fetched rows with prev_start <= ts < start |
| Metrics.WindowsPartition | bot.py:32-35 | rows from prev_start on fall into exactly one of the two windows |
| Metrics.FetchedWindowsPartition | bot.py:29-35 | the rows fetched from prev_start split into the two windows, so the two totals add up to the fetched count |
| Metrics.ActiveUsers | bot.py:38 | the Counter's keys: exactly the users with a current message |
| Metrics.NewUsers | bot.py:47 | a subset of the active users, including every one without a first-message time |
| Metrics.ReturningUsers | bot.py:48 | the active users that are not new: disjoint from the new ones, and together they are all active users |
| Metrics.ReturningIffEarlierMessage | bot.py:46-48 | an active user is returning if and only if they wrote in the chat before the window start |
| Metrics.NewAndReturningCount | bot.py:73 | the new and returning counts add up to the active count |
| Metrics.ReplyTimes | bot.py:55-58 | at most one time per row |
| Metrics.ReplyTimesMembers | bot.py:55-58 | the times of exactly the rows that reply to the key |
| Metrics.CollectReplies | bot.py:55-58 | `replies_by_orig`: a key for exactly the answered messages, holding their reply times |
| Metrics.FirstReplyDelta | bot.py:61-62 | present if and only if some reply time was collected for the message |
| Metrics.FirstReplyDeltaMeaning | bot.py:61-62 | present if and only if some row answers the message; then no later than any reply and equal to the earliest one |
| Metrics.FirstReplyDeltas | bot.py:55-64 | building `replies_by_orig` and reading the delays off it gives `ReplyDeltas` |
| Metrics.DelaysFromReplies | bot.py:59-64 | the loop keeps, in order, the present non-negative delays read off `replies_by_orig` |
| Metrics.DelaysFromIndex | bot.py:55-62 | with `replies_by_orig` built from the rows, the delay read off it is each message's first-reply delay |
| Metrics.DelayOfMessage | bot.py:60-62 | one message's delay read off `replies_by_orig` is its first-reply delay |
| Metrics.Delays | bot.py:59-62 | one optional delay per current message, its first-reply delay |
| Metrics.Kept | bot.py:63-64 | the kept delays are non-negative, at most one per message |
| Metrics.KeptStep | bot.py:63-64 | one more message adds its delay exactly when it is present and non-negative |
| Metrics.KeptSound | bot.py:63-64 | every kept delay is one of the present delays |
| Metrics.KeptComplete | bot.py:63-64 | every present non-negative delay is kept |
| Metrics.ReplyDeltas | bot.py:59-64 | at most one non-negative delay per current message |
| Metrics.ReplyDeltasSound | bot.py:59-64 | every collected delay is a current message's first-reply delay |
| Metrics.ReplyDeltasComplete | bot.py:63-64 | every non-negative first-reply delay of a current message is collected |
| Metrics.LatencyPercentile | bot.py:65-66 | None if and only if there are no delays; otherwise between 0 and the largest delay |
| Metrics.Cell | bot.py:99-100 | the heatmap cell is a valid (weekday, hour) pair |
| Metrics.Cells | bot.py:98-100 | one cell per row, that row's local weekday and hour |
| Metrics.GridFrom | bot.py:105-107 | the printed grid lists each (weekday, hour) cell once |
| Metrics.CellsTotalIsSumCounts | bot.py:105-107 | the grid's counts sum to the multiplicities of the cells |
| Metrics.Heatmap | bot.py:97-100 | only valid cells, exactly the cells that occur, each with its multiplicity; the grid sums to the row count |
| Metrics.GridTotalCountsAll | bot.py:97-107 | counts of cells that all lie on the grid add up over the printed grid to the number of cells |
| Metrics.Leaders | bot.py:38-44 | `most_common(n)` of the per-user counter: exactly min(n, #active users) pairs, each user once with their true message count, by count descending, none left out with more messages than the last taken; `values()` is each active user's message count in first-seen order, one per user, summing to the row count |
| Metrics.ValuesAreUserCounts | bot.py:38-40 | the counter's values are the per-user message counts |
| Metrics.LeaderboardOfCounts | bot.py:44 | `most_common(n)` over the per-user counter meets every leaderboard fact listed for Leaders |
| Metrics.LeaderboardShape | bot.py:44 | `most_common(n)` over a counter with distinct keys has exactly min(n, #keys) pairs, counts descending, no key twice |
| Metrics.LeaderboardCounts | bot.py:44 | the pairs of `most_common(n)` over the per-user counter are true counts, and no user left out has more messages than the last taken |
| Metrics.ItemsAreCounts | bot.py:116 | the Counter's items are exactly the (user, multiplicity) pairs |
| Metrics.TopAreTrueCounts | bot.py:116-118 | pairs taken from the true counts are true counts, and every user left out has no more messages than the last taken |
| Metrics.DistinctCount | bot.py:73 | `len(cnt_cur)` is the number of active users |
| Metrics.UserIds | bot.py:38 | the user id of every row, in order |
| Metrics.Days | bot.py:67-69 | each row's local day |
| Metrics.RecentDays | bot.py:67-88 | exactly min(7, #days) (day, count) pairs in strictly ascending day order, each the day's true message count, and every day left out is earlier than all shown |
| Metrics.SuffixOfSortedDays | bot.py:87 | the last k of the day-sorted items are strictly ascending, and everything before them is earlier |
| Metrics.ShownAreDayCounts | bot.py:86-88 | the shown pairs are true day counts, and every day left out is earlier than the first shown |
| Metrics.RepliesOf | bot.py:49 | exactly the rows that are replies, each as often as in the window |
| Metrics.TalkerStats | bot.py:38-44 | the top five talkers are the leaderboard (as for Leaders) of the window; p50, p90 and p99 are the percentiles of the per-user message counts |
| Metrics.UserStats | bot.py:38-48 | the active users are the window's writers; new and returning users are the sizes of those two sets and add up to the active users |
| Metrics.ReplyStats | bot.py:49-66 | the reply count is the number of current replies; the top repliers are the leaderboard (as for Leaders) of the replies' senders; the median and 95th percentile are those of the first-reply delays, None if and only if there are none, never negative |
| Metrics.MetricsSummary | bot.py:26-89 | every figure is its definition over the window: the totals are the window sizes and add up to the fetched rows, the delta their difference; active, new and returning are the sizes of those user sets; p50/p90/p99 are the percentiles of the per-user counts; the top talkers and top repliers are the leaderboards of the window and of its replies; the reply count, median and p95 are those of the replies; the days are the window's last seven days with their counts |
| Streaks.LongestStreak | bot.py:138-148 | the result is the length of the longest run of consecutive days in the set (0 for none) |
| Streaks.FirstRun | bot.py:140-141 | the first sorted day ends a maximal run of length 1 |
| Streaks.NextRun | bot.py:142-147 | the next sorted day extends the run by one if it is the following day, and otherwise starts a run of 1 |
| Streaks.AllRunsBounded | bot.py:145 | a bound on the runs ending at each date bounds every run |
| Streaks.LongestEndingAt | bot.py:147 | a run ending at a day cannot be longer than the maximal one ending there |
| Streaks.ExtendRun | bot.py:143-144 | a run followed by the next day is one longer |
| Streaks.StreakUnique | bot.py:138-148 | the longest streak of a set is unique |
| Streaks.StreakOfNoDays | bot.py:139 | no days: streak 0 |
| Streaks.StreakOfOneDay | bot.py:140 | one day: streak 1 |
| Streaks.StreakWithGap | bot.py:142-147 | days d, d+1, d+2, d+4: streak 3 |
| Streaks.StreakAtMostDays | bot.py:138-148 | the streak never exceeds the number of days |
| Streaks.Span | bot.py:143 | the days start..start+len-1, len of them |
| Streaks.ActiveDaysAppend | bot.py:135-137 | one more row adds its day to its user's set only |
| Streaks.DaysIndexedStep | bot.py:135-137 | adding one row's day to its user's set keeps the map exact: one entry per user, holding their local days |
| Streaks.DatesByUser | bot.py:134-137 | users in first-seen order; each user's set is exactly the local days of their rows |
| Streaks.StreakList | bot.py:149-150 | one pair per user with their longest streak, sorted by streak descending, then by user id; no user twice when the users are distinct |
| Streaks.StreakListsAgree | bot.py:149-150 | two streak lists over the same users, each named once, are equal: the order of `by_user_dates` does not show |
| Streaks.StreakListOrderFree | bot.py:150 | the sorted list does not depend on the users' order |
| Streaks.RiskEntries | bot.py:158 | no more entries than users in `last_ts` |
| Streaks.RiskEntriesDistinct | bot.py:158 | over the items of a dictionary, at most one entry per user |
| Streaks.RiskEntriesMembers | bot.py:158 | exactly the users last seen before the threshold, with whole days since then |
| Streaks.AtRisk | bot.py:157-159 | no more pairs than users, sorted descending by days |
| Streaks.AtRiskDistinct | bot.py:157-159 | with `last_ts` a dictionary, every user is listed at most once |
| Streaks.AtRiskMembers | bot.py:157-159 | a pair for exactly the users quiet since before the threshold, each at least inactivity_days-1 days |
| Streaks.DaysSinceBound | bot.py:157-158 | last seen before the threshold means at least inactivity_days-1 whole days ago |
| Streaks.AtRiskIffQuiet | bot.py:155-159 | a writer is at risk if and only if their last message in the chat is older than the threshold |
| Commands.Clamp | bot.py:172 | `max(lo, min(hi, n))`: within bounds, n itself when it is, the nearer bound otherwise |
| Commands.DaysArgument | bot.py:169-174 | the default when there is no argument or `int()` refuses it; otherwise the argument clamped |
| Commands.MetricsDays | bot.py:169-174 | 7 by default, always within 1..90 |
| Commands.HeatmapDays | bot.py:185-190 | 30 by default, always within 7..180 |
| Commands.LeadersDays | bot.py:201-206 | 30 by default, always within 7..365 |
| Commands.DaysArgumentOfNumber | bot.py:170-172 | a number within bounds is taken as given |
| Commands.TruncatedFloatOfDigits | bot.py:375 | `int(float(s))` of digits is their value |
| Commands.TruncatedFloatOfNat | bot.py:375 | `int(float(str(n))) == n` |
| Commands.TruncatedFloatDropsFraction | bot.py:375 | `int(float("w.f")) == w` |
| Commands.TruncatedFloatTowardsZero | bot.py:375 | `int(float("-a.b")) == -a`: truncation towards zero |
| Commands.DecimalWholeOfFraction | bot.py:375 | the whole part of "a.b" is a |
| Commands.ChillMinutes | bot.py:380-385 | minutes forced into 1..10080; limited if and only if more than 10080 were asked |
| Commands.Chill | bot.py:361-408 | ignored outside the chat; usage without a numeric argument; the handler raises if the status read fails; admins refused; "Mute failed" if the restriction is refused; otherwise muted for the clamped minutes until now + 60·minutes, each case an if-and-only-if |
| Commands.Lower | bot.py:441 | `lower()` on ASCII: same length, each upper-case letter becomes its lower-case letter, every other character is unchanged |
| Commands.LowerIdempotent | bot.py:441 | lowering twice is lowering once |
| Commands.AsWrittenNeverMatches | bot.py:441 | as written, a username that does not start with "@" never matches |
| Commands.AsWrittenFindsNobody | bot.py:440-443 | as written, the lookup finds nobody in a chat whose usernames have no "@" |
| Commands.UsernameMatchesItself | bot.py:441 | the corrected comparison matches a username against itself in any case |
| Commands.FindMember | bot.py:440-446 | None if and only if no member's username matches; otherwise a matching member (corrected comparison; see Findings) |
| Commands.FindMemberFinds | bot.py:440-443 | the corrected lookup finds every member that has a username |
| Commands.MuteTarget | bot.py:435-453 | the replied-to user first; otherwise an "@name" argument looked up among the members; otherwise none (corrected comparison; see Findings) |
| Commands.Mute | bot.py:410-476 | wrong chat if and only if outside the chat; refused if and only if the actor is not a mute admin; usage without arguments; otherwise the decision below on the parsed minutes (the first argument when replying, else the last), the target and the looked-up name; a mute is always by a mute admin on a non-admin (corrected comparison; see Findings) |
| Commands.MuteDecision | bot.py:425-476 | each outcome if and only if its case: bad minutes when they do not parse; a lookup failure when a name is looked up and listing the members raises; not found when the listing finds nobody; usage without a target or a name; a status failure when the target's status cannot be read; the admin refusal for an admin target; a restrict failure when the restriction is refused; otherwise a mute of the target for the clamped minutes until now + 60·minutes |
| Commands.LookedUpName | bot.py:437-438 | a name is looked up if and only if the message is not a reply with a sender and the first argument starts with "@"; it is the rest of that argument |
| Commands.MuteByReply | bot.py:424-476 | an admin replying with a number in range mutes the replied-to user for that many minutes when the status read and the restriction succeed, whatever the member listing would have done |
| Scheduler.Dispatcher.constructor | bot.py:608 | no photos, no day, no jobs |
| Scheduler.Dispatcher.ScheduleDay | bot.py:572-594 | no channel: refused; no argument: usage; a bad date: refused; a date: the day is kept and the photos reset |
| Scheduler.Dispatcher.Cancel | bot.py:647-652 | the photos and the day are dropped |
| Scheduler.Dispatcher.CollectPhoto | bot.py:597-644 | no photo: nothing; eight already: ignored; below eight: saved; the eighth stores eight pending posts under the next ids at 12:30 + 90·k minutes ± jitter, registers a job for each in order, and clears the batch; the failures keep the photos |
| Scheduler.Dispatcher.StoreBatch | bot.py:627-636 | eight new pending rows with the photos in order, older rows unchanged, one job per row |
| Scheduler.Dispatcher.PostPhotoJob | bot.py:539-569 | only a non-zero id whose row is pending is acted on: it becomes sent with the time, or failed, and is no longer pending; nothing else changes |
| Scheduler.Fired | bot.py:555-567 | sent with the time if and only if the send succeeded, otherwise failed; the rest of the row is kept |
| Scheduler.Dispatcher.ReloadScheduledPosts | bot.py:814-835 | nothing without a job queue; otherwise one registration per pending post whose time is after now |
| Scheduler.DueRegistrations | bot.py:826-835 | the loop over the rows in id order makes `Registrations` of the whole table |
| Scheduler.Registrations | bot.py:826-835 | no more registrations than rows |
| Scheduler.RegistrationsDistinct | bot.py:826-835 | ids listed once give each post at most one registration |
| Scheduler.RegistrationsOncePerPost | bot.py:814-835 | over the whole table, each stored post is registered at most once |
| Scheduler.RegistrationsMembers | bot.py:826-835 | a registration is made for exactly the pending rows whose time is after now, at that time |
| Scheduler.RegistrationsExactlyDue | bot.py:814-835 | over the whole table: registered if and only if stored, pending and still ahead |
| Scheduler.PastDueStaysPending | bot.py:828-829 | a pending post whose time has passed is not registered again |

## Left out

- Telegram calls are not modelled. Whether each call of `/chill` and `/mute` succeeds is a parameter (`statusKnown`, `restrictOk`, `MuteCalls`), and the member list, the admin statuses and the clock are parameters too. Sending and pinning messages, `is_authorized`/`is_channel_admin`/`is_group_admin` and the handler wiring in `main()` are not modelled. The modelled handlers behave as if the authorization wrapper let the caller through.
- `requires_auth` passes four arguments to `is_authorized` (util.py:87), which is correct. `is_authorized` then calls `is_channel_admin` with four arguments (util.py:96), but that function takes three (util.py:104). As written, the TypeError makes every command guarded by `requires_auth` fail before its body runs. The model describes the handler bodies they guard.
- bot.py:18 imports `timezone_`, `NOTHING_PERMITTED` and `EVERYTHING_PERMITTED` from util.py, which defines none of them. As written, importing bot.py raises ImportError and no handler runs at all. The model describes the handlers as if the import succeeded, with `timezone_` read as util.py's `timezone` and the two permission sets as "nothing allowed" and "everything allowed".
- sqlite plumbing (connections, commits, `executescript`) is not modelled; each statement is one atomic change of the in-memory tables.
- Time zones are a fixed UTC offset: daylight saving changes and `ZoneInfo` lookups are not modelled. In `localize` (util.py:49), `timezone.utc` names util.py's own function `timezone` (util.py:57), which has no `utc` attribute, so the call raises AttributeError as written. The model uses the intended local-time conversion.
- `fetch_messages_since` takes a chat id, but bot.py calls it with one argument at bot.py:95, bot.py:115 and bot.py:132. The model fetches those rows for the configured chat, as at bot.py:31.
- `strptime` on `/schedule_day` is abstracted to a `DateArgument` of no argument, malformed, or a day number.
- Floating point is modelled over real numbers; `int()` of p50/p90/p99 is not modelled, and the summary keeps them as reals. The reply-time median and p95 are truncated (`LatencyPercentile`).
- Commands.TruncatedFloatOfDigits: `int(float(s))` is modelled for plain decimals only ("12", "-3.5", ".5", "7."). Exponents, "inf", "nan", underscores and the precision limit of large values are not covered.
- Util.ParseIntOfNat: `int()` is modelled for an optional sign followed by ASCII digits, surrounded by ASCII whitespace; underscores and non-ASCII digits are not covered.
- Commands.Lower: `str.lower()` is modelled on ASCII letters only.
- Util.StripLeft: `str.strip()` is modelled for ASCII whitespace only; Unicode whitespace such as U+00A0 or U+0085, which Python also strips, is kept by the model, so `parse_hhmm` of "\u00a012:30" gives (0, 0) in the model and (12, 30) in Python. The same holds for Util.StripRight.
- Util.PercentileAtZero: `percentile` is modelled for 0 <= p <= 1, the only values its callers pass. Python's negative-index behaviour for other p is not modelled.
- Counting.MostCommon: the order among equal counts is not stated. Python keeps first-seen order there.
- Metrics.RecentDays: days are day numbers, not `%Y-%m-%d` strings. The two sort in the same order.
- Report texts, Markdown layout and the message strings are not modelled; each handler returns the figures or the outcome it reports.
- Streaks.StreakList: the report shows only the first ten entries of `streaks` and of `risk` (bot.py:151-153, bot.py:161-163). The model returns the whole sorted lists; the shown entries are their first ten. The same holds for Streaks.AtRisk.
- `get_rules_text`, `post_and_pin_rules`, `unmute_cmd`, `active_cmd`/`inactive_cmd`/`allmembers_cmd`/`silent_cmd`, `schedule_list`, the join/leave/message-tracker handlers and metrics dumping are outside this model, apart from the table changes they make through db.py. The `@username` lookup of `unmute_cmd` is the same as that of `/mute`.
- Scheduler.Dispatcher.CollectPhoto: the job queue is the list of registrations made; the jobs never fire by themselves. Running a job is `PostPhotoJob`.
- Scheduler.Dispatcher.StoreBatch: the eight jobs are appended to the job list after the eight rows are stored, while the source registers each job right after its row. Nothing reads the job list in between, so the final state is the same.
- Scheduler.Dispatcher.ReloadScheduledPosts: the `SELECT` has no `ORDER BY`, so the model registers the rows in ascending id order. The same set of registrations is made in any order.
- A pending post whose time passed while the bot was down is never registered again and stays pending forever (`PastDueStaysPending`). This is how the code behaves, and the model keeps it.
- `context.user_data` is per user; the model holds one user's batch.
- Config.LoadConfig: reading and parsing `config.json` is not modelled; the input is the parsed JSON object. The fourteen `setdefault` calls are modelled as one loop over the same keys and values in the same order.
- Concurrency between asynchronous handlers is not modelled; each handler runs to completion on its own.

## Findings

| source | as written | input that shows it | evidently intended | confidence | as-written member | corrected member |
|---|---|---|---|---|---|---|
| bot.py:441 | a member matches when `member.user.username.lower() == f"@{username.lower()}"`, but Telegram usernames never contain "@" | `/mute @alice 10` with a member whose username is "alice": "alice" != "@alice", so the user is reported as not found | compare the lowered username with the lowered name after the "@" | high (not executed) | Commands.AsWrittenFindsNobody | Commands.FindMemberFinds |
