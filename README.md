# anechka: a Dafny model of the duty-topic reconciliation

anechka keeps an `@mention` in the topic of Slack conversations in step with a duty
calendar kept in Google Sheets. Each configured timetable names a spreadsheet, with
one `timetable_<prefix><year>` sheet of month blocks and one `users` sheet that maps
duty names to Slack user names. It also names the Slack group or channel whose
topic carries the duty mention, the position (`devIndex`) of that mention among the
topic's mentions, and the time of day (`updateTime`) after which the topic is updated.

The model covers the three modules that make up this reconciliation:

- **modules/utils.js** (module `Utils`):
  - `transpose`, which turns the sheet's rows into columns;
  - the two cache keys `timeTableHash` (spreadsheet id + prefix) and `userTimeTableHash` (spreadsheet id).
- **modules/spreadsheets.js** (module `Spreadsheets`):
  - The calendar cache (`TimetableCache`) and the roster cache (`UserCache`), as classes whose methods update their maps in place, like the source does.
  - `updateTimetableData` reads month block `m` from columns `2m` (dates, with the month key as header) and `2m + 1` (duty names). It stops at the first block without a header, and throws on a block without a duty column.
  - `updateTimetableUsers` reads roster rows until the first row with an empty cell.
  - `updateTimeTables` and `updateUsers` sit behind a 30-minute freshness gate. They refresh each distinct hash once, in configuration order. They stamp the cache only if every refresh returned true; a thrown error escapes.
- **modules/slack.js** (modules `MentionScan` and `Slack`):
  - `updateSlackUsers`, behind a one-hour gate, merges the Slack user list into the name → id cache.
  - `updateSlackUserName` finds the mentions `<@[A-Z0-9]+>` of the current topic and picks the one at `devIndex || 0`. It rewrites the first textual occurrence of that token to mention the duty's Slack id. If the topic would not change it returns true, otherwise it returns what `setTopic` answers.
  - `updateSlackTimetable` decides whether a timetable is due, looks up today's duty, and stamps the timetable's `lastUpdate`.
  - `updateSlack` runs every timetable.

`MentionScan` models the regular-expression scan and `String.prototype.replace` on
text. Its main theorem is `ReplaceMention`: the mentions of the rewritten topic are the
old ones with one entry replaced. That entry is the first mention equal to the one at
`devIndex`, which is the one at `devIndex` unless an equal mention comes earlier.

The Google Sheets and Slack calls are parameters, never performed:
- a `Fetch` function from (spreadsheet id, range) to a reply;
- `UsersReply`, `InfoReply` and `SetTopicReply` values for the Slack calls.

Time is a number of seconds, and the current instant is a parameter, as are today's
year, month and day strings. Today's instant of a timetable's `updateTime` is given
by a parameter function `at`. An asynchronous operation ends with an `Outcome`:
either a returned boolean or a thrown error.

Points where the code behaves in a way worth stating:
- There is no pending-topic buffer and no batched commit. Each timetable sets its own topic as soon as it is resolved.
- No admin notification is sent.
- A topic without mentions, a `devIndex` out of range, or an unknown Slack user makes `updateSlackUserName` return false. The timetable is then not stamped, and it is tried again on the next run.
- A timetable is due again when its `lastUpdate` equals today's update instant exactly, because `isAfter` is strict.
- The Slack user cache is merged into, never rebuilt.
- An empty day cell counts as a missing day.
- The async maps run two at a time; the model runs them in order.

## Model

| member | source | states |
|---|---|---|
| Common.Conjoin | modules/spreadsheets.js:104-105 | the combined outcome is true iff every item returned true, false iff none threw and one returned false, and otherwise the first error thrown |
| Common.Fresh | modules/spreadsheets.js:93 | the freshness gate: a stamp exists and is later than the window before now (30 minutes here, one hour at modules/slack.js:27); the gated methods `UpdateTimeTables`, `UpdateUsers` and `UpdateSlackUsers` state its effect |
| Common.AssignAllKeys | modules/slack.js:37-39 | assigning pairs into a map, in order, adds exactly their keys and removes none |
| Common.AssignAllLastWins | modules/slack.js:37-39 | a key ends with the value of its last assignment |
| Common.AssignAllUntouched | modules/slack.js:37-39 | a key never assigned keeps its presence and value |
| Utils.Transpose | modules/utils.js:3-5 | one column per cell of the first row; each column has one entry per row, that row's cell or undefined past its end; `TransposeTwice` states that it inverts itself |
| Utils.TransposeTwice | modules/utils.js:3-5 | transposing a non-empty rectangular grid twice gives it back |
| Utils.TimeTableHash | modules/utils.js:7-9 | the calendar key is the spreadsheet id followed by the prefix |
| Utils.UserTimeTableHash | modules/utils.js:11-13 | the roster key is the calendar key cut before the prefix |
| Utils.HashesOfOneSpreadsheet | modules/utils.js:7-13 | timetables of one spreadsheet share the roster key; their calendar keys agree iff their prefixes do; the two keys coincide iff the prefix is empty |
| Utils.TimeTableHashCollides | modules/utils.js:7-9 | the calendar key is a bare concatenation, so timetables of different spreadsheets can share it |
| Spreadsheets.FindIndex | modules/spreadsheets.js:101-103 | the result is -1 or an index holding the key, and no earlier index from the start holds it |
| Spreadsheets.UniqueBy | modules/spreadsheets.js:97-103 | the `filter`/`findIndex` de-duplication of the timetables by hash; `UniqueByKeepsFirstOfEachKey` states what it keeps |
| Spreadsheets.UniqueByKeepsFirstOfEachKey | modules/spreadsheets.js:97-103 | de-duplication keeps exactly the first timetable of each hash, in configuration order, and every hash of the configuration |
| Spreadsheets.FillMonths | modules/spreadsheets.js:74-86 | the month loop throws exactly when it reaches a started block without a duty column |
| Spreadsheets.FillBlock | modules/spreadsheets.js:78-85 | the `forEach` over one month block, writing each truthy (date, duty) row from row 2 on; `FillBlockKeeps`, `FillBlockWellFormed`, `FillBlockFromGrid`, `FillBlockRecords`, `FillBlockUntouched` and `FillBlockLastWins` state its effect |
| Spreadsheets.FillBlockKeeps | modules/spreadsheets.js:78-85 | reading a block removes no year, month or day and leaves other years untouched |
| Spreadsheets.FillBlockWellFormed | modules/spreadsheets.js:79-84 | a block only records truthy month keys, dates and duty names |
| Spreadsheets.FillBlockFromGrid | modules/spreadsheets.js:75-84 | every entry a block writes is a (date, duty) pair from row 2 on of that block, under its header |
| Spreadsheets.FillBlockMerges | modules/spreadsheets.js:75-85 | a block merges into the calendar: nothing removed, only truthy entries, each from the grid |
| Spreadsheets.FillMonthsMerges | modules/spreadsheets.js:74-86 | the month loop merges into the calendar, keeps it well formed, and writes only pairs read from the grid |
| Spreadsheets.FillMonthsRecords | modules/spreadsheets.js:74-85 | every truthy (date, duty) row of every block the loop reaches is recorded under the block's header |
| Spreadsheets.FillBlockUntouched | modules/spreadsheets.js:78-85 | a day that no later row of the block writes keeps its duty name |
| Spreadsheets.FillBlockLastWins | modules/spreadsheets.js:78-85 | the last truthy row of a block with a given date decides that day's duty name |
| Spreadsheets.FillMonthsUntouched | modules/spreadsheets.js:74-85 | a cached day that no block the loop reaches writes keeps its duty name |
| Spreadsheets.FillMonthsLastWins | modules/spreadsheets.js:74-85 | a day's duty name is that of the last truthy row the loop reads with its month header and date, overwriting any cached name |
| Spreadsheets.FillBlockSameColumns | modules/spreadsheets.js:76-77 | a block reads only its own two columns |
| Spreadsheets.FillMonthsStopsAtFirstEmptyHeader | modules/spreadsheets.js:74 | the loop stops at the first block without a header: columns from there on are never read |
| Spreadsheets.TimetableData | modules/spreadsheets.js:43-90 | the timetable's entry exists afterwards, other entries are untouched, existing days are kept, and a false or thrown fetch leaves only the ensured empty entry |
| Spreadsheets.RefreshCalendars | modules/spreadsheets.js:104-110 | the `Promise.map` of `updateTimetableData` over the de-duplicated timetables, threading the cache; `RefreshCalendarsResult` and `RefreshCalendarsCovers` state its result and cache |
| Spreadsheets.RefreshCalendarsResult | modules/spreadsheets.js:104-105 | the calendar refresh returns the conjunction of `CalendarOutcomes`, one outcome per de-duplicated timetable, or the first error thrown |
| Spreadsheets.RefreshCalendarsCovers | modules/spreadsheets.js:54-56 | a refresh that threw nothing drops no entry and leaves one per processed timetable |
| Spreadsheets.RefreshCalendarsCoversConfig | modules/spreadsheets.js:92-105 | after a calendar refresh that threw nothing, every configured timetable finds its calendar |
| Spreadsheets.TimetableCache.UpdateTimetableData | modules/spreadsheets.js:43-90 | the in-place update leaves the cache and outcome that `TimetableData` specifies |
| Spreadsheets.TimetableCache.UpdateTimeTables | modules/spreadsheets.js:92-111 | within 30 minutes of the last refresh nothing changes and the result is true; otherwise the cache is the refresh of the distinct timetables, and it is stamped iff the result is true |
| Spreadsheets.SentinelIndex | modules/spreadsheets.js:141-145 | the first row with an empty name or Slack name: no row before it is one |
| Spreadsheets.FillRoster | modules/spreadsheets.js:141-147 | the roster loop, assigning each row's Slack name to its name up to the sentinel row; `RosterRecordsRowsBeforeSentinel` states its effect |
| Spreadsheets.RosterRecordsRowsBeforeSentinel | modules/spreadsheets.js:141-147 | the roster gains exactly the names of the rows before the sentinel, each with the Slack name of its last row, and is otherwise unchanged |
| Spreadsheets.TimetableUsers | modules/spreadsheets.js:113-151 | the spreadsheet's roster entry exists afterwards, other entries are untouched, and only a true outcome changes more than the ensured entry |
| Spreadsheets.RefreshRosters | modules/spreadsheets.js:165-171 | the `Promise.map` of `updateTimetableUsers` over the distinct spreadsheets, threading the cache; `RefreshRostersResult` and `RefreshRostersCovers` state its result and cache |
| Spreadsheets.RefreshRostersResult | modules/spreadsheets.js:165-166 | the roster refresh returns the conjunction of `RosterOutcomes`, one outcome per distinct spreadsheet, or the first error thrown |
| Spreadsheets.RefreshRostersCovers | modules/spreadsheets.js:122-124 | a refresh that threw nothing drops no roster and leaves one per processed spreadsheet |
| Spreadsheets.RefreshRostersCoversConfig | modules/spreadsheets.js:153-166 | after a roster refresh that threw nothing, every configured timetable finds its roster |
| Spreadsheets.UserCache.UpdateTimetableUsers | modules/spreadsheets.js:113-151 | the in-place update leaves the cache and outcome that `TimetableUsers` specifies |
| Spreadsheets.UserCache.UpdateUsers | modules/spreadsheets.js:153-172 | within 30 minutes nothing changes and the result is true; otherwise the rosters are the refresh of the distinct spreadsheets, stamped iff the result is true |
| MentionScan.Mentions | modules/slack.js:75-76 | the global match of `<@[A-Z0-9]+>` over the topic; `MentionsFromAreMentions` and `MentionsFromOccur` state what it returns |
| MentionScan.IndexOf | modules/slack.js:91 | the position `replace` rewrites: the first occurrence of the token, or -1 |
| MentionScan.ReplaceFirst | modules/slack.js:91 | `replace` with a string pattern: the first occurrence rewritten, nothing else; `ReplaceFirstUnchangedIff` and `SpliceMention` state its effect |
| MentionScan.MatchAt | modules/slack.js:75 | a match of `<@[A-Z0-9]+>` is at least four characters long and lies inside the text |
| MentionScan.MentionsFromAreMentions | modules/slack.js:75-76 | every token the scan returns is `<@`, one or more of `[A-Z0-9]`, then `>` |
| MentionScan.MentionsFromOccur | modules/slack.js:75-76 | every token the scan returns occurs in the text |
| MentionScan.IndexOfFirst | modules/slack.js:91 | the occurrence `replace` rewrites is the first one in the text |
| MentionScan.ReplaceFirstUnchangedIff | modules/slack.js:91-92 | replacing a token that occurs changes the topic iff the replacement differs from it |
| MentionScan.SpliceMention | modules/slack.js:91 | writing a mention over a mention puts the new token in its place among the matches and keeps the matches before and after it |
| MentionScan.MentionIsFound | modules/slack.js:76-91 | every match is found by `replace` |
| MentionScan.ReplaceMention | modules/slack.js:75-91 | the new topic's mentions are the old ones with the first copy of the `devIndex`-th token replaced, and that copy is the `devIndex`-th one unless an equal token comes earlier |
| MentionScan.MentionOfIsMention | modules/slack.js:91 | `<@id>` for an id made of `[A-Z0-9]` is a mention token |
| MentionScan.DuplicateTokenRewritesFirstCopy | modules/slack.js:91 | in "<@A> <@A>", rewriting the second mention changes the first |
| Slack.MemberIds | modules/slack.js:37-39 | one (name, id) assignment per listed member, in list order |
| Slack.MergeMembers | modules/slack.js:37-39 | the cache keeps every name, gains every listed name with the id of its last listing, and is unchanged elsewhere |
| Slack.SlackUserCache.UpdateSlackUsers | modules/slack.js:26-45 | within an hour nothing changes and the result is true; a failed list changes nothing (false, or the error escapes); otherwise the list is merged in and the cache stamped |
| Slack.DevIndex | modules/slack.js:55 | the configured mention position, 0 when `devIndex` is unset |
| Slack.Destination | modules/slack.js:57-73 | the topic lives in the group when the group is set, otherwise in the channel |
| Slack.PlanTopic | modules/slack.js:75-95 | no mentions, no mention at `devIndex`, and an unknown or empty Slack id are each recognised exactly; a new topic always differs from the old one |
| Slack.AlreadySetIff | modules/slack.js:91-95 | the topic is already set iff the mention at `devIndex` is the duty's mention |
| Slack.NewTopicMentions | modules/slack.js:75-91 | a new topic has the old mentions with one replaced by the duty's mention, at `devIndex` unless an equal mention comes earlier |
| Slack.RewriteIsIdempotent | modules/slack.js:91-95 | without an earlier duplicate, planning again on the new topic finds it already set |
| Slack.RepeatedMentionIsRewrittenTwice | modules/slack.js:91-95 | with the duty mention duplicated, the first copy is rewritten and the next run rewrites again |
| Slack.UpdateSlackUserName | modules/slack.js:47-113 | a topic is written iff the read succeeded and the plan is a new topic; the result is true iff it was already set or `setTopic` answered ok; an error escapes iff a call threw |
| Slack.DutyOn | modules/slack.js:150-171 | today's duty is found iff year, month and a truthy day entry exist |
| Slack.Due | modules/slack.js:142-147 | the due test on `lastUpdate` and today's update instant; `DueOncePerDay` states what it means |
| Slack.SlackTimetableRun | modules/slack.js:122-147 | one `updateSlackTimetable` run as a value: the cache-entry and due checks, then `DutyRun`; `RunStamping` states its result, stamp and write |
| Slack.DutyRun | modules/slack.js:150-185 | today's duty and its Slack name looked up, then `NameRun`; stated by `RunStamping` |
| Slack.NameRun | modules/slack.js:186-195 | the `try` around `updateSlackUserName`: its result returned and stamped when true, an error swallowed as true without a stamp; stated by `RunStamping` |
| Slack.RunStamping | modules/slack.js:115-196 | a run stamps only when it returns true; a missing cache entry or a run that is not due returns false and changes nothing; a missing duty or Slack name stamps and returns true; otherwise the run returns `updateSlackUserName`'s result and stamps when it is true, and a Slack error is swallowed as true without a stamp; the topic write is that of `updateSlackUserName` |
| Slack.DueOncePerDay | modules/slack.js:142-147 | due iff never updated, or the update time has come and the last update was not after it; so once per day after the update time |
| Slack.Timetable.UpdateSlackTimetable | modules/slack.js:115-196 | the run's result and topic write, and `lastUpdate` becomes now exactly when the run stamps |
| Slack.UpdateSlack | modules/slack.js:198-200 | one result per configured timetable, in order, each that timetable's run from its own `lastUpdate` |
| Slack.TestTimetable | test/utils.js:34-43 | the test configuration's timetable keys both caches by its spreadsheet id, writes to its group, and targets the second mention |

## Left out

- The Google OAuth client, the Sheets and Slack transports, the configuration loader and the scheduler (`index.js`, `bin/init.js`): the API replies, the configuration and the current instant are parameters.
- The JSON snapshots written with `fs.writeJson` after each refresh. A write that throws would reject the operation after the cache was already changed; the model does not include it.
- Logging through `debug`.
- `moment`: time is a number of seconds. Parsing "YYYY-MM-DD HH:mm:ss" and formatting the year, month and day are parameters (`at`, `Date`). An unreadable update time is `None`, for which both comparisons are false. Millisecond precision is not modelled.
- Concurrency: `Promise.map` with concurrency 2 is modelled as a sequential loop. Completion order and the calls still in flight when one call rejects are not modelled. Each `moment()` call of one run is taken as the same instant.
- Slack.UpdateSlack: interleaving between timetables that share a conversation is not modelled; each run gets its own topic read and write reply.
- JavaScript object keys: `lastUpdate` is stored in the same objects as the cache entries, and inherited keys (`constructor`, …) are visible too. A hash, duty name or Slack name equal to such a key is not modelled.
- `String.prototype.replace` replacement patterns (`$&`, `$1`, …) in the Slack id: Slack ids are `[A-Z0-9]`, and the model inserts the id literally.
- An undefined `prefix` would produce the text "undefined" in the key and the sheet name; the model takes the prefix as a string.
- Slack.NewTopicMentions: states the mention structure only for Slack ids made of `[A-Z0-9]`, because another id does not form a mention token that the next scan finds.
- Slack.RewriteIsIdempotent: holds only when no earlier mention equals the one at `devIndex`. Otherwise `replace` rewrites the earlier copy, as `RepeatedMentionIsRewrittenTwice` shows.
