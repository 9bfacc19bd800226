# Transaction monitor bot — verified model

The bot watches one Ethereum address. Every few minutes it asks the Etherscan
`txlist` API for the address's transactions. It keeps every 2025 transaction it
has seen in an in-memory history, with each hash once and the newest first. It
alerts its Telegram recipients when a record less than an hour old appears. It
sends an hourly report when one is due. A separate loop polls Telegram for
updates and answers the commands `/check`, `/status` and `/help`.

This project models that state machine from `index.js`:

- `ledger.dfy` (module `Ledger`) models transaction records and the year filter
  (`isYear2025`). It also holds the absorb loop as a left fold (`Absorb`), the
  newest-first sort as a stable insertion sort (`SortNewestFirst`), and the
  time-window filter behind `/check` (`After`). Lemmas cover hash uniqueness,
  growth, idempotence and ordering.
- `commands.dfy` (module `Commands`) models how command text is normalised and
  matched, which updates are answered, the `/check` counts, the `/status` uptime
  split and the request offset.
- `monitoring.dfy` (module `Monitoring`) holds the class `Bot`. Its fields are
  the four module-level variables `historyTxs`, `isInitialized`,
  `lastHourlyReport` and `lastUpdateId`, plus the fixed recipient list. The
  fetch job is `FetchTransactions`. It checks the reply, then calls
  `AbsorbReply`, whose record loop is in `AbsorbResponse`. The command job is
  `ListenToCommands`, which holds its own loop over the updates. These methods
  are proved against the functions in the other two modules. The module also holds
  the hourly-report rule and the events a fetch sends.
- `wrappers.dfy` defines the `Option` type, which stands for JavaScript's
  `null` and for missing fields.

Conventions:

- Times are integers in milliseconds since the epoch.
- The clock reading `now` and the process uptime are parameters.
- Replies from Etherscan and Telegram are input datatypes.
- Messages the bot sends are returned as values, `Event` for the fetch job and
  `Notice` for commands. The bot sends each of them to every recipient.
- "Is 2025" is the fixed UTC range from 1735689600000 ms up to, but not
  including, 1767225600000 ms. `Ledger.Year2025IsCalendarYear` proves that this
  range is calendar year 2025, using days counted year by year from 1970.
- A `timeStamp` that does not parse as a number gives an invalid date. That
  date is never in 2025, so the record is skipped. It is modelled as
  `timeStamp == None`.
- The hourly rule divides the elapsed milliseconds by an hour in the source.
  The model states it on integers, as `now - lastHourlyReport >= 3600000`.
  `Monitoring.HourlyReportDueByDivision` proves this is the same as the
  division form.

Three behaviours of the code differ from what one might expect of such a
monitor. The model follows the code in each case:

- The hourly report does not count the transactions of the past hour across
  the whole history. It carries the records that this poll found new
  (`sendHourlyStatus(newTxs, now)` at `index.js:169`).
- There is no subscriber registry, no advancing block cursor and no daily
  report. The recipients are a fixed list (`index.js:10-12`), and every query
  starts from the same start block (`index.js:7` and `index.js:101`).
- The `/check` windows are strict, because they use `time > now - window`. An
  entry ten days old is not counted in the seven-day window, and an entry
  exactly seven days old is not counted either. `Commands.CheckCountsExample`
  shows both a six-day-old and a ten-day-old entry.

## Model

| member | source | states |
|---|---|---|
| Ledger.Year2025IsCalendarYear | index.js:57-59 | A time passes the year filter exactly when it falls between the first millisecond of 2025 (UTC) and the start of 2026, both computed from a Gregorian day count from 1970 |
| Ledger.IsYear2025 | index.js:57-59 | The year filter: a time in milliseconds from the first millisecond of 2025 (UTC) up to, but not including, the start of 2026. Its meaning is proved in `Year2025IsCalendarYear` |
| Ledger.TxTime | index.js:129 | A record's time in milliseconds is its time stamp in seconds times 1000. A time stamp that does not parse gives no time |
| Ledger.Qualifies | index.js:129-131 | A record is kept only when its time stamp parses and its time lies in 2025 |
| Ledger.ToTx | index.js:137-144 | The stored record keeps the response's hash, block, value, sender and receiver. Its time is the time stamp times 1000, which lies in 2025 |
| Ledger.AbsorbOne | index.js:131-150 | One turn of the record loop: skip a record outside 2025 or whose hash is already held. Otherwise append it, and also collect it as new when it is strictly newer than the cutoff |
| Ledger.Absorb | index.js:128-151 | Absorbing a response keeps the old history as a prefix. It appends only 2025 records, and only hashes the old history did not hold. The records collected as new are exactly the appended ones strictly newer than the cutoff, in response order |
| Ledger.AbsorbSources | index.js:128-150 | The appended records are the stored forms of response entries, taken in response order. The entries used are exactly those that qualify, whose hash was not held, and that are the first qualifying entry with that hash. So a repeated hash keeps its first occurrence |
| Ledger.AbsorbKeepsHashesUnique | index.js:133-145 | Unique hashes stay unique after absorbing, even when one response repeats a hash |
| Ledger.AbsorbHashes | index.js:128-151 | After absorbing, the history's hashes are the old ones plus every 2025 hash of the response |
| Ledger.AbsorbGrowth | index.js:128-151 | The history grows by exactly the number of distinct qualifying hashes it did not already hold |
| Ledger.AbsorbSeenIsNoop | index.js:133-136 | A response whose qualifying hashes are all held already changes nothing and yields no new records |
| Ledger.AbsorbTwiceAddsNothing | index.js:128-151 | Absorbing the same response again adds nothing and yields no new records, whatever the new cutoff |
| Ledger.SortNewestFirst | index.js:153 | The sorted history is a permutation of its input, ordered newest first |
| Ledger.SortNewestFirstKeepsSorted | index.js:153 | Sorting a history that is already newest first leaves it unchanged |
| Ledger.AbsorbThenSortKeepsValid | index.js:128-153 | Absorbing and then sorting keeps the history valid: unique hashes, only 2025 records, newest first |
| Ledger.AbsorbThenSortGrowth | index.js:128-153 | After absorbing and sorting, every old entry is still present. The history grows by the distinct unseen qualifying hashes, and its hashes are the old ones plus the response's qualifying ones |
| Ledger.After | index.js:229 | The entries of a time window, strictly newer than its start and in history order. There are never more of them than history entries. Its membership is stated by `AfterMembers` |
| Ledger.AfterMembers | index.js:229 | An entry is in a time window exactly when it is in the history and strictly newer than the window's start |
| Ledger.AfterWidens | index.js:220-229 | A window that starts earlier never holds fewer entries |
| Ledger.AfterNewestFirstIsPrefix | index.js:229 | On a newest-first history a window is a prefix, and every entry after it is at or before the window's start |
| Commands.IsWhitespace | index.js:208 | The characters `trim` removes: the JavaScript white space and line terminator characters |
| Commands.Trim | index.js:208 | `trim` removes leading and then trailing white space. What it leaves is characterised by `TrimStartIsSuffix` and `TrimEndIsPrefix` |
| Commands.TrimStartIsSuffix | index.js:208 | Trimming the start removes exactly the leading white space |
| Commands.TrimEndIsPrefix | index.js:208 | Trimming the end removes exactly the trailing white space |
| Commands.ToLower | index.js:208 | `toLowerCase` character by character. It maps A–Z and the Kelvin sign, the only characters whose lower case is an ASCII letter |
| Commands.ParseCommand | index.js:208-257 | The command a message names: its trimmed, lower-cased text equals `/check`, `/status` or `/help` exactly. Both directions are proved in `ParseCommandTolerant` and `ParseCommandExact` |
| Commands.CommandNamed | index.js:218-264 | A text names a command exactly when it equals `/check`, `/status` or `/help` |
| Commands.ParseCommandTolerant | index.js:208-218 | Any casing of a command, padded with white space on either side, is recognised as that command |
| Commands.ParseCommandExact | index.js:208-257 | Only those spellings are recognised. A text that names a command is white space, then a piece that lower-cases exactly to the command, then white space |
| Commands.ParseCommandRejectsArgument | index.js:208-218 | A command followed by a space and an argument is not recognised |
| Commands.Handled | index.js:204-218 | An update is answered exactly when it carries a message with non-empty text, from a recipient, whose text names a command. The answer is for that command |
| Commands.Answer | index.js:218-264 | The answer to each command: the window counts for `/check`, the history size and uptime for `/status`, the help text for `/help` |
| Commands.CheckCounts | index.js:220-236 | The `/check` answer counts the history entries strictly newer than one hour, 24 hours and seven days before `now` |
| Commands.LastUpdateId | index.js:202-203 | `lastUpdateId` after a batch is the id of its last update. An empty batch leaves the previous value |
| Commands.Offset | index.js:188 | The request offset is `lastUpdateId + 1` only when `lastUpdateId` is present and not 0 |
| Commands.SplitUptime | index.js:244-246 | The uptime splits into whole hours and minutes below 60, whose total is the uptime rounded down to the minute |
| Commands.Answers | index.js:202-264 | A batch gets at most one answer per update |
| Commands.CheckCountsOrdered | index.js:220-236 | The /check counts satisfy count(1 h) ≤ count(24 h) ≤ count(7 d) ≤ size of the history |
| Commands.CheckCountsExample | index.js:220-236 | Entries half an hour, two hours and six days old count 1, 2 and 3. An entry ten days old falls outside the seven-day window |
| Commands.AnswersAppend | index.js:202-265 | Handling a batch in two parts gives the same answers as handling it at once |
| Commands.AnswersIgnoreStrangers | index.js:209-214 | Updates from chats outside the recipient list get no answer |
| Commands.OffsetPassesBatch | index.js:188-203 | After a batch with ascending ids ending in a non-zero id, the next request starts past every update of the batch |
| Commands.OffsetIgnoresZero | index.js:188 | A last update id of 0 gives no offset, the same as no id at all |
| Monitoring.Usable | index.js:111-122 | A ledger reply is absorbed only when its status is `"1"` and its result is a list |
| Monitoring.HourlyReportDue | index.js:167-168 | The hourly report is due when forced, or when the fetch is not silent and at least an hour has passed since the last one |
| Monitoring.HourlyReportDueByDivision | index.js:167-168 | The integer rule (forced, or not silent and at least 3600000 ms elapsed) is the same as the source's rule on hours obtained by division |
| Monitoring.FetchEvents | index.js:157-171 | An alert is sent if and only if there are new records and the bot was already initialised. The hourly report is sent if and only if it is due. Nothing else is sent, each at most once, and the alert comes before the report |
| Monitoring.Bot.constructor | index.js:18-21 | Start state: empty history, not initialised, last hourly report at start time, no update id |
| Monitoring.Bot.FetchTransactions | index.js:100-185 | See the list after this table |
| Monitoring.Bot.AbsorbReply | index.js:124-176 | With a usable reply: absorb, re-sort, send the events, move `lastHourlyReport` to `now` exactly when the report is sent, and set `isInitialized` |
| Monitoring.Bot.AbsorbResponse | index.js:128-151 | The loop's resulting history and new-record list are exactly those of `Absorb` |
| Monitoring.Bot.ListenToCommands | index.js:187-269 | See the list after this table |
| Monitoring.StartUp | index.js:313-314 | The silent first fetch sends neither an alert nor a report. A usable reply leaves the bot initialised, with one entry per distinct 2025 hash. Any other reply leaves it empty and not initialised |
| Monitoring.FetchTwice | index.js:320-326 | Fetching the same reply again leaves the history as the first fetch made it. No alert is sent, at most an hourly report with no records |

For every reply the model represents, `Monitoring.Bot.FetchTransactions` keeps
the bot's invariant (valid history) and never unsets `isInitialized`. By reply:

- A bad status or a result that is not a list changes nothing and sends
  nothing.
- A transport error sends a network warning only for `ECONNABORTED` and
  `ENOTFOUND`.
- A usable reply leaves the history equal to the sorted absorb. It sets
  `isInitialized` and moves `lastHourlyReport` by the hourly rule, and it
  sends the events `FetchEvents` gives. The old entries are kept, and the
  growth and the hashes are exact.

`Monitoring.Bot.ListenToCommands` requests updates with offset
`lastUpdateId + 1` only when `lastUpdateId` is non-zero. By reply:

- An ok reply moves `lastUpdateId` to the last update's id and sends
  `Answers` for the batch.
- A failed reply changes nothing and sends nothing.

## Left out

- HTTP and messaging I/O are left out. This covers the Etherscan and Telegram
  requests and their time-outs. It also covers `sendTelegramMessage`'s
  per-recipient delivery and its results (`index.js:61-82`), and `selfPing`.
  Replies are inputs, and the messages sent are returned values.
- Message text and HTML layout are left out: `formatDate` with its Asia/Taipei
  zone, the content of `sendHourlyStatus`, the start-up greeting message, and
  the address prefix shown in replies. A `Notice` or `Event` holds only the data
  the message is built from.
- The ETH amount shown in alerts (`parseFloat(tx.value) / 1e18`) is left out
  because it is floating point. The value string is carried unchanged.
- `getFullYear` uses the host's local time zone. The model uses the fixed UTC
  range of 2025 instead.
- A `blockNumber` that does not parse (`NaN`) is not modelled. The block is an
  integer.
- Reading the configuration from the environment is left out. The recipient
  list is a constructor argument and the start block is not used.
- The Express health endpoints, the signal and exception handlers, and the
  `setInterval` schedule are left out. So is any overlap between ticks, which
  is a concurrency concern; every method models one uninterrupted run.
- Monitoring.Bot.FetchTransactions: an entry of the result list that is
  `null` is not modelled; every response entry is a record. In the source,
  such an entry throws at `index.js:129` partway through the loop. Records
  before it have already been pushed (`index.js:145`). The history is then
  left unsorted, `isInitialized` is not set, and no warning is sent, because
  the error has no `code`. Those records are never alerted, because the next
  fetch finds them already held.
- Monitoring.Bot.ListenToCommands: a message without a `chat` is not
  modelled; every message carries a chat id. In the source, such a message
  throws at `index.js:209` after `lastUpdateId` has already moved to its
  update (`index.js:203`). The rest of the batch is then dropped unanswered.
- Monitoring.Bot.ListenToCommands: the source reads the clock again for each
  `/check` and `/status`. The model uses one reading, `now`, and one uptime for
  the whole batch.
- Commands.ToLower: only the characters whose lower case is an ASCII letter
  are mapped (A–Z and the Kelvin sign). Other characters are left as they are.
  This does not change which texts name a command, because every command is
  lower-case ASCII.
- Commands.Answers: the contract only bounds the number of answers. What each
  answer holds is stated by `ListenToCommands`' tie to this function and by
  the lemmas after it.
