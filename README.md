# lasers_node relay, modelled in Dafny

lasers_node is a small Node.js server that relays lighting commands to devices. An operator
posts commands for a device (`POST /api/v1/cmd`). Each command is stored as a row of an SQLite
`events` table and is delivered to the device. The device fetches its commands by long polling
(`GET /api/v1/poll`): the server answers at once with any rows after the device's cursor, or
holds the request until new rows arrive or the wait runs out. An `OFF` command is not stored.
It starts a five-step switch-off macro (SCENE 1, three raw resets, then OFF, 20 s apart), and
any later command other than `GET` cancels the macro. `GET /api/v1/events` pages through a
device's stored rows. A separate helper class checks passwords and e-mail addresses and
generates random passwords.

This project models that core and proves its properties:

- `EventLog` (`events.dfy`): the events table as the sequence of its rows, with the
  AUTOINCREMENT counter. It defines the after-cursor query, the `MAX(id)` query, the tail
  cache trim and the rows one batch insert creates.
- `Dispatch` (`dispatch.dfy`): the pure part of `/cmd`. It covers the shape of the body, the
  normalisation of each entry, which rows are stored, the five macro steps, and how the macro
  table changes entry by entry.
- `Server` (`server.dfy`): the mutable state of the server, as the class `Relay`. Its fields
  are the table, the counter, the device registry, every parked poll ever made, and the macro
  table. The class has one method per handler and step, and the poll's timeout and
  client-close callbacks are methods too. Its invariant is `Coherent`, which each update keeps
  through a small "Keeps" lemma:
  - ids increase;
  - every cache holds at most 500 events;
  - a record's `lastId` is at most its device's largest id in the table (0 for a device
    without rows);
  - a request sits in its device's waiter set exactly while it is parked.
- `AuthUtils` (`auth.dfy`): `validatePassword`, `validateEmail` and `generateRandomPassword`,
  with the random draws passed in.
- `JsText` (`text.dfy`): the JavaScript string built-ins the code relies on: `trim`, `\s` and
  `toUpperCase`. `Wrappers` (`wrappers.dfy`) holds `Option` and `Result`.

Modelling choices:

- The wall clock, `new Date().toISOString()`, `Math.random` and the timers become parameters
  or explicit methods. Examples: `nowMs` and `now` arguments, `TimeoutFires`, `ClientCloses`
  and `FireStep`.
- HTTP responses become return values. A parked poll becomes a numbered `Request` whose state
  runs through Parked, then Delivered, TimedOut or Closed.
- A device record (`{ queue, lastId, lastSeenAt, waiters, maxQueue }`) is a `Record` value
  stored in the `devices` map. Every change to a record is a write of the map entry.

## Model

| member | source | states |
|---|---|---|
| JsText.TrimStart | server.js:116 | the result is a suffix of the input, and what was dropped is white space; the result does not start with white space |
| JsText.TrimEnd | server.js:116 | the result is a prefix of the input, and what was dropped is white space; the result does not end with white space |
| JsText.TrimEmptyIff | server.js:116-117 | a device parameter trims to the empty string exactly when it is all white space, the case the handlers refuse with "device required" |
| JsText.Trim | server.js:116 | `String(...).trim()`: trim at the start, then at the end; TrimEmptyIff and TrimKeepsInner state its properties |
| JsText.TrimKeepsInner | server.js:116 | a text with no white space at either end is left as it is by trim |
| JsText.UpperChar | server.js:177 | each ASCII lower-case letter becomes its own capital (code point minus 32); every other character is kept |
| JsText.Upper | server.js:177 | `toUpperCase` keeps the length and maps every character through UpperChar, position by position |
| JsText.UpperIsOff | server.js:177-179 | under the ASCII case mapping, a command upper-cases to "OFF" exactly when it is one of the eight case spellings of "off" |
| AuthUtils.ValidatePassword | utils/auth.js:35-54 | a password is accepted iff it has at least 8 characters, an ASCII digit and an ASCII letter; a rejection carries one of the three messages |
| AuthUtils.ShortPasswordRejected | utils/auth.js:37-43 | any password under 8 characters is rejected with the length message, whatever it contains |
| AuthUtils.DigitCheckedBeforeLetter | utils/auth.js:45-47 | with at least 8 characters and no digit, the message is the digit one, even when letters are missing too |
| AuthUtils.LetterRuleLast | utils/auth.js:39-51 | with at least 8 characters and a digit but no ASCII letter, the message is the letter one |
| AuthUtils.ValidateEmail | utils/auth.js:55-58 | the regular expression test as a predicate on positions: a non-empty local part, an '@', then a '.' with a non-empty part on each side, and no '@' or white space in any of the three parts; ValidateEmailSplit and the two lemmas below relate it to the pattern |
| AuthUtils.PatternGivesSplit | utils/auth.js:57-58 | a match of the regular expression gives the split: a non-empty local part, then '@', then a domain with an inner '.', none with '@' or white space |
| AuthUtils.SplitGivesPattern | utils/auth.js:57-58 | conversely, such a split yields a match of the regular expression |
| AuthUtils.ValidateEmailSplit | utils/auth.js:56-59 | validateEmail holds iff the address splits at some '@' into such a local part and domain |
| AuthUtils.Occurrences | utils/auth.js:57 | the count is zero iff the character does not occur |
| AuthUtils.OccurrencesSplit | utils/auth.js:57 | the count splits around any occurrence of the character |
| AuthUtils.AcceptedEmailHasOneAt | utils/auth.js:57-58 | an accepted address contains exactly one '@' and no white space |
| AuthUtils.PickIndex | utils/auth.js:65 | `Math.floor(r * 70)` is a valid index into the alphabet for every draw in [0, 1) |
| AuthUtils.GenerateRandomPassword | utils/auth.js:61-68 | the result has exactly `length` characters (12 by default, none for a negative length); character i is the alphabet letter that draw i picks, so every character is in the 70-character alphabet |
| EventLog.ToEvents | server.js:132 | each returned event carries the id, the timestamp and the payload of the row at the same position |
| EventLog.IdsBelowMeans | server.js:19 | the AUTOINCREMENT condition holds exactly when ids strictly increase along the table and lie strictly between 0 and the counter |
| EventLog.LastIdBelow | server.js:19-29 | every device's largest id is below the counter |
| EventLog.Matching | server.js:28 | `SELECT ... WHERE device = ? AND id > ?` without the limit, in table order: never more rows than the table; MatchingSpec states which rows it selects |
| EventLog.MatchingSpec | server.js:28 | the rows the query selects are rows of the table, of that device, with id above the cursor; every such row is selected; on an increasing table they come out in increasing id order |
| EventLog.QueryAfter | server.js:28 | a read returns at most `limit` events |
| EventLog.QueryAfterSpec | server.js:28 | a read returns the first min(count, limit) matching rows as events, each with id above the cursor, and in ascending id order on an increasing table |
| EventLog.LastIdOf | server.js:29 | `SELECT COALESCE(MAX(id), 0)` for one device, scanning the table; LastIdOfIsMax states what it computes |
| EventLog.LastIdOfIsMax | server.js:29 | `COALESCE(MAX(id), 0)`: the value is at least every id of the device's rows, and is 0 or the id of one of them |
| EventLog.NothingAfterLastId | server.js:28-29 | no row of a device lies above its largest id |
| EventLog.MatchingAppend | server.js:27-28 | appending rows to the table adds their matching rows at the end of any query result |
| EventLog.NoneAbove | server.js:28 | when every id is at most the bound, nothing lies after the bound |
| EventLog.ResumeAfter | server.js:137-138 | resuming from the id of the k-th matching row drops exactly the first k rows, so a reader sees every later row once and in order |
| EventLog.ConsecutiveQueries | server.js:132-138 | a second read from the cursor the first one returned yields only larger ids, and the two reads together are the first \|r1\| + limit matching rows, with no gap and no repeat |
| EventLog.KeepTail | server.js:56-57 | the cache holds min(\|queue ++ added\|, maxQueue) events |
| EventLog.KeepTailIsSuffix | server.js:56-57 | the cache is the last elements of the old queue followed by the batch, in order |
| EventLog.KeepTailCompose | server.js:135-136 | trimming after every push leaves the same cache as trimming the whole history once |
| EventLog.KeepTailHoldsBatch | server.js:56-57 | a batch no longer than the cache ends up entirely at the end of the cache |
| EventLog.Batch | server.js:200-204 | a batch insert creates one row per input row |
| EventLog.BatchSnoc | server.js:200-204 | the batch grows one row at a time, each under the next id with the shared timestamp |
| EventLog.BatchExtends | server.js:200-204 | a batch appended above every existing id keeps the table increasing; row i of the batch carries input row i, the id first + i, the one timestamp and the device |
| EventLog.LastReturnedIsStored | server.js:132-137 | the last event a read returns has an id no larger than the device's largest id |
| Dispatch.Incoming | server.js:166-170 | the items of the body: an array body itself, else its `events` array, else the object as the one item; a body that is neither gives none |
| Dispatch.IncomingEmpty | server.js:165-171 | the batch is empty, and the request is refused with "no events", exactly for an empty array, an empty `events` array, or a body that is not an object |
| Dispatch.Walked | server.js:176-177 | the entries the loop reaches before an item throws: never more than the items |
| Dispatch.WalkedPrefix | server.js:176-177 | the walk keeps every item before the first null one, in order, and stops exactly at that null item |
| Dispatch.WalkedStep | server.js:176-177 | a reached item is an entry exactly when the walk goes past it, and then it is the walk's entry at that position |
| Dispatch.WalkedAll | server.js:176-177 | a batch without null items is walked whole |
| Dispatch.NormalizeRow | server.js:177-184 | the row built from an entry: the upper-cased command and the four optional fields through Field |
| Dispatch.Field | server.js:178-182 | `?? undefined`: a JSON null or an absent field is left out, anything else is kept as it is |
| Dispatch.StoredRows | server.js:186-196 | the rows the loop pushes: never more than the entries; StoredRowsContents states which |
| Dispatch.StoredRowsContents | server.js:186-196 | no stored row is OFF; every non-OFF entry is stored normalised; every stored row comes from a non-OFF entry |
| Dispatch.StoredRowsAppend | server.js:175-196 | the rows stored for two consecutive parts of a batch are those of the first part followed by those of the second: input order is kept |
| Dispatch.StoredRowsWithoutOff | server.js:175-196 | a batch without OFF is stored whole, entry i as row i |
| Dispatch.MacroRequested | server.js:186-188 | `macroTriggered`: some entry of the batch upper-cases to OFF; MacroRequestedSnoc states how the loop builds it |
| Dispatch.MacroRequestedSnoc | server.js:186-188 | walking one more entry sets the macro flag exactly when that entry is OFF or the flag was already set |
| Dispatch.ScheduleSec | server.js:108 | `scheduleSec` holds one entry per step; entry i is step i's delay in whole seconds |
| Dispatch.OffStepsShape | server.js:90-108 | the macro has five steps at 0, 20, 40, 60 and 80 s, and only the last one's row is OFF |
| Dispatch.AfterEntry | server.js:186-195 | one entry's effect on the macro table: OFF replaces the device's macro by the five fresh steps, a command other than GET drops it, GET keeps it |
| Dispatch.TableAfter | server.js:186-196 | the macro table after the loop has applied AfterEntry for each entry in order; the four lemmas below state its properties |
| Dispatch.TableAfterGets | server.js:195 | a batch of GETs leaves the macro table as it was |
| Dispatch.TableAfterLastActionable | server.js:186-196 | after the loop, the last entry other than GET decides: OFF leaves a fresh five-step macro, any other command leaves none |
| Dispatch.TableAfterOthers | server.js:82-110 | a batch never touches another device's macro |
| Dispatch.MacroActiveAfterBatch | server.js:186-196 | after a batch the device has a macro iff its last entry other than GET was OFF, or the batch holds only GETs and it had one before |
| Server.Clamp | server.js:118 | `Math.max(lo, Math.min(hi, x))` lies in [lo, hi], and is x inside the range, lo below it and hi above it |
| Server.WaitSeconds | server.js:118 | the poll's wait lies in [5, 60] and is 25 when absent |
| Server.EventsLimit | server.js:231 | the /events page size lies in [1, 500] and is 100 when absent |
| Server.RecentEvents | server.js:227-235 | /events refuses exactly a blank device and otherwise returns the after-cursor read with the clamped limit; the cursor it returns is the last returned id, or the device's largest id when nothing is returned |
| Server.RecentEventsResume | server.js:232-234 | reading on from the cursor /events returned yields exactly the rest of the rows after the requested cursor |
| Server.RecentEventsCursorAhead | server.js:232-233 | a cursor at or above the device's largest id gets no events back and a cursor lowered to that largest id |
| Server.Fresh | server.js:37-39 | a new record has an empty queue, no waiters, `lastSeenAt` 0, capacity 500, and `lastId` the device's largest id in the table |
| Server.AddRecordKeeps | server.js:36-42 | registering an unknown device keeps the relay invariant |
| Server.ReplaceRecordKeeps | server.js:123-137 | changing a record's cache, `lastId` or `lastSeenAt` in a way that keeps the record invariant keeps the relay invariant |
| Server.AppendKeeps | server.js:19-27 | storing a row under the counter keeps the invariant and makes that id the device's largest |
| Server.DeliverKeeps | server.js:61-67 | answering every request of a device's waiter set and emptying the set keeps the invariant |
| Server.ParkKeeps | server.js:141-156 | parking a new request on a device keeps the invariant |
| Server.UnparkKeeps | server.js:143-154 | a request that leaves its waiter set for good (timed out, closed, or already answered) keeps the invariant |
| Server.WaitersAreParked | server.js:61-67 | a device's waiter set holds exactly the requests parked on that device |
| Server.Registered | server.js:36-42 | the record getDevice hands out: the registered one, else a fresh one |
| Server.Pushed | server.js:56-67 | after a flush the queue is the kept tail of the old queue followed by the batch, `lastId` is the batch's last id, and the waiter set is empty |
| Server.FlushAnswersParked | server.js:58-67 | a flush answers exactly the requests parked on the device, each once, with the batch and the last id as cursor; the other requests are unchanged; no request of the device waits afterwards |
| Server.Relay.constructor | server.js:17-33 | the relay opens on an events table that satisfies AUTOINCREMENT, with no devices, no polls and no macros |
| Server.Relay.GetDevice | server.js:36-42 | get-or-create: a known device's record is returned and nothing changes; an unknown device gets the fresh record |
| Server.Relay.Insert | server.js:27 | one insert stores the row under the counter, which is above every existing id, and that id becomes the device's largest |
| Server.Relay.FlushToClients | server.js:54-68 | the record is pushed as Pushed says, and every request parked on the device gets the batch with cursor the batch's last id; nothing else changes |
| Server.Relay.PushToCache | server.js:135-137 | the cache becomes the kept tail of the old cache followed by the batch, and `lastId` the batch's last id |
| Server.Relay.Broadcast | server.js:61-67 | each request of the waiter set is answered once with the same payload, and the set ends up empty |
| Server.Relay.InsertOne | server.js:70-77 | the row is stored under the next id, and the event is returned and flushed to the device's record, fetched or created first |
| Server.Relay.Poll | server.js:115-157 | the poll is refused exactly for a blank device, and then nothing changes; otherwise the record is stamped, up to 200 events after the cursor (0 when absent) answer at once and warm the cache with the last id as cursor; with none, the request is parked with its wait clamped to [5, 60] and its timer armed |
| Server.Relay.PollDevice | server.js:122-157 | the poll past its device check, as PollOutcome states |
| Server.Relay.Touch | server.js:122-123 | getDevice, then the poll time is written into the record |
| Server.Relay.Park | server.js:141-156 | the new request is parked, with its timer armed, in its device's waiter set under the next request id |
| Server.Relay.TimeoutFires | server.js:142-147 | the handler is marked finished, the request leaves its waiter set, a parked one is answered with 204, and the table is untouched |
| Server.Relay.ClientCloses | server.js:149-154 | unless the timeout ran, the timer is cleared and the request leaves its waiter set, a parked one for good; after the timeout nothing changes; the table is untouched |
| Server.Relay.CancelOffMacro | server.js:82-85 | the device's pending steps are dropped and no other device's are touched, so the operation is idempotent |
| Server.Relay.StartOffMacro | server.js:87-110 | any running macro is cancelled first, the device then has exactly the five pending steps, and the reported schedule is [0, 20, 40, 60, 80] |
| Server.Relay.FireStep | server.js:100-104 | the device's next pending step leaves the table and its row goes through insertOne |
| Server.Relay.Normalize | server.js:173-197 | the loop stops with a failure exactly when some item is null; it collects exactly the stored rows of the entries before that, sets the macro flag iff one of them is OFF, and leaves the macro table as TableAfter gives it for them |
| Server.Relay.InsertRows | server.js:200-204 | the rows are stored in input order under consecutive ids with one timestamp, and the returned events are those rows |
| Server.Relay.StoreRows | server.js:199-208 | the batch is stored, and flushed when it is not empty |
| Server.Relay.SubmitCommands | server.js:161-211 | /cmd fails exactly for a blank device, an empty batch, or a batch with a null item; past the device check it does what CmdOutcome states: the record is fetched even when the body is then refused, the macro table follows the entries before any null item, a null item gives a 500 with nothing stored, otherwise the non-OFF rows are stored and flushed as one batch, and the reply lists them with the macro flag |
| Server.Relay.SubmitFor | server.js:163-211 | the /cmd handler past its device check, as CmdOutcome states |

## Left out

- Express routing, CORS, JSON parsing and serialisation, HTTP status codes and the response
  bodies' exact shape are left out. The handlers return the values they would send.
- SQLite, its pragmas and WAL are left out. The table is the sequence of its rows, and the
  `JSON.stringify`/`JSON.parse` round trip of the payload is taken as the identity.
- The clock, the timestamps and `Math.random` are parameters. The timers are not run. A poll's
  timeout, a client's close and each macro step are explicit methods that the environment
  calls; `FireStep` takes the steps in delay order.
- `authAdmin` (server.js:44-51) and the `/api/v1/devices` aggregate (server.js:214-224) are
  not part of this model.
- bcrypt and jsonwebtoken, which back `hashPassword`, `comparePassword`, `generateToken` and
  `verifyToken` in utils/auth.js, are not part of this model.
- Server.Relay.Poll: `parseInt` and its NaN results are not modelled. The wait, the cursor and the
  limit arrive already parsed, with an absent or blank value as `None`.
- Server.EventsLimit: a limit that parses to NaN is not modelled.
- JsText.Upper: only ASCII letters are upper-cased. `toUpperCase` on other letters, and
  UTF-16 lengths, are not modelled. This reaches the OFF intercept: "o\uFB00" (the "ff"
  ligature) upper-cases to "OFF" in JavaScript and starts the macro, while the model stores
  it as a row under its own command.
- AuthUtils.ValidatePassword: the length is counted in code points, while JavaScript counts
  UTF-16 code units. A password with characters outside the Basic Multilingual Plane (three
  emoji and "a1", say) has length 8 in JavaScript and is accepted there, but is rejected as
  too short here.
- Dispatch.Entry: `String(ev.cmd || '')` of a non-string `cmd` is taken as already converted
  to a string. An item that is neither an object nor null (a number or a string) reads as an
  entry without fields; only a null item is modelled as throwing.
- Server.Relay.Broadcast: the `try`/`catch` around `waiter.json` (server.js:64) is not
  modelled. Sending an answer cannot fail here.
- Server.Relay.FlushToClients: record identity is not modelled. A record is a map entry, and
  writing a record rewrites the entry; the source never replaces a record, so the two agree.
- Server.Relay.StartOffMacro: the `device` and `startedAt` fields of the returned object are
  left out. Only `scheduleSec` is returned.
- Server.Relay.TimeoutFires: delivery does not clear a poll's timer, so the timer can still
  fire for an answered request. Its 204 then has no effect: the state stays Delivered and only
  the `finished` flag is set.
- Server.Relay.SubmitCommands: the macro flag is set as soon as any entry is OFF, even when a
  later entry cancels the macro again. This matches server.js:186-196 as written.
