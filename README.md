# ReachInbox campaign pipeline in Dafny

ReachInbox schedules e-mail campaigns. There are three parts:

- **Compose form.** In the dashboard, a user picks a recipient file (one address per line), a subject, a body, a start time and a delay. The page reads the addresses from the file and checks the form. It then posts the form to the backend, at most once at a time.
- **Scheduling endpoint.** `POST /api/schedule/csv` validates the parameters and reads the first column of the uploaded CSV. For each recipient in order it stores one `EmailJob` row with status `scheduled`, then adds one item to the delayed "email-queue". Rows are staggered `delaySeconds` apart from the start time. The response is the number of rows created.
- **Worker.** For every queue item it loads the row, hands a message to the mail transport, and records the outcome as `sent` (with `sentAt`) or `failed`.

Two read endpoints list a sender's scheduled rows, earliest first, and sent rows, latest first.

The model has one module per part of the core:

| module | file | models |
|---|---|---|
| `Jobs` | `jobs.dfy` | the `EmailJob` entity, its status column and its column defaults |
| `Store` | `store.dfy` | the repository as a class over a map from key to row |
| `DelayQueue` | `delay_queue.dfy` | the queue as a class holding the items added so far |
| `Scheduler` | `scheduler.dfy` | the scheduling handler: a method whose loop is proved against a specification of the campaign's rows and items |
| `Queries` | `queries.dfy` | the two list endpoints: a filter plus a sort |
| `Worker` | `worker.dfy` | the worker's job function, and the worker consuming a sequence of items |
| `JsString` | `js_string.dfy` | the JavaScript `split` and `trim` the form relies on |
| `Compose` | `compose.dfy` | the recipient parser, the validity check, and the form component as a class |
| `Pipeline` | `pipeline.dfy` | the scheduling endpoint and the worker together |

Some inputs are parameters rather than modelled code:

- `Date.parse` is `dateParse: string -> Option<Timestamp>`, where `None` stands for NaN.
- `Date.now()` at the `i`-th enqueue is `appNow(i)`.
- The database's insert time of the `i`-th row is `dbNow(i)`.
- The worker's `new Date()` is `now`, or `clock(k)` for the `k`-th item.
- The transport's answer is `delivered`.
- The outcome of the form's `axios.post` is `postSucceeds`.

What the code does at its edges, which the model follows:

- **Negative delays.** The handler passes `currentTime - Date.now()` to the queue with no zero clamp. A start time in the past therefore gives a negative delay (`Scheduler.CampaignItemsMatchRows`).
- **Empty recipient list.** The handler's guards look only at the subject, the start time and the delay. A CSV without recipients passes them and is answered `{scheduled: 0}` (`Scheduler.ScheduleCsv`).
- **No terminal-status guard.** The job function never checks a row's current status. A redelivered item is attempted again and overwrites the status. If that second attempt fails, a sent row becomes a failed row that still carries its `sentAt` (`Worker.AttemptIgnoresPriorStatus`, `Worker.RedeliveryOverwrites`).

Stricter than the server:

- The form trims the subject before checking it. The server only checks that the subject is non-empty. A form the page accepts therefore always passes the server's parameter guard (`Compose.ValidFormPassesServerGuard`), but not the other way round.
- The page's address list only gates submission. The server reads its recipients from the CSV's first column itself, untrimmed.

## Model

| member | source | states |
|---|---|---|
| Jobs.ParseStatus | backend/src/models/EmailJob.ts:24-25 | a status text reads back to a status whose stored text is that text; any text other than the three names is not a status |
| Jobs.StatusNameRoundTrip | backend/src/models/EmailJob.ts:24-25 | every status is stored as a text that reads back as the same status, and distinct statuses have distinct texts |
| Jobs.StatusTextMatches | backend/src/models/EmailJob.ts:24-25 | a status text such as the `"scheduled"` of a `where` clause matches exactly the status it reads back as |
| Jobs.PersistDefaults | backend/src/models/EmailJob.ts:6-34 | an inserted row takes status `scheduled`, sequence 0 and a null `sentAt` when those columns are omitted; supplied `status`, `sequence` and `sentAt`, the other columns, the generated key and the creation time are kept |
| Store.Repository.Insert | backend/src/index.ts:124-133 | `create` then `save` inserts the row under a fresh key that no existing row uses; the defaults are applied, no other row changes, and every row still sits under its own key |
| Store.Repository.Save | backend/src/worker.ts:48-55 | saving a loaded row overwrites exactly that row, and every row still sits under its own key |
| Store.Repository.FindOneBy | backend/src/worker.ts:37-38 | the result is present exactly when the key is in the table, is the row stored under that key, and carries that key as its id |
| DelayQueue.Queue.Add | backend/src/index.ts:135-139 | adding appends exactly one item with the given name, payload and delay, negative delays included |
| Scheduler.CheckParameters | backend/src/index.ts:100-109 | a request is refused with "invalid parameters" iff subject or start time is empty or the delay is not positive; with "invalid start time" iff those pass but the start time does not parse; otherwise it is accepted with the parsed start |
| Scheduler.Render | backend/src/index.ts:103-145 | a refusal goes out with status 400 and the error text of its guard ("Invalid scheduling parameters" or "Invalid start time"); an acceptance goes out with status 200 and `{scheduled: n}` |
| Scheduler.RenderInjective | backend/src/index.ts:103-108 | no two different answers look alike on the wire: the two refusals carry different texts |
| Scheduler.FirstColumnAppend | backend/src/index.ts:116-117 | rows are read independently and in order: the recipients of two concatenated row lists are the recipients of each, concatenated |
| Scheduler.FirstColumnMembers | backend/src/index.ts:116-117 | a text is a recipient iff some row has it as a non-empty first field; no recipient is empty and there are never more recipients than rows |
| Scheduler.CollectRecipients | backend/src/index.ts:112-118 | the streaming collection loop yields exactly the non-empty first fields, in row order |
| Scheduler.SendAtStep | backend/src/index.ts:141 | each next recipient's send instant is `delaySeconds * 1000` ms after the previous one |
| Scheduler.StaggerIncreasing | backend/src/index.ts:120-141 | with a positive delay, send instants strictly increase along the campaign, and two recipients are exactly `(j - i) * delaySeconds * 1000` ms apart |
| Scheduler.CampaignRowAt | backend/src/index.ts:123-133 | the `i`-th recipient's row sits under key `firstId + i` and is the persisted `create` of that recipient with sequence `i` |
| Scheduler.CampaignRowsKeys | backend/src/index.ts:123-133 | `n` recipients add exactly `n` rows, on the keys `firstId .. firstId + n - 1` |
| Scheduler.CampaignRowsShape | backend/src/index.ts:120-141 | one row per recipient, and no other row; the `i`-th is addressed to the `i`-th recipient with sequence `i`, `sendAt = start + i * delaySeconds * 1000`, status `scheduled`, no `sentAt`, and the campaign's sender, subject and body |
| Scheduler.CampaignItemsMatchRows | backend/src/index.ts:135-139 | one item per row, in order: named "send", referring to the `i`-th row's key and sender, with delay equal to that row's `sendAt` minus the clock at enqueue time (negative when the instant has passed); no two items name the same row |
| Scheduler.ScheduleCsv | backend/src/index.ts:99-146 | a refused request answers status 400 with its error and changes neither table nor queue; an accepted one answers status 200 with the recipient count, adds exactly the campaign's rows under fresh keys, and appends exactly the campaign's items to the queue |
| Scheduler.ThreeRecipientCampaign | backend/src/index.ts:120-141 | recipients a, b, c with a 2 s delay from `t` become rows 0, 1, 2 with sequences 0, 1, 2, sent at t, t + 2000 and t + 4000 |
| Queries.PrecedesTotalPreorder | backend/src/index.ts:155-165 | both endpoint orderings (`sendAt` ascending; `sentAt` descending with nulls first) are reflexive, total and transitive |
| Queries.RowsOfTable | backend/src/index.ts:153 | the table scan returns every row once and nothing else |
| Queries.RowsDistinct | backend/src/index.ts:153 | when each row sits under its own key, the scan lists no row twice |
| Queries.Where | backend/src/index.ts:154 | the filter keeps exactly the rows with the given sender whose stored status text is the given text, and introduces no duplicates |
| Queries.InsertMembers | backend/src/index.ts:155 | one insertion step of the ordering adds exactly the new row |
| Queries.InsertSorted | backend/src/index.ts:155 | one insertion step keeps a sorted list sorted |
| Queries.InsertDistinct | backend/src/index.ts:155 | one insertion step of a new row introduces no duplicate |
| Queries.SortCorrect | backend/src/index.ts:155 | the ordering returns a sorted permutation of its input, without duplicates when the input has none |
| Queries.FindCorrect | backend/src/index.ts:153-156 | a find returns exactly the table's rows with the given sender and status text, sorted by the given order, each row once |
| Queries.ListScheduled | backend/src/index.ts:151-158 | `/api/scheduled` lists exactly the sender's scheduled rows, earliest `sendAt` first, each once |
| Queries.ListSent | backend/src/index.ts:161-168 | `/api/sent` lists exactly the sender's sent rows, latest `sentAt` first, each once |
| Worker.BuildMessage | backend/src/worker.ts:41-46 | the message goes to the row's recipient with the row's subject, from "ReachInbox" at the transport account; its text is the body, or the fallback text when the body is empty, and is never empty |
| Worker.AttemptOutcome | backend/src/worker.ts:40-57 | a delivered message leaves the row `sent` at `now`; a refused one leaves it `failed` with `sentAt` untouched; no other column changes |
| Worker.AttemptIgnoresPriorStatus | backend/src/worker.ts:37-55 | the outcome does not depend on the row's previous status, and is never `scheduled` |
| Worker.RedeliveryOverwrites | backend/src/worker.ts:40-57 | a sent row that is attempted again and fails ends `failed` while still carrying its `sentAt`; a failed row attempted again and delivered ends `sent` |
| Worker.ProcessJob | backend/src/worker.ts:35-58 | a missing row is skipped, with nothing sent and nothing written; otherwise the message built from the row is handed to the transport, and only that row is rewritten with the attempt's outcome |
| Worker.ReplayOutcome | backend/src/worker.ts:35-58 | consuming items never adds or removes rows and changes nothing but status and `sentAt`; every row an item names ends `sent` or `failed`; rows no item names are untouched |
| Worker.ProcessItems | backend/src/worker.ts:35-58 | running the job function over the items in order leaves the table as the replay of the attempts, and hands the transport one message per item whose row exists, in item order |
| Pipeline.CampaignRowsAttempted | backend/src/worker.ts:35-58 | after a campaign's items are consumed, each of its rows is `sent` or `failed`, with its recipient and sequence intact |
| Pipeline.OlderRowsKept | backend/src/worker.ts:35-58 | consuming a campaign's items leaves the rows that existed before the campaign unchanged and the key set the same |
| Pipeline.NotListedUnlessScheduled | backend/src/index.ts:153-156 | a row whose status is not `scheduled` never appears in `/api/scheduled` |
| Pipeline.CampaignDrained | backend/src/worker.ts:35-58 | once a scheduled campaign's items are consumed, none of its rows is still listed as scheduled; each was attempted and keeps its recipient and sequence, and older rows are untouched |
| JsString.Split | frontend/src/components/ComposeModal.tsx:31 | splitting gives at least one piece, and no piece contains the separator |
| JsString.JoinSplit | frontend/src/components/ComposeModal.tsx:31 | splitting loses nothing: joining the pieces with the separator restores the text |
| JsString.SplitJoin | frontend/src/components/ComposeModal.tsx:31 | pieces free of the separator come back unchanged from a join followed by a split |
| JsString.SplitNoSeparator | frontend/src/components/ComposeModal.tsx:31 | a text without the separator is a single piece |
| JsString.SplitConcat | frontend/src/components/ComposeModal.tsx:31 | splitting `a + sep + b` gives the pieces of `a` followed by the pieces of `b` |
| JsString.SplitCovers | frontend/src/components/ComposeModal.tsx:31 | pieces contain only characters of the text, and every non-separator character lands in some piece |
| JsString.SplitLines | frontend/src/components/ComposeModal.tsx:31 | splitting at `\r?\n` gives as many lines as splitting at `\n`, and no line contains a line break |
| JsString.TrimStartSpec | frontend/src/components/ComposeModal.tsx:32 | the leading cut removes a whitespace prefix, keeps the rest as a suffix, and stops at a non-whitespace character |
| JsString.TrimEndSpec | frontend/src/components/ComposeModal.tsx:32 | the trailing cut removes a whitespace suffix, keeps the rest as a prefix, and stops at a non-whitespace character |
| JsString.TrimEndKeepsStart | frontend/src/components/ComposeModal.tsx:32 | trimming the end of a text that starts with a non-whitespace character keeps that first character |
| JsString.TrimSpec | frontend/src/components/ComposeModal.tsx:32 | `trim` returns a slice of the text with only whitespace cut on either side, neither starting nor ending with whitespace |
| JsString.TrimEmptyIffBlank | frontend/src/components/ComposeModal.tsx:32-33 | a text trims to the empty string iff all of its characters are whitespace |
| JsString.TrimIdempotent | frontend/src/components/ComposeModal.tsx:32 | trimming twice is trimming once |
| JsString.TrimDropTrailingCR | frontend/src/components/ComposeModal.tsx:31-32 | a `\r` that the `\r?\n` split removes is one `trim` would remove anyway |
| JsString.TrimStartCommutesWithCR | frontend/src/components/ComposeModal.tsx:31-32 | for a line ending in `\r` that is not blank, removing that `\r` before trimming changes nothing |
| Compose.NonEmptyMembers | frontend/src/components/ComposeModal.tsx:33 | the length filter keeps exactly the non-empty lines, and never more than it is given |
| Compose.NonEmptyAppend | frontend/src/components/ComposeModal.tsx:33 | filtering two concatenated line lists gives the filtered lists, concatenated |
| Compose.ParsedLinesClean | frontend/src/components/ComposeModal.tsx:29-33 | every parsed address is non-empty, already trimmed and free of line breaks, and there are no more addresses than lines |
| Compose.ParseRecipients | frontend/src/components/ComposeModal.tsx:29-33 | the parsed addresses number at most the file's lines, and each is non-empty, trimmed and free of line breaks |
| Compose.ParseIgnoresCR | frontend/src/components/ComposeModal.tsx:30-32 | splitting at `\r?\n` and trimming gives the same addresses as splitting at `\n` and trimming, so CRLF and LF files read alike |
| Compose.ParseLineIndependence | frontend/src/components/ComposeModal.tsx:30-33 | the addresses of two texts joined by a line break are those of the first followed by those of the second |
| Compose.ParseSingleLine | frontend/src/components/ComposeModal.tsx:30-33 | a single line yields its trimmed text as the one address, or nothing when it is blank |
| Compose.NonEmptyOfBlanks | frontend/src/components/ComposeModal.tsx:33 | a list of empty lines filters to nothing |
| Compose.BlankLine | frontend/src/components/ComposeModal.tsx:32 | a line made only of whitespace characters trims to nothing |
| Compose.BlankGivesNothing | frontend/src/components/ComposeModal.tsx:29-35 | a file holding only whitespace yields no address |
| Compose.NonBlankGivesSomething | frontend/src/components/ComposeModal.tsx:29-35 | a file with any non-whitespace character yields at least one address |
| Compose.ParseEmptyIffBlank | frontend/src/components/ComposeModal.tsx:29-38 | the "no email addresses" error case happens exactly when the file holds nothing but whitespace |
| Compose.FormValid | frontend/src/components/ComposeModal.tsx:48-57 | the form is valid iff the subject has a character other than whitespace, a file is chosen, at least one address was read, the start time is non-empty, and delay and hourly limit are positive; `ComposeModal.IsValid` is this predicate on the form's fields |
| Compose.ValidFormPassesServerGuard | frontend/src/components/ComposeModal.tsx:48-57 | a form the page accepts never fails the endpoint's parameter check; only an unparsable start time can still be refused |
| Compose.ComposeModal.constructor | frontend/src/components/ComposeModal.tsx:12-20 | the form starts empty, with a 2 s delay, an hourly limit of 100, not loading and without an error |
| Compose.ComposeModal.HandleFileChange | frontend/src/components/ComposeModal.tsx:23-25 | choosing a file makes it the form's file and clears the error, changing nothing else |
| Compose.ComposeModal.OnFileLoaded | frontend/src/components/ComposeModal.tsx:28-42 | the file's addresses become the list; when there are none the list is empty and the "no email addresses" error is set, otherwise the error is left as it was; nothing else changes |
| Compose.ComposeModal.BeginSubmit | frontend/src/components/ComposeModal.tsx:60-78 | an invalid form or one already sending posts nothing and changes nothing; otherwise the form enters the sending state with its error cleared and posts exactly its fields, and the posted form satisfies the validity check |
| Compose.ComposeModal.CompleteSubmit | frontend/src/components/ComposeModal.tsx:80-86 | on success the owner's `onSuccess` then `onClose` run; on failure the failure message is set; either way the form leaves the sending state and its fields are unchanged |
| Compose.ComposeModal.HandleSubmit | frontend/src/components/ComposeModal.tsx:60-87 | a press whose post answers before anything else happens: nothing for an invalid or busy form; otherwise one post of the form's fields, then the callbacks with no error, or the failure message, and never left loading |

## Left out

- Express routing, `requireAuth` and the session are left out. The signed-in user's address is the `sender` parameter.
- Multer's upload storage, the file stream and `fs.unlinkSync` are left out. `Scheduler.ScheduleCsv` receives the rows as already parsed CSV records; the quoting and escaping rules of `csv-parse` are not modelled.
- A request without an uploaded file: the handler throws when it reads `req.file.path`. The model always has the parsed rows, so that exception path is not modelled.
- Form fields reach the handler as text. `delaySeconds <= 0` and `delaySeconds * 1000` then rely on JavaScript's numeric coercion. The model takes `delaySeconds` as an integer, so non-numeric text (NaN arithmetic) and fractional seconds are not modelled.
- `Scheduler.CheckParameters`: `!subject` and `!startTime` are modelled as "empty text". A missing `subject` or `startTime` reads as the empty text, which the guard refuses in the same way.
- `Scheduler.ScheduleCsv`: a request without a `body` field is not modelled. `repo.create` then leaves `body` undefined, the insert into the NOT NULL `body` column (backend/src/models/EmailJob.ts:15-16) fails, and `repo.save` rejects at backend/src/index.ts:133. When there is at least one recipient, no row is written and no answer is sent; a CSV with no recipients never reaches the save and still answers `{scheduled: 0}`. The model always has a body text, so it saves the rows and answers `{scheduled: n}` instead.
- `Scheduler.CheckParameters`: a request without a `delaySeconds` field is not modelled. The guard at backend/src/index.ts:102 lets `undefined` through, because `undefined <= 0` is false, while an empty text is refused. The first recipient is scheduled at the start time as usual; the step at backend/src/index.ts:141 multiplies `undefined` by 1000, so from the second recipient on every send instant is NaN. The model's `delaySeconds` is always an integer.
- A failing database save or queue add (a rejected promise part-way through the scheduler loop) is not modelled. Every save and every add succeeds, so the partial campaigns such failures leave behind are not represented.
- `Worker.ProcessJob`: a failing save on the worker's success path (backend/src/worker.ts:50) is not modelled. That save sits inside the `try`, so the catch at backend/src/worker.ts:54-55 would record the delivered message as `failed` while it carries the new `sentAt` set at line 49. The model's saves always succeed, so a delivered message always ends `sent`.
- The answer is sent asynchronously, after the stream's end event. The model runs the handler to completion in one call.
- `uuid` primary keys are modelled as naturals handed out by a counter. Fresh keys are what the model relies on; the key format is not.
- `CreateDateColumn` and every clock reading are parameters. No relation between the clocks is assumed.
- BullMQ is left out: its readiness times, the ordering of items by delay, Redis persistence, acknowledgements, retries and the worker's concurrency (`CONCURRENCY` from the environment, 5 by default). `Worker.ProcessItems` consumes items one at a time, in the order it is given; duplicate items stand for redelivery.
- nodemailer is left out. The transport's answer is the `delivered` boolean, `ETHEREAL_USER` is the `account` parameter, and console logging is not modelled.
- Queries: the SQL engine, JSON serialisation and the order of rows that tie on the sort key are left out. The scan order is an unspecified enumeration, and ties are left in scan order.
- Queries.ListSent: it places rows without a `sentAt` first, as PostgreSQL does for a descending sort. Sent rows always carry a `sentAt` in the model, so this only matters for rows the filter already excludes.
- The `hourlyLimit` field is posted but never read by the server. The model carries it in the form and nothing enforces it, as in the code.
- ComposeModal's rendering and its input `onChange` setters (the JSX after line 89) are left out. So are the `useMemo` caching of `isValid`, `String(...)` form serialisation, the URL and `axios.defaults.withCredentials`.
- The `FileReader` load event is modelled as a separate method, `Compose.ComposeModal.OnFileLoaded`. `readAsText`'s decoding of bytes into text is not modelled; the file's text is given as a string.
- An `axios.post` still in flight is modelled by calling `Compose.ComposeModal.BeginSubmit` and `Compose.ComposeModal.CompleteSubmit` separately. Other UI events in between are whatever methods the caller interleaves.
- JsString.IsWhitespace: it covers ECMAScript's WhiteSpace and LineTerminator sets as fixed code points. The Space_Separator category is written out as a fixed list of code points.
