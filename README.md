# pretix blocklist, modelled in Dafny

This project models the decision logic of a small service that sits between the pretix ticketing
REST API and a Google Sheets spreadsheet. It keeps a blocklist of attendees who missed free events:

- **No-show scan** (`fillBlockList`, run daily). Walk the registry tab ("Info") from row index 6 on.
  For each event that has ended and is still marked "no", do three things:
  - collect the e-mails of non-cancelled orders that have a position nobody checked in;
  - write them into the blocklist tab;
  - mark the registry row "yes".

  A first no-show appends a 7-cell row `[email, first, last, slug, name, date, today]`. A later
  no-show fills the next free 4-column slot (D, H, L, …) of the attendee's row.
- **Approval gate** (`handleApprovalRequested`). Read the blocklist from row 5 on. An e-mail is
  blocked when its row has a non-empty cell in column H or later, that is, a second missed event.
  Every non-cancelled pending order is then denied if its e-mail is blocked, and approved otherwise.
- **Event registrar** (`handleEventCreated`). When an event is created whose "Regular Ticket"
  products are all free, append `[slug, name, start, end, "no"]` to the registry tab. Skip this when
  the slug is already listed in column A.
- **Webhook endpoint** (`webhook.ts`). This is HTTP Basic authentication against the configured
  user and password (section 2 of RFC 7617). The response is 401 with a challenge, or 200 "ok".
- **Mail encoding** (`email.ts`). The message is built from a fixed header block. It is encoded for
  the Gmail API's `raw` field as base64url without padding (section 5 of RFC 4648).

How the model is built:

- A sheet is a value `Table = seq<seq<string>>`.
- A read returns what the Sheets API returns for a range. That is the rows from the first requested
  row, each cut to the range's width, with trailing empty cells and trailing empty rows dropped.
- An append goes after the last non-empty row.
- A paginated pretix listing is a finite sequence of pages. Each page was either fetched or failed.
- What a handler does to the outside world is a returned list of effects: sheet writes, or
  approve/deny requests. It comes with a `completed` flag, which is false when the handler threw
  part-way.
- Each loop of the source is a method with loop invariants. Its contract ties its result to a
  specification function, and lemmas state the properties of that function.

Modules:

| file | module | models |
|---|---|---|
| wrappers.dfy | Wrappers | `Option`, and `Run` (effects plus a completed flag) |
| text.dfy | Text | `toLowerCase` (ASCII), `trim`, `split(...)[0]`, `\|\|` on strings, `join` |
| base64.dfy | Base64 | section 4 and section 5 of RFC 4648, a decoder, UTF-8 of scalar values |
| sheets.dfy | Sheets | the table, API reads, A1 column letters, append and update writes |
| pretix.dfy | Pretix | the API records the handlers use and paginated listings |
| noshows.dfy | NoShows | `src/functions/fillBlockList.ts` |
| approval.dfy | Approval | `src/handlers/handleApprovalRequested.ts` |
| registrar.dfy | Registrar | `src/handlers/handleEventCreated.ts` |
| webhook.dfy | Webhook | `src/functions/webhook.ts` |
| email.dfy | Email | `src/lib/email.ts`, lines 14-26 |
| policy.dfy | Policy | the blocklist policy that the scan and the approval gate implement together |

Some behaviours of the code that the model makes explicit:

- The free-slot search is bounded by the width of the fourth row read (`data[3].length`), not by the
  matched row. When fewer than four rows were read, `data[3]` is undefined. Its `.length` then throws
  for any e-mail that matches a row. The run stops there (`NoShows.EntryStep` gives `Failed`).
- A slot's range is written with `String.fromCharCode(65 + c)`. A read of `A:Z` is at most 26 cells
  wide, so a free slot is at most column X (c = 23). For that sixth slot the range ends in `[`, which
  is not a column letter. The Sheets API rejects the range, the update throws, and the run stops
  (`NoShows.SixthSlotRefused`). Slots one to five (D, H, L, P, T) are accepted
  (`NoShows.SlotWriteCells`).
- `addNoShowToList` reads the blocklist once. Two entries never see each other's writes: every
  effect is `EntryStep` on the same snapshot (`NoShows.AddWritesFromEntries`). Each event of the
  registry loop reads the blocklist again, so it sees the writes of the events before it.
- A failed orders fetch throws out of the whole registry loop. A failed event fetch only skips that
  row, and leaves it unmarked.

## Model

| member | source | states |
|---|---|---|
| Text.PrefixBefore | src/functions/fillBlockList.ts:99 | `split("T")[0]` is a prefix of the text, holds no `T`, and is the whole text or stops right before a `T` |
| Text.OrElse | src/functions/fillBlockList.ts:98 | `a \|\| b` on strings is `a` when `a` is set and non-empty, and `b` when `a` is unset or empty |
| Text.TrimFixpoint | src/handlers/handleApprovalRequested.ts:93 | `trim` leaves a text unchanged exactly when it neither starts nor ends with white space |
| Text.TrimIdempotent | src/handlers/handleApprovalRequested.ts:93 | trimming twice is trimming once |
| Text.LowerTrimCommute | src/handlers/handleApprovalRequested.ts:93 | lower-casing and trimming commute, so the two normalisations of an e-mail agree |
| Text.NormalizeTrimmed | src/functions/fillBlockList.ts:111 | for a text without surrounding white space, lower-case-then-trim is lower-case |
| Text.JoinFive | src/lib/email.ts:14-20 | `join(sep)` of five parts is the parts with `sep` between them |
| Base64.DecodeEncode | src/functions/webhook.ts:10-11 | decoding the standard encoding of any bytes gives the bytes back |
| Base64.EncodeDecode | src/functions/webhook.ts:10-11 | a text that decodes is the encoding of what it decodes to: encodings are canonical |
| Base64.DecodeIff | src/functions/webhook.ts:10-11 | a text decodes to the bytes exactly when it is their encoding |
| Base64.EncodeShape | src/functions/webhook.ts:10-11 | the standard encoding is alphabet characters followed by `=` exactly for the bytes a last partial group lacks |
| Base64.GroupRoundTrip | src/functions/webhook.ts:10-11 | the four sextets of a group of three bytes give the bytes back, and a partial group's last sextet is padded with zero bits |
| Base64.EncodeLength | src/lib/email.ts:22-23 | the padded encoding has 4 characters per started group of 3 bytes |
| Base64.UrlCharIsTranslated | src/lib/email.ts:24-25 | mapping `+` to `-` and `/` to `_` turns the standard alphabet into the URL-safe one, which has no `=` |
| Base64.Utf8Ascii | src/lib/email.ts:22 | an ASCII text's UTF-8 bytes are its character codes |
| Base64.Encode | src/functions/webhook.ts:10-11 | `Buffer.from(...).toString("base64")`: each group of three bytes becomes four characters of the RFC 4648 section 4 alphabet, and a last group of one or two bytes is padded with `==` or `=` (its properties are the lemmas above) |
| Base64.Utf8 | src/lib/email.ts:22 | `Buffer.from(s)`: the UTF-8 bytes of the characters one after the other, one to four bytes per character |
| Sheets.ReadCell | src/functions/fillBlockList.ts:101-106 | a cell of a read row is the sheet's cell at that row and column, or empty beyond the range's width |
| Sheets.ReadCovers | src/functions/fillBlockList.ts:101-106 | a read reaches every non-empty cell within its range |
| Sheets.ReadRowsWithin | src/functions/fillBlockList.ts:101-106 | no read row is wider than the range |
| Sheets.ReadWithinRows | src/functions/fillBlockList.ts:178-183 | a read has no more rows than the sheet has up to its last non-empty row |
| Sheets.SetCellsCell | src/functions/fillBlockList.ts:155-162 | an update changes the cells of its range and no other cell |
| Sheets.WriteRowCell | src/functions/fillBlockList.ts:155-162 | writing values into a row from a column on changes exactly those cells, padding with empty cells |
| Sheets.AppendRowCell | src/functions/fillBlockList.ts:126-131 | an append fills the first row after the last non-empty one, and no other cell |
| Sheets.ApplyAllConcat | src/functions/fillBlockList.ts:190-251 | applying two runs of writes in turn is applying their concatenation |
| NoShows.PutGet | src/functions/fillBlockList.ts:74 | after `missed[email] = ...` the key reads the new names and every other key reads what it read before |
| NoShows.PutShape | src/functions/fillBlockList.ts:74 | the assignment keeps the keys in their order, and a new key goes last |
| NoShows.PutUnique | src/functions/fillBlockList.ts:74 | the assignment never duplicates a key |
| NoShows.NameIsLastAnswer | src/functions/fillBlockList.ts:66-72 | a name is the text of the last answer to its question, `""` for a missing answer |
| NoShows.NameUnanswered | src/functions/fillBlockList.ts:66-67 | a name whose question has no answer is `""` |
| NoShows.ReadNames | src/functions/fillBlockList.ts:66-72 | the `forEach` over the answers computes both names of the first position |
| NoShows.CollectHas | src/functions/fillBlockList.ts:57-76 | an e-mail is in the map exactly when it has a non-cancelled order with a position without check-ins |
| NoShows.CancelledNeverRecorded | src/functions/fillBlockList.ts:58 | an e-mail whose every order is cancelled never enters the map |
| NoShows.CollectLastWins | src/functions/fillBlockList.ts:74 | an e-mail with several recorded orders keeps the names of the last |
| NoShows.CollectUnique | src/functions/fillBlockList.ts:41-80 | the map holds each e-mail once |
| NoShows.Collect | src/functions/fillBlockList.ts:57-77 | the fold over the orders in order: a non-cancelled order with a position without check-ins puts its e-mail with its names, replacing an earlier entry for the same e-mail (its properties are the `Collect` lemmas) |
| NoShows.NotAllFetched | src/functions/fillBlockList.ts:51-53 | a failed page makes the scan throw |
| NoShows.CollectPage | src/functions/fillBlockList.ts:57-77 | the loop over one page extends the map of the orders seen by that page's orders |
| NoShows.GetNoShows | src/functions/fillBlockList.ts:36-83 | the page loop computes the fold over all pages in order, or throws when a page fails |
| NoShows.EventCellsOf | src/functions/fillBlockList.ts:97-99 | the slot holds the slug and today's date as given; the event name is `name.en` when set and non-empty, else the slug; the date is the part of `date_from` before the first `T` (all of it when there is none) |
| NoShows.FindRow | src/functions/fillBlockList.ts:110-112 | `findIndex` gives the first row whose first cell, normalised, is the lower-cased e-mail, and none when no row matches |
| NoShows.FreeSlotFrom | src/functions/fillBlockList.ts:137-142 | the search gives the first empty or absent cell among c, c+4, … below the bound, and none when all are filled |
| NoShows.FindFreeSlot | src/functions/fillBlockList.ts:136-142 | the `for ... break` loop finds the first free slot from column D |
| NoShows.SlotWithinRead | src/functions/fillBlockList.ts:137 | a slot found under the bound `data[3].length` is at most column X |
| NoShows.SlotWriteCells | src/functions/fillBlockList.ts:149-162 | for slots up to column W the range is valid, and the update writes exactly the four cells `c..c+3` of the matched row with `[slug, name, date, today]` |
| NoShows.SixthSlotRefused | src/functions/fillBlockList.ts:149-153 | at column X the range's last letter is not a column, so the API refuses it |
| NoShows.WriteEntry | src/functions/fillBlockList.ts:109-164 | one entry appends the 7-cell row, updates the free slot, skips, or throws |
| NoShows.EntryStep | src/functions/fillBlockList.ts:109-164 | one entry on the snapshot: append the 7-cell row when no row matches, fail on a snapshot of fewer than four rows, skip a row without a free slot, else update the slot, failing when the API refuses the range |
| NoShows.EntryStepWrites | src/functions/fillBlockList.ts:114-162 | an entry's write goes to the blocklist tab and is accepted, and it is an append exactly when no row matches the e-mail |
| NoShows.AddWritesFromEntries | src/functions/fillBlockList.ts:101-112 | every write comes from one entry, decided on the one snapshot read before the loop |
| NoShows.AddWritesStops | src/functions/fillBlockList.ts:109-165 | the run completes exactly when no entry throws |
| NoShows.AddWritesComplete | src/functions/fillBlockList.ts:109-165 | in a completed run every entry that writes has its write among the effects |
| NoShows.AddWritesTab | src/functions/fillBlockList.ts:126-162 | every write goes to the blocklist tab |
| NoShows.AddWritesStopped | src/functions/fillBlockList.ts:109-165 | the entries after one that throws write nothing |
| NoShows.AddWritesNext | src/functions/fillBlockList.ts:109-165 | each entry adds its write, skips, or stops the run |
| NoShows.AddNoShowToList | src/functions/fillBlockList.ts:88-166 | the loop over the entries computes their writes on one read of `A:Z` |
| NoShows.ProcessRow | src/functions/fillBlockList.ts:191-250 | one registry row: the checks, the event fetch, the no-show scan, the blocklist writes and the mark |
| NoShows.EventStep | src/functions/fillBlockList.ts:191-250 | one registry row: nothing when it is not due or its event is not fetched, a stop when a no-show page fails, else the blocklist writes and, when they all went through, the mark |
| NoShows.EventStepEnds | src/functions/fillBlockList.ts:191-248 | only a due row writes or stops the run, and a completed row that wrote ends with marking itself |
| NoShows.ProcessRows | src/functions/fillBlockList.ts:190-251 | the `for` loop from row index 6 computes the writes of every row, each on the blocklist as the earlier rows left it, and stops at a row that throws |
| NoShows.FillBlockList | src/functions/fillBlockList.ts:173-254 | the registry loop computes the writes of all rows from index 6 on, each on the blocklist as the earlier ones left it |
| NoShows.Reconcile | src/functions/fillBlockList.ts:178-251 | one read of the registry `A:E`; nothing for fewer than two rows, else the rows from index 6 on in order, each on the blocklist as the earlier ones left it, up to the first row that stops |
| NoShows.ReconcileStopped | src/functions/fillBlockList.ts:190-251 | after a row that throws, the later rows write nothing |
| NoShows.FewRowsNothing | src/functions/fillBlockList.ts:184-190 | a registry of at most six rows (so surely one of fewer than two) writes nothing |
| NoShows.EventStepInfoWrites | src/functions/fillBlockList.ts:242-248 | the only registry write of a row is marking that row, and only when it is due and its event was fetched |
| NoShows.ReconcileInfoWrites | src/functions/fillBlockList.ts:190-248 | every registry write marks a row at index 6 or later that was due and whose event was fetched |
| NoShows.ReconcileMarks | src/functions/fillBlockList.ts:233-248 | in a completed run every due row whose event was fetched is marked, with or without no-shows |
| NoShows.DueRead | src/functions/fillBlockList.ts:178-207 | the checks on a read row agree with the sheet's row, and a row beyond the read is never due |
| NoShows.MarkedIffRows | src/functions/fillBlockList.ts:190-248 | in a completed run over the rows read, row i is marked exactly when i ≥ 6, it is due and its event was fetched |
| NoShows.MarkedIff | src/functions/fillBlockList.ts:184-248 | in a completed run, row i is marked exactly when i ≥ 6, its slug is non-empty, its check cell lower-cased is "no", its end parses and is not after now, and its event was fetched |
| Approval.GetBlockList | src/handlers/handleApprovalRequested.ts:75-107 | the loop over the rows from row 5 builds the set of normalised e-mails of rows with a second event |
| Approval.CollectBlocked | src/handlers/handleApprovalRequested.ts:89-103 | the loop over the rows read adds each row's normalised e-mail when it has a first cell and a second event |
| Approval.BlockListOf | src/handlers/handleApprovalRequested.ts:75-107 | the set built from one read of `A5:Z`: the normalised first cell of every row read that has a first cell and a second event |
| Approval.BlockSetIff | src/handlers/handleApprovalRequested.ts:89-103 | an e-mail is in the set exactly when a row with a first cell and a non-blank cell at index 7 or more normalises to it |
| Approval.InBlocklistIff | src/handlers/handleApprovalRequested.ts:80-103 | an e-mail is blocked exactly when some sheet row at index 4 or below has it in column A and a non-blank cell in H:Z |
| Approval.NonCancelled | src/handlers/handleApprovalRequested.ts:54 | the orders kept are exactly the orders that are not cancelled |
| Approval.ActionsPerOrder | src/handlers/handleApprovalRequested.ts:52-65 | each non-cancelled order gets exactly one action, in order, for its own code, and it is a denial exactly when its normalised e-mail is blocked |
| Approval.ActionsConcat | src/handlers/handleApprovalRequested.ts:30-68 | the actions of consecutive orders are the concatenated actions |
| Approval.DecideAllFetched | src/handlers/handleApprovalRequested.ts:30-68 | with every page fetched, the actions are those of all orders in page order |
| Approval.Decide | src/handlers/handleApprovalRequested.ts:30-68 | the page loop: the actions of each page in turn; the run completes exactly when every page was fetched |
| Approval.DecideStopsAt | src/handlers/handleApprovalRequested.ts:39-41 | a failed page throws after the actions of the pages before it, and no later order is acted on |
| Approval.DecideStopped | src/handlers/handleApprovalRequested.ts:30-68 | once the run has thrown, later pages add nothing |
| Approval.DecidePage | src/handlers/handleApprovalRequested.ts:52-65 | the loop over one page's orders issues that page's actions |
| Approval.ValidatePendingOrders | src/handlers/handleApprovalRequested.ts:20-69 | the page loop computes the actions over all pages, and stops at a failed page |
| Approval.HandleApprovalRequested | src/handlers/handleApprovalRequested.ts:10-14 | the actions are decided against the blocklist read from the sheet |
| Registrar.RegularTickets | src/handlers/handleEventCreated.ts:41-43 | the filter keeps exactly the items named "Regular Ticket" in English or German |
| Registrar.IsEventFree | src/handlers/handleEventCreated.ts:17-64 | an event is free exactly when its items were fetched, one is a regular ticket, and every regular ticket's price is zero |
| Registrar.RegularAllFree | src/handlers/handleEventCreated.ts:51-53 | `every` over the filtered list is `every` over the regular items |
| Registrar.FlatMembers | src/handlers/handleEventCreated.ts:113 | a value is in the flattened column exactly when it is the one cell of some row |
| Registrar.SlugInRows | src/handlers/handleEventCreated.ts:112-114 | a slug is among the trimmed cells of the flattened column exactly when some one-cell row trims to it |
| Registrar.ListedIff | src/handlers/handleEventCreated.ts:107-115 | a slug is found exactly when some row's column A, trimmed, is the slug |
| Registrar.EndTime | src/handlers/handleEventCreated.ts:122-128 | the end is `date_to` when non-empty, else the start plus 24 hours, or none when the start is invalid |
| Registrar.EventRow | src/handlers/handleEventCreated.ts:131-137 | the row is `[slug, name.en \|\| name.de \|\| slug, date_from, end, "no"]` |
| Registrar.AppendedIff | src/handlers/handleEventCreated.ts:69-146 | a row is appended exactly when the event is free, its record was fetched, its slug is not listed and its end can be computed, and the row goes to the registry tab |
| Registrar.RegistrationIdempotent | src/handlers/handleEventCreated.ts:112-118 | after one registration, the same event is found in column A and nothing more is appended |
| Registrar.AppendKeepsRows | src/handlers/handleEventCreated.ts:140-145 | the append leaves every other row as it was |
| Registrar.HandleEventCreated | src/handlers/handleEventCreated.ts:69-146 | the handler's outcome: not free, event fetch failed, already listed, invalid start, or the append of the event's row; an append goes to the registry tab and only for a fetched event |
| Webhook.AuthenticatedIff | src/functions/webhook.ts:5-24 | a request gets past the check exactly when its header is "Basic " followed by a base 64 text that decodes to the UTF-8 bytes of `user:pass` |
| Webhook.UnauthorizedIff | src/functions/webhook.ts:13-24 | 401 exactly when the header is not the expected text, always without a header; otherwise 200 "ok", or a throw for a malformed body |
| Webhook.DefaultCredentials | src/functions/webhook.ts:8-11 | with neither variable set, the expected header is "Basic Og==" |
| Webhook.Handle | src/functions/webhook.ts:5-24 | the answer is 401, 200 "ok" or a throw, and 200 only for the expected header and a well-formed body |
| Email.Message | src/lib/email.ts:14-20 | the message is the three header lines, an empty line and the body, separated by line feeds |
| Email.HeaderNoBlank | src/lib/email.ts:14-20 | with a one-line recipient and subject, the header lines hold no empty line |
| Email.BodyAfterHeaders | src/lib/email.ts:14-20 | with a one-line recipient and subject, the header block has no empty line, so the first empty line separates it from the body |
| Email.ReplaceAll | src/lib/email.ts:24-25 | a global replace changes every occurrence of the character and nothing else |
| Email.StripTrailing | src/lib/email.ts:26 | removing a trailing run leaves a prefix that does not end in the character, and only that character was removed |
| Email.TranslateIsReplace | src/lib/email.ts:24-25 | the two global replacements are one character-by-character mapping into the URL-safe alphabet |
| Email.TranslateGroup | src/lib/email.ts:22-25 | the replacements turn the standard encoding of a full group of three bytes into its URL-safe encoding |
| Email.TranslateEncode | src/lib/email.ts:22-25 | the translated standard encoding is the unpadded URL-safe encoding followed by the padding |
| Email.EncodeRawIsUrlNoPad | src/lib/email.ts:22-26 | the `raw` value is the base64url encoding, without padding, of the message's UTF-8 bytes |
| Email.EncodeRawAlphabet | src/lib/email.ts:22-26 | the `raw` value holds no `+`, `/` or `=` |
| Email.EncodeRaw | src/lib/email.ts:22-26 | the `raw` value is no longer than the standard encoding and holds no `+` or `/` |
| Policy.AppendKeepsBlocklist | src/handlers/handleApprovalRequested.ts:95-98 | appending a row of at most seven cells changes nobody's blocklist membership |
| Policy.FirstNoShowDoesNotBlock | src/functions/fillBlockList.ts:114-131 | a first no-show appends only the new 7-cell row and leaves the blocklist, so every approval decision, as it was |
| Policy.SecondSlotIsH | src/functions/fillBlockList.ts:137-142 | with column D taken and H free, the search picks H |
| Policy.SecondNoShowWrite | src/functions/fillBlockList.ts:109-162 | on the rows read, a second no-show of an attendee with a first event in D:G is exactly one update of H:K in their row |
| Policy.SlotWriteBlocks | src/handlers/handleApprovalRequested.ts:89-101 | filling H:K of a listed row at row 5 or below puts that row's normalised e-mail on the blocklist |
| Policy.SecondNoShowBlocks | src/handlers/handleApprovalRequested.ts:95-101 | a second no-show writes the event into H:K of the attendee's row, after which their e-mail is blocked and their pending order is denied |

## Left out

- Network calls, API tokens and credentials are left out. This covers pretix, the Sheets client,
  GoogleAuth/JWT and the Gmail send call. API pages, event records and sheet contents are inputs.
  Writes and approve/deny requests are returned effects.
- The responses to approve and deny requests are not modelled. The source never inspects them.
- Sheet write failures are modelled only for the one the code itself causes: a range whose column
  letter is not A-Z. Quota errors and other API failures are not modelled.
- The blocklist tab's name is read from cell C2 by `getSheetName` (src/lib/sheets.ts). Here it is a
  fixed tab, distinct from "Info". src/lib/sheets.ts is not part of this model.
- Date handling is abstracted, because JavaScript `Date` parsing is not modelled: `new Date(s)` is a
  function to an optional millisecond count, and `toISOString` is a function to a text. `toISOString`
  of a valid start plus a day is assumed not to exceed the date range. The clock is one `now` for the
  whole registry loop, and one `today` text, although the source reads `new Date()` per row and per
  call.
- `parseFloat(p) === 0` is an abstract predicate on the price text, because it is floating point.
- `toLowerCase` is modelled for ASCII letters only. Unicode case mapping is not.
- UTF-8 encoding is modelled for Unicode scalar values. Lone surrogates, which `Buffer.from` replaces,
  are not modelled.
- JSON parsing and casting are not modelled. Each API record is the datatype its cast names. An event
  name is its `en` and `de` entries. A page's `checkins` is either a list (its length) or not a list.
- `Object.entries` lists the map's e-mails in insertion order. JavaScript lists integer-like keys
  first, which cannot be an e-mail holding `@`. That ordering is left out.
- Logging, the scheduled function's default export and its cron `config` are left out.
- src/functions/sheetsTest.ts and the scripts under scripts/ are manual drivers and are not part of
  this model.
- Sheets.AppendRow: the Sheets API's detection of a table inside the `A:K` or `A:E` range is not
  modelled. The model always appends after the last row that holds a non-empty cell, as if the
  tab's data formed one table starting at row 1.
- Overlapping invocations and concurrency are not modelled, since the code has no coordination.
- The webhook's header lookup is modelled as an optional header value. Netlify's lower-casing of header
  names is not modelled. The shown webhook does not dispatch on the payload's `action`, so no dispatch
  is modelled.
