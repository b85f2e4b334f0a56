# Lead upload, lead listing and referral helpers

A Dafny model of the lead-import core of an admin back end and of its
referral helpers.

**Upload.** `uploadLeads` takes an uploaded Excel workbook and works through these steps:

- It reads the first sheet's rows as objects keyed by the header row.
- It normalises each row's keys (lower case, trimmed) and its string values (trimmed).
- It checks each row in a fixed order: lead id, name, email, then email format.
- It skips rows whose id is already stored.
- It numbers each accepted lead with an `uploadSequence` after the largest one already stored.
- It writes the leads with an ordered batch insert. When the batch hits the unique `leadId` index, it retries the rest one lead at a time.
- It answers with a summary: counts, plus the first ten skipped and error messages.

**Listing.** `getLeads` pages through the leads in descending upload order.

**Referrals.** The referral helpers do four things:

- find the referrer for a code;
- recount a user's total and active referrals;
- activate a referred user's entry after a payment;
- generate a referral code, which is the upper-case hex text of six random bytes.

## Modules

The modules follow the program's structure:

| module | models |
|---|---|
| `JsValues` | JavaScript values the handler touches: truthiness, `||`, `String(x)`, ASCII `toLowerCase`/`toUpperCase`, `trim` over the ECMAScript white-space and line-terminator characters |
| `JsObject` | plain objects with insertion-ordered keys: the row objects |
| `SheetRows` | the row extraction from a decoded sheet (a nested-loop method) |
| `EmailPattern` | the email regular expression, with a plain characterisation proved equivalent to it |
| `LeadIngest` | key normalisation (a loop method), the checks for each row, and the row loop (a method) proved against a fold over per-row verdicts |
| `LeadStore` | the stored records: the `leadId` index, the largest sequence number, the ordered batch insert and the one-by-one retry (a method) |
| `LeadUpload` | the whole handler and its response |
| `LeadListing` | pagination |
| `Referrals` | a `User` class with the referral fields, updated in place by `UpdateReferralStats` and `ProcessReferralReward` |
| `ReferralCode` | the hex encoding of the code, with its decoder |

**Inputs.** The model takes these as parameters instead of computing them:

- The workbook arrives already decoded, as a sheet (a map from cell addresses to values, plus the sheet's range).
- `new Date(...)` is a parameter `parseDate`.
- The clock is a parameter `now`.
- The random bytes are the argument of `GenerateReferralCode`.
- The store's failures other than the unique index are a `Faults` value: a batch failure, whether the duplicate error reports the documents written, and which single `create` calls fail for another reason. A retried `create` whose id is already stored is always reported as the duplicate (code 11000), so these other failures apply only to leads with a new id.

### Behaviour of the code worth knowing

The model follows the code as written, including these cases that a reader of
the handler might not expect:

- **Repeated id within one upload.** The loop's duplicate check (lines 97-101) reads `existingLeadIds`, and the loop never adds to that set, so it does not catch a repeat within one upload. Two valid rows with the same new id are both queued, not skipped.
  - The ordered batch then stops at the second row at the latest.
  - The fallback reports a `Duplicate leadId` error.
  - `LeadIngest.RepeatedIdQueuedTwice` and `LeadUpload.RepeatedIdReported` state this.
- **Numeric lead id.** The stored ids are strings, and `Set.has` does not convert. So a lead id read as a number never counts as already stored. That row is queued, and the unique index rejects it later if the id exists. Take a first upload that meets no failure except the unique index. Uploading the same file again then inserts nothing and leaves the store as it is, whatever fails the second time. Each numeric-id row is queued again instead of skipped, and when the second upload's batch does not fail, each of them is reported as a `Duplicate leadId` error (`LeadUpload.ReuploadInsertsNothing`, `LeadUpload.ReuploadQueuesOnlyNumericIds`).
- **Duplicate error without `insertedDocs`.** If the duplicate error does not report the documents the batch wrote, the retry starts from the first lead again. The leads the batch had already written then come back as duplicate errors, and `uploaded` does not count them (`LeadStore.InsertedCount`).

## Model

| member | source | states |
|---|---|---|
| JsValues.NatToStringRoundTrip | src/controller/AdminController/leadController.js:114 | the decimal text `String(n)` gives a numeric lead id (as `leadId.toString()`, and a numeric header as a row key on line 32) reads back as the number |
| JsValues.LowerAt | src/controller/AdminController/leadController.js:60 | lower-casing keeps the length and maps each character on its own, leaving no upper-case letter |
| JsValues.TrimSpec | src/controller/AdminController/leadController.js:60-61 | `trim` keeps one slice of the input with no white space at either end, and everything it cuts is white space |
| JsObject.AssignLookup | src/controller/AdminController/leadController.js:32 | after `row[k] = v`, `k` reads `v` and every other key reads as before |
| JsObject.AssignKeys | src/controller/AdminController/leadController.js:32 | assignment keeps each existing key in its position; a new key goes last |
| JsObject.AssignValid | src/controller/AdminController/leadController.js:32 | assignment keeps an object well formed (each key listed once, exactly the stored keys) |
| SheetRows.CellValue | src/controller/AdminController/leadController.js:30 | a truthy cell gives its value; a missing or falsy cell gives `''` |
| SheetRows.ExtractRows | src/controller/AdminController/leadController.js:21-38 | the nested loops build exactly `Rows(sh)` |
| SheetRows.RowEmptyIff | src/controller/AdminController/leadController.js:31-35 | a row object is empty exactly when no header of the range is truthy, whatever the row's cells hold |
| SheetRows.RowKeyValue | src/controller/AdminController/leadController.js:27-33 | a truthy header maps to the cell below it (or `''`); among repeated headers the rightmost column wins |
| SheetRows.RowKeyAbsent | src/controller/AdminController/leadController.js:31-33 | a key that no truthy header yields is absent from the row |
| SheetRows.RowsShape | src/controller/AdminController/leadController.js:24-38 | with some truthy header, `data` is every sheet row below the header row, in order; without one it is empty |
| SheetRows.RowsValid | src/controller/AdminController/leadController.js:24-38 | every emitted row is a well-formed object |
| EmailPattern.IsEmailIffPattern | src/controller/AdminController/leadController.js:91-92 | `^[^\s@]+@[^\s@]+\.[^\s@]+$` accepts exactly the strings with no white space, exactly one `@`, text before it, and after it a `.` that is neither first nor last |
| EmailPattern.LowerKeepsEmail | src/controller/AdminController/leadController.js:92-116 | the lower-cased email stored for a lead still passes the check |
| EmailPattern.NumberIsNoEmail | src/controller/AdminController/leadController.js:92 | a numeric email cell never passes the check |
| LeadIngest.NormalizeRow | src/controller/AdminController/leadController.js:58-62 | the `forEach` over the keys builds exactly `Normalized(row)` |
| LeadIngest.NormalizedValid | src/controller/AdminController/leadController.js:58-62 | the normalised row is a well-formed object |
| LeadIngest.NormalizedLast | src/controller/AdminController/leadController.js:59-61 | when two keys normalise to the same key, the later one's value wins; a string value is trimmed |
| LeadIngest.NormalizedAbsent | src/controller/AdminController/leadController.js:59-61 | a key that no original key normalises to is absent |
| LeadIngest.NormKeyLowerCase | src/controller/AdminController/leadController.js:60 | a normalised key has no upper-case letter |
| LeadIngest.NoCamelCaseKey | src/controller/AdminController/leadController.js:60-65 | the `leadId` spelling on line 65 can never be found on a normalised row |
| LeadIngest.LeadIdOfCases | src/controller/AdminController/leadController.js:65 | the first truthy spelling of the id wins; if none is truthy, the last spelling is read |
| LeadIngest.NormalizedLeadId | src/controller/AdminController/leadController.js:65 | on a normalised row the resolved id is truthy or `undefined` |
| LeadIngest.ClassifyCases | src/controller/AdminController/leadController.js:65-101 | each verdict (blank, each error, already stored, accepted) holds exactly when the row's id, name and email satisfy its condition, with the row number `i + 2` in the message |
| LeadIngest.AcceptedShape | src/controller/AdminController/leadController.js:113-127 | an accepted row's record: non-empty id and name as text; the email lower-cased, still valid and free of upper-case letters; each single-spelling optional field (`phone`, `category`, `city`, `country`, `linkedin`, `instagram`) is the row's value when truthy and absent otherwise; each two-spelling field (address, Facebook, website, Google Maps) is the first truthy spelling or absent; `lastVerifiedAt` is `parseDate` of the first truthy date spelling, absent when neither is truthy |
| LeadIngest.HandleRow | src/controller/AdminController/leadController.js:65-129 | the loop body performs one `Step` of the row's verdict, and `currentSequence` stays `maxSequence + 1 + queued` |
| LeadIngest.ProcessRows | src/controller/AdminController/leadController.js:48-130 | the loop produces exactly the lists `Ingest` defines for the normalised rows |
| LeadIngest.TallyAccounting | src/controller/AdminController/leadController.js:54-130 | every row lands in exactly one place: queued, an error, skipped, or (if blank) nowhere |
| LeadIngest.RowsTo | src/controller/AdminController/leadController.js:54-130 | the rows sent to one list, in increasing order, are exactly those whose verdict sends them there |
| LeadIngest.TallyQueued | src/controller/AdminController/leadController.js:113-129 | the k-th queued lead has the fields of the k-th accepted row and sequence number `maxSequence + 1 + k` |
| LeadIngest.TallyErrors | src/controller/AdminController/leadController.js:75-95 | the k-th error is the message of the k-th rejected row |
| LeadIngest.TallySkipped | src/controller/AdminController/leadController.js:98-101 | the k-th skipped message is that of the k-th row whose id is stored |
| LeadIngest.IngestErrors | src/controller/AdminController/leadController.js:75-95 | the error list is the rejected rows' messages in row order, each naming a displayed row number that increases along the list |
| LeadIngest.IngestSkipped | src/controller/AdminController/leadController.js:98-101 | the skipped list is `Row n: Lead ID x already exists` for exactly the rows that pass the id, name and email checks and whose id is a stored string, in row order |
| LeadIngest.IngestQueued | src/controller/AdminController/leadController.js:104-129 | the queue is the shaped records of exactly the rows that pass every check, in row order, numbered from `maxSequence + 1` without gaps |
| LeadIngest.AcceptedWithFewerIds | src/controller/AdminController/leadController.js:98-101 | a row accepted against more stored ids is accepted, with the same fields, against fewer |
| LeadIngest.QueuedWithMoreIds | src/controller/AdminController/leadController.js:98-129 | against more stored ids the queue only loses leads: each lead queued then matches the fields of a lead queued before |
| LeadIngest.RepeatedIdQueuedTwice | src/controller/AdminController/leadController.js:98-101 | two valid rows with the same new id both reach the queue |
| LeadStore.IdsIff | src/controller/AdminController/leadController.js:45 | an id is in the set exactly when some stored record has it |
| LeadStore.UniqueIdsPairwise | src/controller/AdminController/leadController.js:138 | under the unique index no two stored records share a `leadId` |
| LeadStore.PairwiseUniqueIds | src/controller/AdminController/leadController.js:138 | conversely, records with pairwise distinct ids meet the unique index |
| LeadStore.MaxSequenceIsMax | src/controller/AdminController/leadController.js:46 | 0 for an empty store; otherwise the largest stored sequence number, a missing one read as 0 |
| LeadStore.WriteOrderedGrows | src/controller/AdminController/leadController.js:138 | the ordered batch only appends, at most one record per lead |
| LeadStore.WriteOrderedWrites | src/controller/AdminController/leadController.js:138 | the batch writes a prefix of itself in order, and the lead where it stops conflicts with the store |
| LeadStore.WriteOrderedUnique | src/controller/AdminController/leadController.js:138 | the batch keeps the unique index |
| LeadStore.StopsAtStored | src/controller/AdminController/leadController.js:138-142 | a lead whose id is stored stops the batch at or before it |
| LeadStore.StopsAtRepeat | src/controller/AdminController/leadController.js:138-142 | an id repeated in the batch stops it at or before the second occurrence |
| LeadStore.CreateStepShape | src/controller/AdminController/leadController.js:149-158 | one retried lead is either stored and counted, or adds one error |
| LeadStore.RetryAccounting | src/controller/AdminController/leadController.js:148-159 | each retried lead is counted or adds one error; the store grows by exactly the counted leads |
| LeadStore.RetryUnique | src/controller/AdminController/leadController.js:148-159 | the retry keeps the unique index |
| LeadStore.RetryComposes | src/controller/AdminController/leadController.js:148-159 | retrying two consecutive ranges equals retrying their union |
| LeadStore.RetryStartsWithDuplicate | src/controller/AdminController/leadController.js:150-154 | retrying the conflicting lead first reports it as `Duplicate leadId` |
| LeadStore.Retry | src/controller/AdminController/leadController.js:148-159 | the `for` loop computes exactly `RetryUpTo` over the remaining leads |
| LeadStore.InsertLeads | src/controller/AdminController/leadController.js:133-164 | the insert with its fallback computes exactly `InsertOutcome` |
| LeadStore.InsertAccounting | src/controller/AdminController/leadController.js:133-164 | an empty batch changes nothing; a non-duplicate failure adds one error and counts 0; otherwise every queued lead is counted or adds one error; the row errors stay in front |
| LeadStore.RetryAppendsAt | src/controller/AdminController/leadController.js:148-159 | the retry appends the records of leads at strictly increasing positions of its range, each with an id not stored before it |
| LeadStore.WriteOrderedAppends | src/controller/AdminController/leadController.js:138 | the ordered batch appends the leads at positions 0, 1, ... up to where it stops |
| LeadStore.InsertAppendsAt | src/controller/AdminController/leadController.js:133-164 | the insert appends the records of the batch's leads at strictly increasing positions, whatever fails |
| LeadStore.InsertAppends | src/controller/AdminController/leadController.js:133-164 | the insert only appends: every earlier record stays in place |
| LeadStore.IdsPrefix | src/controller/AdminController/leadController.js:45 | an id stored in a prefix of the store is stored in the store |
| LeadStore.RetryStoresAll | src/controller/AdminController/leadController.js:148-159 | without other failures, every lead the retry visits ends with its id stored |
| LeadStore.RetryAllDuplicates | src/controller/AdminController/leadController.js:148-159 | a retry of leads whose ids are all stored writes and counts nothing |
| LeadStore.RetryAllDuplicateErrors | src/controller/AdminController/leadController.js:150-154 | such a retry adds exactly one `Duplicate leadId` error per lead, in order |
| LeadStore.DuplicateErrorsAt | src/controller/AdminController/leadController.js:150-154 | the j-th of those errors names the j-th retried lead's id |
| LeadStore.InsertStoresAll | src/controller/AdminController/leadController.js:133-164 | without other failures, every lead of the batch has its id stored after the insert and its fallback |
| LeadStore.InsertAllStored | src/controller/AdminController/leadController.js:133-164 | a batch whose ids are all stored changes nothing and counts nothing, whatever else fails; without a batch failure each of its leads adds a `Duplicate leadId` error after the row errors, in order |
| LeadStore.InsertKeepsStore | src/controller/AdminController/leadController.js:133-164 | the insert keeps the unique index and keeps every earlier record in place |
| LeadStore.InsertedCount | src/controller/AdminController/leadController.js:139-151 | `uploaded` is the number of records written, except when `insertedDocs` is unreported: then the batch's own writes are not counted |
| LeadStore.DuplicateReported | src/controller/AdminController/leadController.js:142-154 | when the batch stops early, the first new error is a duplicate for the first retried lead, and not every queued lead is counted |
| LeadUpload.First10 | src/controller/AdminController/leadController.js:173-174 | `slice(0, 10)` keeps the first `min(n, 10)` elements in order |
| LeadUpload.RowsStored | src/controller/AdminController/leadController.js:24-38 | every extracted row has a value for each of its keys |
| LeadUpload.UploadLeads | src/controller/AdminController/leadController.js:5-176 | the handler's response and new store are exactly `Upload(...)`: a 400 answer with no change when there is no file |
| LeadUpload.UploadAccounting | src/controller/AdminController/leadController.js:166-176 | `totalProcessed` is the number of rows; `skipped` is the skipped list's length; `uploaded` and `errors` are the insert's counter and error-list length, the row errors first; `skippedDetails` and `errorDetails` are the first ten of each list; without a non-duplicate failure, `uploaded + errors` is the queued leads plus the row errors |
| LeadUpload.UploadSequences | src/controller/AdminController/leadController.js:44-51 | queued leads carry `maxSequence + 1, + 2, ...` in row order, and every stored sequence number is at most `maxSequence` |
| LeadUpload.UploadAppendsSequences | src/controller/AdminController/leadController.js:44-164 | whatever fails, every record the upload appends is a queued lead's, with an `uploadSequence` above every stored one, and the numbers rise strictly in append order |
| LeadUpload.UploadKeepsStore | src/controller/AdminController/leadController.js:133-164 | the upload keeps the unique index and only appends to the store |
| LeadUpload.ReuploadQueuedStored | src/controller/AdminController/leadController.js:44-164 | after an upload with no failure but the unique index, every lead the same sheet queues again has a stored id |
| LeadUpload.ReuploadInsertsNothing | src/controller/AdminController/leadController.js:44-176 | after a first upload with no failure but the unique index, uploading the same sheet again leaves the store unchanged with `uploaded` 0, whatever fails; without a batch failure each re-queued lead adds one `Duplicate leadId` error, in queue order |
| LeadUpload.ReuploadQueuesOnlyNumericIds | src/controller/AdminController/leadController.js:98-101 | on the second upload a valid row is queued again only when its id was read as a number |
| LeadUpload.RepeatedIdReported | src/controller/AdminController/leadController.js:98-154 | two valid rows with one new id lead to a `Duplicate leadId` error and `uploaded` below the queue's length |
| LeadListing.CeilDivIsCeiling | src/controller/AdminController/leadController.js:201 | `Math.ceil(total / limit)` is the least count of pages covering `total` |
| LeadListing.GetLeads | src/controller/AdminController/leadController.js:186-206 | a negative `skip` fails the query. Otherwise the page is the `limit` items from `skip`, `hasNext` holds exactly when items remain after it, `hasPrev` holds exactly for `page > 1`, `totalPages` is `ceil(total / limit)` (absent for a zero limit), and the page holds `min(|limit|, total - skip)` items (all the rest for a zero limit) |
| LeadListing.PagesShortOf | src/controller/AdminController/leadController.js:201-203 | `p` full pages stop short of `n` items exactly when `p` is below the page count |
| LeadListing.HasNextIffMorePages | src/controller/AdminController/leadController.js:201-203 | with a positive limit, `hasNext` holds exactly when `page < totalPages` |
| LeadListing.PageOfItem | src/controller/AdminController/leadController.js:187-193 | item `k` appears on page `k / limit + 1` at position `k % limit` |
| LeadListing.PageSorted | src/controller/AdminController/leadController.js:190-193 | a page of the descending order is itself in descending order |
| Referrals.FindReferrerSpec | src/utils/referralUtils.js:13-16 | `findOne` returns the first qualifying user, and returns none exactly when no user qualifies |
| Referrals.ValidateReferralCodeSpec | src/utils/referralUtils.js:10-19 | a falsy code gives null; otherwise the result has the upper-cased code and a subscription running at `now`, and is null exactly when no user qualifies |
| Referrals.ActiveSpec | src/utils/referralUtils.js:27 | the filter keeps exactly the active entries, so it is never longer than the list |
| Referrals.ActiveMultiset | src/utils/referralUtils.js:27 | the filter keeps each active entry as many times as the list holds it and drops every inactive one, so `activeReferrals` counts the active entries |
| Referrals.UpdateReferralStats | src/utils/referralUtils.js:22-33 | the counts become the list length and the number of active entries (at most the total); nothing else changes; a missing user changes nothing |
| Referrals.FirstMatchSpec | src/utils/referralUtils.js:42-46 | the positional operator picks the first entry for the referred user, if any |
| Referrals.ProcessReferralReward | src/utils/referralUtils.js:36-53 | the first entry for the referred user is activated, then the counts are recomputed from the new list |
| Referrals.RewardedEffect | src/utils/referralUtils.js:39-50 | only the first entry for the user changes, becoming active with status `active`; with no such entry nothing changes |
| Referrals.RewardedActiveDelta | src/utils/referralUtils.js:39-53 | the active count rises by one exactly when the activated entry was inactive |
| Referrals.ActiveUpdate | src/utils/referralUtils.js:27 | replacing one entry changes the active count by the difference in activity |
| Referrals.FirstMatchIs | src/utils/referralUtils.js:42-46 | an entry for the user with none before it is the one the positional operator picks |
| Referrals.RewardedIdempotent | src/utils/referralUtils.js:36-50 | processing the same reward twice gives the same list as once |
| ReferralCode.CodeShape | src/utils/referralUtils.js:4-7 | the code has two characters of `0-9A-F` per byte: twelve for six bytes |
| ReferralCode.HexShape | src/utils/referralUtils.js:6 | `toString('hex')` writes two lower-case hex digits per byte, high nibble first |
| ReferralCode.CodeRoundTrip | src/utils/referralUtils.js:6 | decoding the code gives back the bytes |
| ReferralCode.CodeCaseInsensitive | src/utils/referralUtils.js:6-14 | a generated code survives lower-casing and then the `toUpperCase` applied during validation |

## Left out

- The `.xlsx` decoding (`xlsx.read`, `decode_range`, `encode_cell`) is the library's. The model starts from the decoded first sheet's cells and range.
- `new Date(dateStr)` is the runtime's date parser, passed in as `parseDate`. Dates are integers.
- `new Date()` in `validateReferralCode` is the parameter `now`.
- `crypto.randomBytes(6)` is randomness, so the bytes are the argument of `ReferralCode.GenerateReferralCode`.
- The database:
  - The store is a sequence of records holding only `leadId` and `uploadSequence`.
  - Failures other than the unique index are given up front as `Faults`.
  - A non-duplicate batch failure is taken to write nothing; partial writes on such failures are not modelled.
  - The error texts of the store (`error.message`, `singleError.message`) are strings inside `Faults`.
  - The skip and error messages of the row loop and of the insert are structured `Message` values carrying the row number and the id. The wording of their template strings is not modelled.
- `LeadListing.GetLeads`: the collection's sort is an input, `sorted`, the leads in the order the query returns them. The `createdAt` tie-break and the separate `countDocuments` call, which is assumed to agree with it, are not modelled.
- `LeadListing.GetLeads`: query values are taken as integers. JavaScript's strings-as-numbers arithmetic, fractional or non-numeric `page`/`limit`, and `NaN` are not modelled.
- The outer `try`/`catch` answering 500, the one in `processReferralReward`, and the `console` logs are not modelled. The response's `message` string only repeats `uploaded`, so it is not modelled either.
- Concurrency is out of scope: two uploads reading the same `maxSequence` are not modelled.
- JavaScript details outside the model:
  - `Object.keys` puts integer-like keys first.
  - `toLowerCase`/`toUpperCase` are modelled on ASCII letters only; other letters keep their case. `trim` and the pattern's `\s` use the full ECMAScript white-space and line-terminator set.
  - Numbers are integers (no floating point, no booleans or dates as cell values).
  - The `__proto__` key.
  - `Math.max(...)` meeting the argument-count limit on very large collections.
- `Referrals.UpdateReferralStats`: the unused `isActive` argument is left out. `findById` and `save` are the caller's: the method receives the found user or null. `ProcessReferralReward` receives the referrer found by its id.
- The `User` and `Lead` schema files are not part of this model. Only the fields the core reads or writes are modelled.
- LeadStore.CreateStep: it tests for a stored id before it looks at the other failures, so a retried lead whose id is already stored never gets another error. `Lead.create` runs schema validation before the write, so in the code such a lead could fail with an error other than 11000. The duplicate-kind conclusions (`RetryStartsWithDuplicate`, `DuplicateReported`, `InsertAllStored`, `RetryAllDuplicateErrors`, `ReuploadInsertsNothing`, `RepeatedIdReported`) rest on this order. The counts do not, because both kinds add one error and write nothing.
- The stored `leadId` is taken to be a string: the handler writes `leadId.toString()` (line 114), and the `Lead` schema that would fix the type is not part of this model. The numeric-id behaviour above rests on this.
- These are not part of this model:
  - `getLead`, `updateLead` and `deleteLead` in the same controller;
  - the referral controller and the routes;
  - `compose.js` and the `EmailFeedback` model.
