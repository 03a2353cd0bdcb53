# bank_dash repositories: a Dafny model

This project models the two MongoDB repositories of the bank_dash service. Each
collection becomes an in-memory table: a `seq` of records in insertion order,
held in a field of a class. Each repository method becomes a method over that
table whose contract states exactly what the call returns and what the table
holds afterwards.

- **Chat repository** (`chat_repository.dfy`, with the query semantics in
  `chat_store.dfy` and the record shapes in `chat_domain.dfy`). `StoreMessage`
  inserts a message under its own `_id` and reads it back as a
  `(message, response)` pair. `DeleteChatMessage(id, limit)` is the retention
  sweep:
  - it counts the user's messages and, when the count is not below `limit`,
    collects the ids of the oldest `count - limit` messages (a Find sorted by
    ascending `timeStamp` with `SetLimit(count - limit)`);
  - it then deletes them one at a time, in that order, and stops at the first
    delete that fails;
  - `GetMessage` runs the sweep with `Limit = 10`, ignores its outcome, and
    lists the user's remaining messages in table order.
- **Bank repository** (`bank_repository.dfy`). It provides lookups by `_id`
  and by name, and a `$set` of all six request fields. That update reports
  "no matched docs" when nothing has the id and "no modified docs" when the
  record already holds every value. It also provides a delete that succeeds
  whether or not the id exists, a create guarded by a name pre-check, and
  paged listing with `skip = (page - 1) * size` plus the unpaginated total.
- **Object ids** (`object_ids.dfy`). `primitive.ObjectIDFromHex` accepts
  exactly 24 hexadecimal digits (`ValidObjectIdHex`). Every id-taking method
  fails on any other string before it touches the table.
- `outcomes.dfy` holds `Option`, `Result`, the success/failure `Outcome` and
  the error kinds the repositories return.

**The count == limit boundary.** When the user's count equals `limit`, the
sweep's Find gets `SetLimit(0)`. The Go driver reads a limit of 0 as "no
limit", so the sweep deletes every one of the user's messages. The model keeps
this behaviour: `Taken(len, 0) == len`.
- `ChatStore.SweepAtLimitClearsUser` proves that after a successful sweep at
  count == limit the user has no messages left.
- `Chat.TenthMessageEmptiesHistory` proves the caller's view of it, stated
  over the sweep specification `ChatStore.Sweep` with the limit 10: once a
  user's tenth message is stored, a history read whose sweep reports success
  deletes all ten, so the history is empty.
- A count strictly below `limit` always leaves the table alone
  (`ChatStore.SweepBelowLimitIsNoOp`). A count equal to `limit` is not a
  no-op: a successful sweep deletes every one of the user's messages
  (`ChatStore.SweepAtLimitClearsUser`). When the sweep reports success, a
  count above a non-negative `limit` leaves exactly `limit` messages, and a
  negative `limit` leaves none (`ChatStore.SweepRemainingCount`).

**How store failures are modelled.** Two store failures are kept.
- An `InsertOne` whose `_id` is already taken fails with `DuplicateKey`, in
  `StoreMessage` and in `PostBank`, and changes nothing.
- A failing `DeleteOne` inside the sweep is the parameter `deleteFailsAt`: the
  position, in the collected list, of the first delete that reports an error.
  A position past the end of the list means every delete succeeds. The failing
  delete is taken to have removed nothing.

The `_id` the store assigns to a new bank record is the parameter
`assignedId` of `PostBank`.

**Invariant.** The table's `_id`s are unique (the collection's unique `_id`
index). It is each class's `Valid()` and every method preserves it. An insert
whose `_id` is taken fails with `DuplicateKey`.

## Model

| member | source | states |
|---|---|---|
| ObjectIds.ParseObjectId | internal/repository/chat_repository.go:78-81 | parsing succeeds exactly on the strings of `ValidObjectIdHex` (24 hexadecimal digits, either case), and byte `k` of the id is the value of hex digits `2k` and `2k+1` |
| ObjectIds.ObjectIdHex | internal/repository/bank_repository.go:31-34 | every id has a 24-digit hex spelling that parses back to that id (the inverse of parsing) |
| ObjectIds.EncodeHex | internal/repository/bank_repository.go:31-34 | hex encoding doubles the length, uses only hex digits, and decodes back to the bytes |
| ObjectIds.DecodeHex | internal/repository/bank_repository.go:31-34 | decoding halves the length, and each byte is 16 times its high digit plus its low digit |
| ChatStore.FindById | internal/repository/chat_repository.go:40 | the `_id` lookup finds a record in the table carrying the id, and finds none exactly when no record carries it |
| ChatStore.ForUser | internal/repository/chat_repository.go:58 | the `_userId` filter keeps exactly the table's records of that user |
| ChatStore.OtherUsers | internal/repository/chat_repository.go:92 | the records of every other user are exactly those whose `_userId` differs |
| ChatStore.ForUserConcat | internal/repository/chat_repository.go:58 | the `_userId` filter keeps table order: the filter of two stretches of the table is the filter of the first followed by the filter of the second |
| ChatStore.ForUserAppend | internal/repository/chat_repository.go:34 | appending a record adds it at the end of its own user's filter and leaves other users' filters unchanged |
| ChatStore.UniqueIdsAppend | internal/repository/chat_repository.go:34 | inserting a record whose `_id` is free keeps the ids unique |
| ChatStore.DeleteOneEffect | internal/repository/chat_repository.go:108 | `DeleteOne` by `_id` leaves the table as it was when no record carries the id, and removes exactly one record otherwise; under unique ids the result is exactly the table without the record carrying the id, the rest in table order (`KeepUnless(rows, [id])`) |
| ChatStore.KeepUnless | internal/repository/chat_repository.go:107-112 | the records that survive deleting a list of ids are exactly those whose id is not in the list |
| ChatStore.DeleteEachUnique | internal/repository/chat_repository.go:107-112 | with unique `_id`s, `DeleteEach` (one `DeleteOne` per id, in order) keeps exactly the records whose id is not listed, and the ids stay unique |
| ChatStore.KeepUnlessCount | internal/repository/chat_repository.go:107-112 | deleting `n` distinct ids that are all present removes exactly `n` records |
| ChatStore.SortByTimeStampCorrect | internal/repository/chat_repository.go:91 | the ascending `timeStamp` sort `SortByTimeStamp` is ordered by `<=` and is a permutation of its input |
| ChatStore.TakenCutsShort | internal/repository/chat_repository.go:91 | `SetLimit(limit)` over `len` candidates returns fewer than all of them exactly when `0 < limit < len`, and then exactly `limit`; a limit of 0 means no limit |
| ChatStore.VictimsOfUser | internal/repository/chat_repository.go:91-105 | the collected list `Victims` holds as many ids as `SetLimit(count - limit)` lets through, each the id of one of the user's records |
| ChatStore.SweepStatus | internal/repository/chat_repository.go:76-115 | the sweep specification `Sweep` fails with InvalidObjectId exactly on a malformed id, and with StoreFailure exactly when the count has reached the limit and a collected id's delete fails; otherwise it succeeds |
| ChatStore.SweepRemovesOldestPrefix | internal/repository/chat_repository.go:87-112 | every sweep removes a prefix of the user's records taken oldest first, nothing else, and keeps ids unique |
| ChatStore.SweepRejectsMalformedId | internal/repository/chat_repository.go:78-81 | a malformed user id fails with the table unchanged |
| ChatStore.SweepBelowLimitIsNoOp | internal/repository/chat_repository.go:83-89 | a count strictly below `limit` succeeds with the table unchanged |
| ChatStore.SweepRemainingCount | internal/repository/chat_repository.go:87-112 | a successful sweep leaves `count` below the limit, 0 when count == limit or limit < 0, and `limit` above it; a sweep stopped at delete `f` leaves `count - f` |
| ChatStore.SweepAtLimitClearsUser | internal/repository/chat_repository.go:87-91 | at count == limit a successful sweep deletes all the user's messages (`SetLimit(0)` means no limit) and no other user's |
| ChatStore.SweepKeepsOtherUsers | internal/repository/chat_repository.go:83-92 | the sweep never changes the records of another user |
| ChatStore.SweepOldestFirst | internal/repository/chat_repository.go:91 | every evicted message has a `timeStamp` `<=` every surviving message of the same user |
| ChatStore.SweepDeletesInOrder | internal/repository/chat_repository.go:97-112 | the collected ids are distinct; the sweep fails exactly when a delete fails; collected id `j` is gone afterwards exactly when `j` precedes the failing delete |
| Chat.ChatRepository.constructor | internal/repository/chat_repository.go:24-29 | a repository over a table with unique ids |
| Chat.ChatRepository.StoreMessage | internal/repository/chat_repository.go:32-46 | appends exactly the given record and returns its (message, response) pair; a taken `_id` fails with the table unchanged |
| Chat.ChatRepository.DeleteChatMessage | internal/repository/chat_repository.go:76-115 | returns the status and leaves the table that the specification `Sweep` defines for the old table, and keeps ids unique; `Sweep` follows the source's branches, deleting the collected ids with `DeleteEach` |
| Chat.ChatRepository.CollectIds | internal/repository/chat_repository.go:97-105 | the collect loop returns the `_id` of every record of the cursor, one per record, in cursor order |
| Chat.ChatRepository.DeleteInOrder | internal/repository/chat_repository.go:107-112 | deletes the ids in order; it fails at the failing delete with the earlier deletions done, and succeeds with all of them done otherwise |
| Chat.ChatRepository.GetMessage | internal/repository/chat_repository.go:49-73 | runs the sweep with limit 10 whatever its outcome, then fails on a malformed id or returns the (message, response) of exactly the user's remaining records in table order |
| Chat.HistoryWithinLimit | internal/repository/chat_repository.go:50 | after a successful sweep the history holds at most 10 messages |
| Chat.StoredMessageInHistory | internal/repository/chat_repository.go:34-50 | a stored message appears last in the next history when the user then has fewer than 10 messages |
| Chat.TenthMessageEmptiesHistory | internal/repository/chat_repository.go:50-91 | over the sweep specification with the limit 10: when a user with nine messages gets a tenth and the sweep then reports success, the user has no messages left |
| Bank.FirstMatch | internal/repository/bank_repository.go:36 | FindOne finds the first record the filter matches, or reports that no record matches; `IndexOfId` and `IndexOfName` are its `_id` and `name` filters |
| Bank.FirstMatchAt | internal/repository/bank_repository.go:72 | a matching record with no earlier match is the one FindOne returns |
| Bank.Updated | internal/repository/bank_repository.go:46-53 | the `$set` of the six request values keeps the record's id and leaves it holding every request value, empty ones included |
| Bank.SetModifiesNothing | internal/repository/bank_repository.go:67-69 | the `$set` leaves the record unchanged exactly when it already holds every request value (`HoldsRequest`), the "no modified docs" case |
| Bank.RemoveAtKeepsOthers | internal/repository/bank_repository.go:86 | removing the record with an id keeps exactly the records with another id, and keeps ids unique |
| Bank.EveryRecordOnOnePage | internal/repository/bank_repository.go:128-129 | for `size >= 1`, record `i` is in page `page`'s window exactly when `page == i / size + 1`, so pages tile the table |
| Bank.BankRepository.constructor | internal/repository/bank_repository.go:21-26 | a repository over a table with unique ids |
| Bank.BankRepository.GetBankById | internal/repository/bank_repository.go:29-41 | a malformed id fails before the lookup; otherwise the result carries the parsed id, and NoDocuments means no record carries it |
| Bank.BankRepository.UpdateBank | internal/repository/bank_repository.go:44-77 | malformed id, no match and no modification fail with the table unchanged; on success only the matched record changes, its id is kept, all six fields equal the request, and the returned value is the stored record that GetBankById now returns |
| Bank.BankRepository.DeleteBank | internal/repository/bank_repository.go:80-88 | a malformed id fails; otherwise it succeeds whether or not the id is present, removes exactly the record with that id, and GetBankById then finds nothing |
| Bank.BankRepository.PostBank | internal/repository/bank_repository.go:91-110 | an existing name fails with the table unchanged; otherwise it appends exactly one record under the assigned id and returns it, and GetBankById then finds that record |
| Bank.BankRepository.SearchByName | internal/repository/bank_repository.go:113-121 | the result has exactly the searched name; NoDocuments means no record has it |
| Bank.BankRepository.GetBanks | internal/repository/bank_repository.go:124-149 | for `page, size >= 1`, returns the table slice from `(page - 1) * size` of length `min(size, n - skip)` (empty past the end) in table order, the total `n`, and leaves the table unchanged |

## Left out

- The MongoDB driver, the `package/mongo` wrapper and `context` cancellation are I/O and libraries. The in-memory table stands in for them.
- BSON encoding and decoding and decode errors inside cursor loops are not modelled. Neither are store errors from `Find`, `FindOne`, `CountDocuments`, `UpdateOne` and the bank `DeleteOne`, nor any `InsertOne` error other than a duplicate `_id`. The modelled store failures are the duplicate `_id` on insert and a failing `DeleteOne` in the chat sweep, through `deleteFailsAt`.
- ChatStore.Sweep: a `DeleteOne` that reports an error is taken to have deleted nothing. A driver error can arrive after the server has already removed the document, for example after a network or write-concern failure. The source promises only that the loop stops. So the claims of `ChatStore.SweepDeletesInOrder`, `ChatStore.SweepRemainingCount` and `Chat.ChatRepository.DeleteInOrder` that the record at the failing position is still present rest on that assumption.
- Chat.ChatRepository.StoreMessage: the read-back `FindOne` is modelled as always finding the inserted record; a failure of that read is a store error and is left out.
- Bank.BankRepository.UpdateBank: the `FindOne` after a successful update always finds the record in the model. The source's empty record returned when that read fails is left out.
- Bank.BankRepository.PostBank: the name pre-check treats any FindOne error as "no such name". Only "no document" is modelled. The race between the pre-check and the insert is concurrency and is left out.
- Bank.BankRepository.PostBank: the `_id` the store generates is the parameter `assignedId`. The `BankService` type comes from `internal/domain/bank_domain.go`, which is not part of this model, so whether the stored record keeps an id set by the caller is not modelled.
- Bank.BankRepository.GetBanks: requires `page >= 1` and `size >= 1`. A negative skip, which the server rejects, and `size == 0`, which becomes `SetLimit(0)` and so returns everything from the skip on, are not modelled. The 64-bit overflow of `(page - 1) * size` is not modelled either.
- Chat.ChatRepository.DeleteChatMessage: `count - limit` is computed on unbounded integers. Its `int64` overflow for extreme negative limits is not modelled.
- Timestamps are integers, not `time.Time`. The store's order among equal timestamps is unspecified, so the model sorts stably and every ordering property is stated only with `<=`.
- Bank.BankRepository.SearchByName and Bank.BankRepository.GetBankById return the first match in table order. The contract promises only some record that matches, as the store does.
- The `ChatRepository` interface in `internal/domain/chat_domain.go:35-39` does not match the implementation's signatures. The concrete methods are modelled instead.
- The collection-name constants and the constructors' `collection` string are configuration only.
- The field types of `BankService` and `BankRequest` (in particular `numberOfUsers`, modelled as `int`) follow the JSON names used by `UpdateBank`, because `internal/domain/bank_domain.go` is not part of this model.
