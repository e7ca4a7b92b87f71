# Device repository and service — a Dafny model

This project models the core of a small CRUD backend for a single "device" resource, with proofs. It covers three parts:

- The **repository** (`daos/device.go`): Get, Create, partial Update, Delete, List and Find over a relational store, plus the handle swapping behind its transactions.
- The **service** (`service/device.go`): input validation, page-to-limit/offset arithmetic, record conversion, and the mapping of repository outcomes onto a closed set of error codes.
- The **device record** (`model/device/device.go`): the `Device` row, the `UUID` string type, and the `mapKey` tags that decide which fields a partial update writes.

The relational engine is replaced by an abstract store: the stored rows as a `seq<Device>` in insertion order. Each operation is a pure function that takes those rows and returns its answer together with the rows afterwards. The following are inputs rather than effects:

- the clock reading `now`;
- the fresh identity of a registration;
- whether the engine fails a statement (`fault`);
- identity validity (`validUuid`, standing for "`uuid.FromStringOrNil` does not return `uuid.Nil`").

Files:

- `common.dfy`: `Option`, `Result` and Go's `int64` range.
- `device_model.dfy`, module `DeviceModel`:
  - the record and its field table;
  - the `mapKey` and column tags;
  - the sparse update map, built by visiting the fields in declaration order.
- `store.dfy`, module `Store`: what the repository relies on from the engine.
  - `UPDATE … SET <map>` on one row (`Apply`);
  - filter-by-example (`Matches`, `Select`);
  - affected-row counts (`Count`);
  - `LIMIT`/`OFFSET` (`Window`);
  - the primary-key constraint (`UniqueIds`).
- `device_repo.dfy`, module `DeviceRepo`:
  - the repository operations;
  - the `Repo` class with its `copy` and `db` handle fields;
  - a value-level replay of sequences of repository calls.
- `service_device.dfy`, module `DeviceService`: the service operations and `ErrorCode`.
- `scenarios.dfy`, module `Scenarios`: concrete outcomes stated over the model. Most are the outcomes the repository and service test tables pin down; `ServiceUpdateIdOnly` and `ServiceDeleteUnknown` are cases the service code decides and its tests do not exercise.

Two points where a reading of the system's intent and its code part ways; the model follows the code:

- **Limit 0.** A zero limit could be read as "no limit". The repository test "no data" (`daos/device_test.go:375-379`) expects an empty result for `Limit: 0`. The model follows that test: limit 0 returns nothing, and a negative limit or offset adds no clause. How SQLite treats a negative limit is listed under "Left out". As a consequence, the service `Find` without a page request always answers `SuccessButNotFound` (`DeviceService.FindWithoutPage`).
- **Register timestamps.** `Register` sets `CreateTime = UpdateTime = now` on its input before creating the device. As written, the stored modification time is 0 (see Findings).

## Model

| member | source | states |
|---|---|---|
| DeviceModel.UUID.String | model/device/device.go:9-11 | the string of a UUID wraps back to the same UUID: it is the underlying string, unchanged |
| DeviceModel.KeyNames | model/device/device.go:14-19 | the `mapKey` tags name four distinct keys (`model`, `color`, `version`, `update_time`), and each equals the field's gorm column name |
| DeviceModel.SparseMap | model/device/device.go:14-19 | visiting fields in order: a tagged key is in the map exactly when its field was visited and is included (not `ignore`, and not `omitempty` with a zero value), and it holds that field's value |
| DeviceModel.UpdateMap | model/device/device.go:14-19 | the update map of a patch never holds `id` or `create_time`; it always holds `update_time` with the patch's value, even when 0; it holds each of `model`, `color`, `version` iff that field is non-empty, with its value |
| Store.Apply | daos/device.go:59 | on one row, `UPDATE … SET m` gives each column named in `m` the map's value and leaves every other column as it was |
| Store.Select | daos/device.go:85 | a selected row is exactly a stored row that passes the test; the selection has as many rows as pass the test, and is a subsequence of the table, so it keeps stored order |
| Store.SelectAppend | daos/device.go:85 | selecting from two tables laid end to end is selecting from each and laying the results end to end: stored order is kept |
| Store.SelectOne | daos/device.go:85 | a one-row table selects that row exactly when it passes the test |
| Store.SelectAll | daos/device_test.go:316-330 | when every row passes, the selection is the whole table in stored order |
| Store.Count | daos/device.go:64 | the affected-row count is at most the table size, and it is 0 iff no row passes the test |
| Store.SelectComplement | daos/device.go:73-81 | the rows kept plus the rows counted by the complementary test make up the whole table |
| Store.Window | daos/device.go:94 | `LIMIT l OFFSET o`, where a negative bound adds no clause: with `o' = max(0, o)`, row `i` of the result is row `o' + i` of the input; the result holds `max(0, n - o')` rows when `l < 0` and `min(l, max(0, n - o'))` otherwise; with neither bound it returns the whole input |
| DeviceRepo.Get | daos/device.go:19-28 | a storage failure is an error; no row with the id is `RecordNotFound` and no device; otherwise the result is a stored row with that id |
| DeviceRepo.GetStored | daos/device.go:22-27 | under the primary-key constraint, Get of a stored row's id returns exactly that row |
| DeviceRepo.Create | daos/device.go:30-40 | on success the result is the input with `CreateTime = now`, appended to the store; a failure or a repeated id inserts nothing; the primary-key constraint is preserved |
| DeviceRepo.CreateThenGet | daos/device.go:19-40 | a consequence within the model of Create and Get together: a created device is found again by Get, with its creation time stamped |
| DeviceRepo.ApplyUpdateMap | daos/device.go:55-59 | writing a patch's update map into a row keeps id and creation time, replaces each text field only by a non-empty patch value, and sets the modification time from the patch |
| DeviceRepo.Update | daos/device.go:42-71 | nil patch: `(nil, 0, nil)`, nothing written; id-only patch (both timestamps zero too): `(nil, 0, nil)`, nothing written; otherwise the caller's patch gets `UpdateTime = now`; storage error: `(nil, 0, err)`, nothing written; success: affected = number of rows with the id, those rows patched field by field, all others untouched |
| DeviceRepo.UpdateKeepsIdentity | model/device/device.go:14-18 | no update changes any row's id or creation time, nor the table size, and the primary-key constraint still holds afterwards |
| DeviceRepo.UpdateFullPatch | daos/device_test.go:227-234 | a patch that sets every text field and carries the stored creation time leaves the stored row equal to the caller's stamped patch |
| DeviceRepo.UpdateStampsMatches | daos/device.go:55-64 | a non-empty patch for a stored id stamps that row with `now` and reports at least one affected row |
| DeviceRepo.Delete | daos/device.go:73-81 | a storage error reports 0 rows and removes nothing; otherwise it reports the number of rows with the id, removes exactly those rows, keeps the others in stored order, and zero rows is not an error |
| DeviceRepo.DeleteAppend | daos/device.go:73-81 | deleting from two tables laid end to end deletes from each part and keeps the parts in order |
| DeviceRepo.CountUniqueId | model/device/device.go:14 | under the primary-key constraint at most one row has a given id, so a delete affects at most one row |
| DeviceRepo.List | daos/device.go:83-90 | a storage failure is an error; otherwise the result is exactly the stored rows that match the filter by example, as many as match, in stored order |
| DeviceRepo.ListAppend | daos/device.go:83-90 | storing one more row extends the listing by that row, at the end, exactly when it matches the filter |
| DeviceRepo.ListAll | daos/device_test.go:316-330 | the all-zero filter constrains nothing: List returns the whole table in insertion order |
| DeviceRepo.Find | daos/device.go:92-99 | a storage failure is an error; otherwise, with `o' = max(0, offset)`, row `i` of the result is row `o' + i` of the List result, and the result holds `max(0, n - o')` rows for a negative limit and `min(limit, max(0, n - o'))` otherwise; with neither bound it equals List |
| DeviceRepo.FindPastEnd | daos/device.go:94 | an offset at or past the number of matches yields an empty result, not an error |
| DeviceRepo.NewRepoRestores | daos/device.go:105-124 | whatever sequence of calls a freshly built repository receives, it keeps the handle it was built with as `copy`; if the last call is a commit or rollback it runs on that handle again; interface operations alone leave it as built |
| DeviceRepo.Repo.NewTransactions | daos/device.go:105-107 | the active handle becomes a transaction begun on the previous active handle, which is `Step` for a NewTransactions call |
| DeviceRepo.Repo.TransactionsRollback | daos/device.go:109-112 | after a rollback the active handle is `copy`, which is `Step` for a rollback call |
| DeviceRepo.Repo.TransactionsCommit | daos/device.go:114-117 | after a commit the active handle is `copy`, which is `Step` for a commit call |
| DeviceRepo.Run | daos/device.go:105-117 | over any call sequence `copy` never changes; a sequence ending in a commit or rollback ends on `copy`; a sequence made only of Repository-interface operations leaves both handles unchanged |
| DeviceRepo.NestedThenRestore | daos/device.go:105-117 | k NewTransactions calls nest the active handle k levels deep, and one commit or rollback then restores the original handle, whatever k is |
| DeviceService.AssembleRepoType | service/device.go:22-38 | converting a service device to a record and back keeps id, model, color and version and zeroes both timestamps |
| DeviceService.RepoTypeAssemble | service/device.go:22-38 | converting a record to a service device and back loses only its two timestamps |
| DeviceService.Find | service/device.go:44-72 | nil filter: `(nil, BadRequest)`; repository error: `(nil, DeviceDBFindFail)`; empty page: `(nil, SuccessButNotFound)`; otherwise `Success` with the rows converted one-to-one, in order |
| DeviceService.FindWindow | service/device.go:55-71 | with offset `o >= 0` and limit `l >= 1`: "found nothing" iff `o` is at or past the number `m` of matches; otherwise `Success` with exactly `min(l, m - o)` devices, converted from the matches at positions `o` onward, in order |
| DeviceService.FindPage | service/device.go:49-53 | page k of size n is "found nothing" iff `n*(k-1)` is at or past the number `m` of matches; otherwise `Success` with exactly `min(n, m - n*(k-1))` devices, the matches from position `n*(k-1)` on, in stored order |
| DeviceService.FindPageZero | service/device.go:49-53 | page 0 of size n asks for offset `-n`, which adds no clause, so it answers the same as page 1 |
| DeviceService.FindWithoutPage | service/device.go:49-53 | with no page request the limit is 0, so Find answers `SuccessButNotFound` whatever is stored |
| DeviceService.Register | service/device.go:74-91 | nil: `BadRequest`; storage failure or taken id: `DeviceDBCreateFail`, nothing stored; otherwise `Success`, storing and returning the fresh id with the input's text fields, `CreateTime = now` and `UpdateTime = 0` |
| DeviceService.RegisterLosesUpdateTime | service/device.go:79-83 | as written, a registered device reports modification time 0, so its two timestamps differ whenever `now` is not 0 |
| DeviceService.RegisterCorrected | service/device.go:74-91 | registration with the service's timestamps carried through: the device is stored and returned with `CreateTime == UpdateTime == now`; same error cases as Register |
| DeviceService.Update | service/device.go:93-105 | invalid id: `(0, ParseUUIDFail)` and no write; no text field set: `(0, Success)` and no write, even with timestamps; storage error: `(0, DeviceDBUpdateFail)`; otherwise `Success`, affected = rows with the id (possibly 0), those rows patched and stamped with `now` |
| DeviceService.Delete | service/device.go:107-123 | invalid id: `ParseUUIDFail`; storage error: `DeviceDBDeleteFail`; otherwise `SuccessButNotFound` iff no row had the id, `Success` otherwise, and exactly the rows with that id are removed, the others kept in stored order |
| Scenarios.GetCases | daos/device_test.go:81-134 | Get on an empty table is "record not found"; Get of the stored test device returns it |
| Scenarios.CreateCase | daos/device_test.go:136-176 | creating the test device returns it with its creation time stamped, and stores it |
| Scenarios.UpdateCases | daos/device_test.go:178-237 | the version-change patch affects one row, which then equals the stamped patch; the id-only patch affects none |
| Scenarios.DeleteCases | daos/device_test.go:239-290 | deleting the stored id affects one row; an unknown id affects none, with no error |
| Scenarios.ListCases | daos/device_test.go:292-361 | List returns nothing on an empty table, both devices in creation order with no filter, and one device by id |
| Scenarios.FindLimitZero | daos/device_test.go:375-390 | Find with limit 0 returns nothing, even with two stored devices |
| Scenarios.FindLimitPastCount | daos/device_test.go:391-406 | Find with limit 3 over two devices returns both, in creation order |
| Scenarios.FindById | daos/device_test.go:407-422 | Find with an id filter returns just that device |
| Scenarios.ServiceFindCase | service/device_test.go:104-122 | the service finds page 1 of size 2 as both devices, converted in creation order, with `Success` |
| Scenarios.ServiceUpdateCase | service/device_test.go:193-206 | through the service, the version change affects one row with `Success` |
| Scenarios.ServiceUpdateIdOnly | service/device.go:22-29 | an input with an id and timestamps but no text field becomes an id-only record, which the repository's no-op guard (`daos/device.go:47-53`) ignores: `(0, Success)` and no write |
| Scenarios.ServiceDeleteCase | service/device_test.go:231-243 | through the service, deleting the stored device succeeds and leaves nothing |
| Scenarios.ServiceDeleteUnknown | service/device.go:117-120 | deleting an id nothing is stored under affects no row, so the service answers `SuccessButNotFound` and nothing changes |
| Scenarios.ServiceRegisterCase | service/device_test.go:148-160 | registering the test device succeeds under the fresh id with the same text fields |

## Left out

- `Query` (daos/device.go:101-103) returns an opaque query builder. Only its use inside Update, `WHERE id = ?`, is modelled.
- Clock, identity generation and UUID parsing (`time.Now`, `uuid.NewV4`, `uuid.FromStringOrNil`) are parameters. `validUuid` is left uninterpreted.
- Register's two clock readings are modelled as one reading, `now`: the service's reading and the repository's reading during the same call.
- Logging calls have no effect on outcomes and are not modelled.
- Engine transactions themselves are not modelled: isolation, the data effect of commit and rollback, and nested-transaction semantics. Only the reassignment of the `db` handle is modelled.
- Concurrent use of one repository instance is not modelled.
- Identities are compared as strings, which is how SQLite, the engine the repository tests run on (daos/device_test.go:35-37), compares the `id` column. Under Postgres (database/dialects/postgres.go:13-21) the column has type `uuid` (model/device/device.go:14), so other spellings of the same UUID that `uuid.FromStringOrNil` accepts (upper case, braces, no hyphens) name the same row, and `Get` returns the canonical spelling. The model does not cover that: there, deleting a stored device by its upper-case spelling answers `SuccessButNotFound` and keeps the row.
- Store.Window: a negative limit with an offset of 0 or more follows engines that accept `OFFSET` without `LIMIT`, such as Postgres. The ORM leaves out the `LIMIT` clause for a negative limit, so the statement is `… OFFSET n` alone. SQLite, the engine the repository tests run on (daos/device_test.go:35-37), rejects `OFFSET` without `LIMIT`. Under SQLite, `DeviceRepo.Find` (daos/device.go:94-97) therefore returns an error for such a page, and `DeviceService.Find` answers `DeviceDBFindFail` (service/device.go:56-58). The model instead answers every match from the offset on. A request reaches this case with `number=-1`, for example (service/device.go:51-52).
- Stored order: none of the repository's queries has an `ORDER BY` (daos/device.go:22, 85, 94), so the engine does not promise any row order. The model stores rows in insertion order, and "stored order" in the `Select`, `List`, `Find` and `Delete` contracts is a property of the model. The repository tests rely on the same order (daos/device_test.go:316-330, 391-406).
- The projections of `ErrorCode` (`ErrorMsg`, `ErrorStatusCode`, `Int`) and the body of `utils.Map` are not part of this model. The update map is derived from the `mapKey` tags alone.
- HTTP routing and binding, configuration, database dialects and the global service singletons are plumbing, outside the core.
- Nil arguments that the Go code dereferences without a guard are not modelled: the service `Update`, the repository `Create`, and a nil page given to the repository `Find`. They panic in Go. The model takes those arguments as plain values.
- The repository `Create` stamps `CreateTime` on the caller's record in place, before the insert, so the caller sees the stamp even when the insert fails (daos/device.go:31). On success it returns that same record, not a copy (daos/device.go:38). Records are values in the model, so this aliasing is not modelled.
- Register also mutates the caller's value (id and timestamps). The HTTP layer passes a fresh copy, so this is not observable there and is not modelled.
- `DeviceRepo.Update`: the device returned on success is only stated to be present. The model builds it as the update map written into an empty record, which is what the ORM does with `Model(re).Updates(map)`. That ORM code is not part of this model, so no contract relies on it.
- `DeviceRepo.Update`: does not state that a row's `UpdateTime` never decreases. That depends on the clock, so the contract states `update_time == now` instead.
- `DeviceRepo.Get`: several rows with one id cannot arise under the primary key, so with duplicates the model returns the first one.
- `DeviceRepo.Create`: engine constraints other than the primary key are folded into `fault`. One example is a malformed id rejected by a `uuid` column type.
- `DeviceService.FindPage`: the types of the page-request fields are not part of this model. They are unbounded integers, so overflow of `Number * (Page - 1)` is not modelled.
- The class methods `Repo.NewTransactions`, `Repo.TransactionsCommit` and `Repo.TransactionsRollback` change object state. Each is stated as one `Step` of the value-level replay, and `Run`, `NewRepoRestores` and `NestedThenRestore` state the handle facts over call sequences without mutation.

## Findings

| source | as written | input that shows it | evidently intended | confidence | as-written member | corrected member |
|---|---|---|---|---|---|---|
| service/device.go:79-83 | `Register` sets `CreateTime` and `UpdateTime` on its input, but `repoType()` drops both timestamps before `Create`. The repository stamps only `CreateTime`, so the device is stored and returned with `UpdateTime = 0`. | register `{Model:"Pro", Color:"White", Version:"v1.2"}` at any clock reading other than 0 | the stored and returned device has `CreateTime == UpdateTime == now` | medium, not executed | DeviceService.RegisterLosesUpdateTime | DeviceService.RegisterCorrected |
