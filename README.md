# Ingestion of EEX availability data into PostgreSQL, modelled in Dafny

This project models the two writers that store data in PostgreSQL.

`PostgrePipeline` (`scrapers/pipelines.py`) is the Scrapy item pipeline
for scraped availability events:

- `postgre_upsert` looks for a stored row with the same
  `(event_id, begin_ts, end_ts, last_update)`. A match counts as "passed".
  Otherwise the item is queued in `pending_items` and INSERTed. Either way,
  its `event_id` is recorded once in `event_ids`.
- `process_item` handles `DataError`/`IntegrityError` by rolling back and
  moving the pending batch to `failed_items`. On any other `DatabaseError` it
  reconnects and retries the item once. It commits once more than 10 items
  are pending.
- `create_table` creates `covalis1.<name>` when the catalog lookup reports
  it absent.
- `update_version_no` numbers the rows of one event id 1, 2, ... in
  `ORDER BY last_update` order.
- `close_spider` commits, renumbers every collected event id and clears the
  list.

`CsvToPostgreMigrator` (`scrapers/csvtopostgre.py`) loads availability
records with an "insert or update" on the key
`(type, unitname, fuel_type, begin_ts)`:

- an UPDATE overwrites the rows of the key whose `pub_ts` is strictly older;
- an `INSERT ... WHERE NOT EXISTS` then adds the record only if no row of
  the key remains.

It uses the same pending/failed batching, but it handles only `DataError`.

## Structure

| module (file) | contents |
|---|---|
| `Sql` (`sql.dfy`) | The database as psycopg2 shows it: `Value` with NULL, and the exception classes as `Outcome`. SQL's three-valued `=` and `<`, and `ORDER BY ... ASC` with NULLs last. `Connection`, a class with a committed and a working snapshot and a non-transactional id sequence. |
| `Ingest` (`ingest.dfy`) | What both writers share: the state `IngestState`, the batch block `CommitBatch`, the error handler `FailPending` and table provisioning `EnsureTable`. |
| `Events` (`events.dfy`) | The event item and row, the duplicate key, and the `event_ids` bookkeeping. |
| `Versioning` (`versioning.dfy`) | `update_version_no` as a function of the table and of one possible answer of the ordered query, with its properties. |
| `Pipeline` (`pipeline.dfy`) | The functions `Upsert`, `Process` and `Close`, which give what each call does to the abstract state, their lemmas, and the class `PostgrePipeline`, whose methods are proved to reach exactly those states. |
| `CsvMigrator` (`migrator.dfy`) | The UPDATE/INSERT pair on rows (`UpdateOlder`, `UpsertRows`) with its lemmas, `CsvUpsert` and `CsvProcess`, and the class `CsvToPostgreMigrator`. |

### How database behaviour is modelled

- **Outcomes as parameters.** Every SQL step takes an `Outcome` parameter
  saying how it ends: `Success`; `DataError`, `IntegrityError` or any other
  `DatabaseError`, each raised on the server side; or an exception outside
  `DatabaseError` that ends the session (such as an `InterfaceError` on a
  closed connection, raised by the client with the session, and so its
  transaction, already gone);
  or a `DatabaseError` (`ClientDbError`, e.g. "can't adapt type") or another
  exception (`ClientError`, e.g. the `KeyError` of a missing item field or
  query parameter) raised by the client before the statement is sent. Every
  error path is therefore an input.
- **Failed statements.** A statement that fails on the server aborts the
  transaction, so its uncommitted work can never be committed; the model
  discards that work at once (`Sql.Aborts`, `Ingest.AfterFailure`). A
  failure raised before the statement is sent leaves the transaction open
  with all its uncommitted rows, and a later commit stores them.
- **Ties in `ORDER BY last_update`.** The order of equal values is left
  free. `update_version_no` takes the answer of its query through
  `var order :| Admissible(...)`, so every proof holds for any tie order.
  `AdmissibleExists` shows that some answer always exists.

### Behaviours the proofs make explicit

- **Client-side errors keep the transaction.** A `KeyError` for a missing
  column of an item propagates out of `process_item` while the rows of the
  pending batch stay in the open transaction; the next batch commit stores
  them. See `Pipeline.ClientErrorKeepsUncommittedRows` and
  `CsvMigrator.ClientErrorKeepsTransaction`.
- **Reconnect path.** It keeps `pending_items`, although the new session
  has lost their uncommitted rows. Those items stay counted as inserted and
  will never be committed. See `Pipeline.ReconnectKeepsPendingButLosesRows`.
- **NULL key columns (PostgrePipeline).** An event whose duplicate key has
  a NULL column never matches a stored row. It is inserted on every
  submission. See `Events.NullKeyNeverDuplicate`.
- **NULL key columns (migrator).** For the same reason a record with a NULL
  key column is inserted by every upsert. See
  `CsvMigrator.NullKeyInsertsEveryTime`.
- **Ties in `last_update`.** Renumbering is idempotent only when no two
  rows of the event tie on `last_update`. With a tie, a second run may swap
  the version numbers. See `Versioning.TiesMayChangeNumbering`.
- **Arrival order.** Version numbers follow `last_update`, not arrival
  order. See `Versioning.ArrivalOrderDoesNotMatter`.

## Model

| member | source | states |
|---|---|---|
| `Sql.NotAfterTotal` | scrapers/pipelines.py:201 | ORDER BY last_update ASC (NULLs last) compares any two timestamps, and two that sort both ways are equal |
| `Sql.NotAfterTransitive` | scrapers/pipelines.py:201 | the ORDER BY comparison is transitive |
| `Sql.Lower` | scrapers/pipelines.py:130 | `table_name.lower()`: same length, each ASCII letter lower-cased, no upper-case letter left |
| `Sql.Connection.constructor` | scrapers/pipelines.py:27-31 | a fresh session sees the committed database |
| `Sql.Connection.Commit` | scrapers/pipelines.py:93 | a successful commit makes the working state durable; a failed one leaves the transaction rolled back |
| `Sql.Connection.Rollback` | scrapers/pipelines.py:80 | rollback returns the session to the committed state; the id sequence is not rolled back |
| `Sql.Connection.Reconnect` | scrapers/pipelines.py:84-88 | a new connection sees only committed data |
| `Sql.Connection.AbortTransaction` | scrapers/pipelines.py:188 | a statement that fails on the server leaves nothing of its transaction to commit |
| `Sql.Connection.Insert` | scrapers/pipelines.py:156-188 | an INSERT appends one row with the next BIGSERIAL id and leaves the committed state alone |
| `Sql.Connection.Update` | scrapers/pipelines.py:209-216 | an UPDATE rewrites rows in place and keeps their ids |
| `Sql.Connection.CreateTable` | scrapers/pipelines.py:113-132 | CREATE TABLE IF NOT EXISTS adds the table to the catalog, and does nothing if it is there |
| `Ingest.Discard` | scrapers/pipelines.py:80 | a rollback or a lost session: both snapshots become the committed one; the pending and failed items and the id sequence are unchanged |
| `Ingest.AfterFailure` | scrapers/pipelines.py:187-188 | a statement that failed on the server leaves the committed snapshot as the working one; one that failed before it was sent leaves the working snapshot as it was; the lists, the commit and the id sequence are untouched |
| `Ingest.Commit` | scrapers/pipelines.py:45 | after `commit()` the session sees the committed snapshot, which is the working one on success and the old committed one otherwise; the pending and failed items and the id sequence are unchanged |
| `Ingest.FailPending` | scrapers/pipelines.py:78-82 | the data-error handler: the table reverts to committed, pending items are appended to the failed items, pending is emptied |
| `Ingest.CommitBatch` | scrapers/pipelines.py:91-103 | commits only when more than 10 items are pending; then pending is empty whatever the outcome. A success makes the working table durable; a failure reverts to committed and appends the batch to the failed items |
| `Ingest.CommitBatchConserves` | scrapers/pipelines.py:94-103 | the batch block loses no item: old failed ++ old pending equals new failed ++ new pending, unless the batch was committed |
| `Ingest.EnsureTable` | scrapers/pipelines.py:108-133 | create_table does nothing when the lookup reports the table present; it changes the catalog and commits only when it reports it absent; it returns normally exactly when every step it runs succeeds; when it raises, the committed state is unchanged and the session is rolled back, or left as it was by a failure raised before sending |
| `Ingest.EnsureTableTwice` | scrapers/pipelines.py:110-133 | when a lookup that found the table finds it again, a second provisioning leaves the whole state as the first call left it, and a first call whose lookup found nothing has created the table |
| `Ingest.FalsePositiveLookupLeavesTargetAbsent` | scrapers/pipelines.py:110-112 | the lookup names no schema and matches the name as given, not lower-cased: when it reports a table that is not the target, create_table returns normally, changes nothing, and the target table stays absent |
| `Ingest.ProvisionTable` | scrapers/pipelines.py:108-133 | the lookup, the CREATE of an absent table and the commit, run on a connection, reach exactly the state and result `EnsureTable` gives |
| `Events.DuplicateKey` | scrapers/pipelines.py:137-147 | the WHERE clause of the duplicate query: event_id, begin_ts, end_ts and last_update all equal, none of them NULL |
| `Events.DuplicateExists` | scrapers/pipelines.py:148-151 | the duplicate query returns at least one row |
| `Events.DuplicateOfItself` | scrapers/pipelines.py:137-152 | a stored event with no NULL key column is found by the duplicate query for itself |
| `Events.NullKeyNeverDuplicate` | scrapers/pipelines.py:137-149 | an event with a NULL key column is never found by the duplicate query |
| `Events.AppendOnce` | scrapers/pipelines.py:193-194 | the id is in the list afterwards, the old list is a prefix, at most one id is added, and the list stays free of duplicates |
| `Events.AppendAll` | scrapers/pipelines.py:193-194 | recording a sequence of ids in turn extends the list by exactly the ids it did not hold, and keeps it free of duplicates |
| `Events.FirstOccurrences` | scrapers/pipelines.py:193-194 | reference definition: the distinct ids of a sequence, each at its first occurrence |
| `Events.AppendAllIsFirstOccurrences` | scrapers/pipelines.py:193-194 | recording a sequence of ids into an empty list gives each id once, in the order of its first occurrence |
| `Versioning.Admissible` | scrapers/pipelines.py:198-204 | an answer the ordered query may give: every row of the event id exactly once, in ascending last_update with NULLs last, ties in any order |
| `Versioning.InGroup` | scrapers/pipelines.py:199-200 | the ordered query's `event_id = %(event_id)s` under SQL equality: no row belongs to a NULL event id |
| `Versioning.SetVersion` | scrapers/pipelines.py:209-216 | `UPDATE ... SET version_no = v WHERE id = id`: the table keeps its length |
| `Versioning.SetVersionTouchesOnlyId` | scrapers/pipelines.py:209-216 | `UPDATE ... SET version_no = v WHERE id = id` changes only version_no, and only of the row with that id |
| `Versioning.RenumberedAt` | scrapers/pipelines.py:206-217 | the k-th row the query lists gets version k + 1 |
| `Versioning.RenumberStep` | scrapers/pipelines.py:207-217 | one pass of the loop updates exactly the next listed row, by its id |
| `Versioning.Renumbered` | scrapers/pipelines.py:206-217 | renumbering changes no id and no column except version_no |
| `Versioning.RenumberedIsWellNumbered` | scrapers/pipelines.py:197-219 | afterwards the event's versions are at least 1, distinct and contiguous, and a lower version never has a later last_update |
| `Versioning.WellNumberedHasNoGaps` | scrapers/pipelines.py:206-217 | in a well-numbered event every version from 1 up to a used one is used |
| `Versioning.RenumberedVersionsExact` | scrapers/pipelines.py:197-219 | the event's versions are exactly {1..N}, with N its number of rows |
| `Versioning.RenumberedFrame` | scrapers/pipelines.py:198-204 | rows of other event ids are left exactly as they were |
| `Versioning.RenumberKeepsOtherGroups` | scrapers/pipelines.py:197-219 | renumbering one event keeps every other event well numbered |
| `Versioning.AdmissibleIgnoresVersions` | scrapers/pipelines.py:198-204 | the ordered query's possible answers do not depend on version_no |
| `Versioning.AdmissibleUnique` | scrapers/pipelines.py:198-204 | without ties in last_update the ordered query has one answer |
| `Versioning.RenumberIdempotent` | scrapers/pipelines.py:197-219 | without ties, running update_version_no again on its own result changes nothing |
| `Versioning.InsertByLastUpdate` | scrapers/pipelines.py:201 | inserting a row position into a sorted listing keeps it sorted and adds exactly that position |
| `Versioning.SortGroup` | scrapers/pipelines.py:198-204 | a sorted, duplicate-free listing of exactly the event's rows |
| `Versioning.AdmissibleExists` | scrapers/pipelines.py:198-204 | the ordered query always has an answer |
| `Versioning.ArrivalOrderDoesNotMatter` | scrapers/pipelines.py:198-217 | revisions arriving with last_update 1, 3, 2 are numbered 1, 3, 2 |
| `Versioning.TiesMayChangeNumbering` | scrapers/pipelines.py:201 | with two rows tied on last_update, a second run may swap their numbers |
| `Pipeline.Target` | scrapers/pipelines.py:130 | create_table's `covalis1.<lower-cased name>`: in the schema, each character of the name lower-cased, so the name is already folded and the unquoted name of the other queries reaches the same table |
| `Pipeline.Upsert` | scrapers/pipelines.py:135-194 | a duplicate changes nothing but the passed count. A new item is queued and then inserted as one row with the item's columns and version 1, counted as inserted. event_ids records the id on every normal return. A failing statement raises, having recorded and counted nothing and drawn no id; a failing duplicate query also queues nothing; the session is rolled back when the failure came from the server and left as it was when it came before sending; the committed state is unchanged |
| `Pipeline.Process` | scrapers/pipelines.py:73-106 | process_item returns (rather than raises) exactly when the first upsert succeeds, or its error is a DataError or IntegrityError, or it is another DatabaseError and the reconnect, the retried duplicate query and (unless the committed table already holds a duplicate) the retried INSERT all succeed. It returns the item itself with at most 10 items pending. event_ids gains the item's id exactly when the call returns and its first upsert hit no data fault, and is unchanged otherwise. When it raises, the error is a real one, the committed state and the failed items are unchanged, and the session is either rolled back or exactly as it was; rolled back whenever the duplicate query failed on the server |
| `Pipeline.ReconnectFault` | scrapers/pipelines.py:83-89 | the case that takes the reconnect path: the first upsert raised a DatabaseError that is neither DataError nor IntegrityError, from the duplicate query or from the INSERT of a new item |
| `Pipeline.HandledDataFault` | scrapers/pipelines.py:75-82 | the case the handler swallows: the first upsert raised DataError or IntegrityError, from the duplicate query or from the INSERT of a new item |
| `Pipeline.ProcessRun` | scrapers/pipelines.py:73-106 | over a run of process_item calls, the recorded items are at increasing positions of the run, at most one per item; the first item is recorded exactly when its call returned and its first upsert hit no data fault; event_ids is the recording, in turn, of the ids at those positions |
| `Pipeline.RunRecordsFirstOccurrences` | scrapers/pipelines.py:190-194 | starting with no ids, a run leaves in event_ids the ids of the items it recorded, each once, in first-seen order |
| `Pipeline.Renumber` | scrapers/pipelines.py:197-219 | update_version_no ends with the session holding no uncommitted work, unless its SELECT failed before being sent, which changes nothing; on success the committed table is the working one with the event renumbered in the listed order; a failure commits nothing; pending, failed and the id sequence are untouched |
| `Pipeline.RenumberAll` | scrapers/pipelines.py:60-61 | the renumbering loop stops at the first raised error; it never touches the item lists; after a normal return over a non-empty list, or from a session without uncommitted work, the session holds no uncommitted work |
| `Pipeline.RenumberAllReturns` | scrapers/pipelines.py:60-61 | the loop returns normally exactly when every update_version_no succeeds |
| `Pipeline.RenumberAllSplit` | scrapers/pipelines.py:60-61 | running the loop over two lists in turn is running it over their concatenation |
| `Pipeline.RenumberAllStep` | scrapers/pipelines.py:60-61 | one more successful call extends the loop by one renumbering |
| `Pipeline.RenumberAllStop` | scrapers/pipelines.py:60-61 | a failing call ends the loop whatever ids follow |
| `Pipeline.RenumberAllWellNumbers` | scrapers/pipelines.py:59-61 | when every call succeeds, each collected event id ends well numbered and only version numbers change |
| `Pipeline.CloseCommit` | scrapers/pipelines.py:44-52 | the final commit empties pending on success; a DataError appends the batch to the failed items; any other error propagates with pending kept |
| `Pipeline.Close` | scrapers/pipelines.py:44-63 | close_spider returns normally exactly when the final commit is a success or a DataError and every renumbering succeeds, and then event_ids is empty; otherwise event_ids is kept |
| `Pipeline.CloseRenumbersEveryEvent` | scrapers/pipelines.py:44-63 | after a successful close every collected event id is well numbered in the committed table, nothing is pending, event_ids is empty, and only version numbers differ from the committed batch |
| `Pipeline.UpsertSameItemTwice` | scrapers/pipelines.py:137-190 | the same item (no NULL key column) submitted twice in a run gives one row; the second call only counts a pass |
| `Pipeline.FailedInsertLandsInFailed` | scrapers/pipelines.py:187-188 | an INSERT failing with DataError or IntegrityError puts the pending batch and then the item itself among the failed items, and process_item still returns the item |
| `Pipeline.SelectDataFaultFailsBatch` | scrapers/pipelines.py:78-82 | a data fault in the duplicate query reverts the table, fails the pending batch and returns the item |
| `Pipeline.ReconnectKeepsPendingButLosesRows` | scrapers/pipelines.py:83-89 | after a reconnect and a successful retry, pending still holds the earlier items while the working table is the committed one plus the retried row |
| `Pipeline.FailedRetryPropagates` | scrapers/pipelines.py:89 | a failing retried duplicate query propagates out of process_item and skips the batch block, leaving pending and failed as they were and the session at the committed state |
| `Pipeline.FailedRetryInsertPropagates` | scrapers/pipelines.py:89 | a failing retried INSERT, a DataError included, propagates out of process_item: the item stays queued in pending, failed is unchanged, the session holds only committed data, and neither event_ids nor the insert count changes |
| `Pipeline.FailedReconnectPropagates` | scrapers/pipelines.py:83-87 | a failing reconnect propagates its own error without a retry; failed, the committed state, event_ids and both counters are unchanged |
| `Pipeline.NonDatabaseErrorPropagates` | scrapers/pipelines.py:75-89 | an error outside DatabaseError is not handled; a KeyError for the item's event_id leaves the store as it was |
| `Pipeline.ClientErrorKeepsUncommittedRows` | scrapers/pipelines.py:187-188 | a KeyError while the INSERT's parameters are bound propagates with the item queued and the transaction intact, and the commit of the next filled batch stores the earlier uncommitted rows |
| `Pipeline.PostgrePipeline.constructor` | scrapers/pipelines.py:26-36 | a new pipeline has a fresh connection, empty lists and zero counters |
| `Pipeline.PostgrePipeline.PostgreUpsert` | scrapers/pipelines.py:135-194 | reaches exactly the state and result `Upsert` gives |
| `Pipeline.PostgrePipeline.CommitPendingBatch` | scrapers/pipelines.py:91-103 | reaches exactly the state `CommitBatch` gives |
| `Pipeline.PostgrePipeline.ProcessItem` | scrapers/pipelines.py:73-106 | reaches exactly the state and result `Process` gives |
| `Pipeline.PostgrePipeline.CreateTable` | scrapers/pipelines.py:108-133 | reaches the state `EnsureTable` gives for `covalis1.<lower-cased name>` and leaves event_ids and the counters alone |
| `Pipeline.PostgrePipeline.UpdateVersionNo` | scrapers/pipelines.py:197-219 | for some possible answer of the ordered query, the loop of updates by id reaches exactly `Renumber` of the table |
| `Pipeline.PostgrePipeline.FinalCommit` | scrapers/pipelines.py:44-52 | reaches exactly the state `CloseCommit` gives |
| `Pipeline.PostgrePipeline.RenumberEvents` | scrapers/pipelines.py:59-61 | calling update_version_no for each collected id in order reaches exactly `RenumberAll` |
| `Pipeline.PostgrePipeline.CloseSpider` | scrapers/pipelines.py:42-63 | reaches exactly the state and result `Close` gives |
| `CsvMigrator.UpdateOlder` | scrapers/csvtopostgre.py:82-100 | the UPDATE overwrites a row with the record's columns exactly when its key matches and its pub_ts is strictly older; other rows are unchanged, ids and positions are kept |
| `CsvMigrator.SameKey` | scrapers/csvtopostgre.py:96-99 | the key match of the UPDATE and of the NOT EXISTS sub-select: type, unitname, fuel_type and begin_ts equal under SQL equality, so a NULL in any of them matches nothing |
| `CsvMigrator.Older` | scrapers/csvtopostgre.py:94-99 | the UPDATE's WHERE: the key matches and the stored pub_ts is strictly earlier than the record's, never true for a NULL pub_ts |
| `CsvMigrator.KeyExists` | scrapers/csvtopostgre.py:124-130 | the NOT EXISTS sub-select finds a row of the record's key |
| `CsvMigrator.KeyCountZero` | scrapers/csvtopostgre.py:124-130 | no row of the key is counted exactly when the NOT EXISTS sub-select finds none |
| `CsvMigrator.UpdateKeepsKeyCount` | scrapers/csvtopostgre.py:82-99 | the UPDATE keeps the number of rows of every key |
| `CsvMigrator.UpsertRows` | scrapers/csvtopostgre.py:82-135 | UPDATE then INSERT ... WHERE NOT EXISTS: the UPDATE's rows, then at most one new row, the record under the new id, added exactly when no row of the key is left |
| `CsvMigrator.KeyCountAfterUpsert` | scrapers/csvtopostgre.py:101-135 | the rows of the key go from 0 to 1 or stay as many; the table grows by at most one row |
| `CsvMigrator.KeyExistsAfterUpsert` | scrapers/csvtopostgre.py:82-135 | afterwards a row of the record's key exists |
| `CsvMigrator.UpdateOlderIdempotent` | scrapers/csvtopostgre.py:94-99 | a second UPDATE with the same record changes nothing |
| `CsvMigrator.UpsertIdempotent` | scrapers/csvtopostgre.py:74-135 | applying a record twice leaves the table as applying it once |
| `CsvMigrator.NullKeyInsertsEveryTime` | scrapers/csvtopostgre.py:124-130 | with a NULL key column the UPDATE matches nothing and the INSERT always adds a row |
| `CsvMigrator.NoKeyNoUpdate` | scrapers/csvtopostgre.py:94-99 | with a NULL key column the UPDATE changes no row |
| `CsvMigrator.CsvUpsertTwice` | scrapers/csvtopostgre.py:74-135 | upserting the same item twice in one transaction leaves rows and the id sequence as after once; only pending holds it twice |
| `CsvMigrator.CsvUpsert` | scrapers/csvtopostgre.py:74-135 | the item, tagged with the table name, is queued before any statement runs. On success the rows are UPDATE-then-INSERT of the record. A failing statement raises, draws no id and leaves the committed state; the session is rolled back after a failure on the server, and otherwise holds the rows as they were or as the UPDATE left them |
| `CsvMigrator.CsvProcess` | scrapers/csvtopostgre.py:26-49 | process_item returns the tagged item exactly when both statements succeed or a DataError was handled, with at most 10 items pending; any other error propagates with the item queued, failed and committed unchanged, and the session as the failing statement left it |
| `CsvMigrator.DataErrorFailsBatch` | scrapers/csvtopostgre.py:29-33 | a DataError reverts the table and moves the pending batch, this item last, to the failed items |
| `CsvMigrator.ClientErrorKeepsTransaction` | scrapers/csvtopostgre.py:134 | a KeyError while the UPDATE's parameters are bound propagates with the transaction and its uncommitted rows intact and the item queued |
| `CsvMigrator.OtherErrorsPropagate` | scrapers/csvtopostgre.py:26-33 | an IntegrityError or other error is not handled, and the item stays pending |
| `CsvMigrator.CsvToPostgreMigrator.constructor` | scrapers/csvtopostgre.py:15-23 | a new migrator has a fresh connection, its table and empty lists |
| `CsvMigrator.CsvToPostgreMigrator.PostgreUpsert` | scrapers/csvtopostgre.py:74-135 | reaches exactly the state `CsvUpsert` gives and returns the item tagged with the table name |
| `CsvMigrator.CsvToPostgreMigrator.CommitPendingBatch` | scrapers/csvtopostgre.py:35-47 | reaches exactly the state `CommitBatch` gives |
| `CsvMigrator.CsvToPostgreMigrator.ProcessItem` | scrapers/csvtopostgre.py:26-49 | reaches exactly the state and result `CsvProcess` gives for its own table |
| `CsvMigrator.CsvToPostgreMigrator.CreateTable` | scrapers/csvtopostgre.py:51-72 | reaches the state `EnsureTable` gives for the lower-cased, unqualified name |

## Left out

- The spider (`scrapers/spiders/eex_transparency_spider.py`): browser
  driving, DOM extraction, time conversion and its log file.
- `PostgrePipeline.open_spider` (`scrapers/pipelines.py:39-40`) only calls
  `create_table` with the spider's table, which is modelled.
- psycopg2 itself: credentials, cursors and the text of the SQL queries.
  The model has one target table; a missing table shows up only as an error
  outcome of the statement.
- The JSON log file written by `close_spider` and all `print` output.
- `DOUBLE PRECISION`, text and `VARCHAR` columns that the logic never
  inspects are opaque values. Column widths are not enforced; a value too
  long for its column is one of the ways a statement ends in `DataError`.
  Timestamps are integers.
- The `information_schema` catalog lookup of `create_table` is an input
  (`present`), not a query of the modelled catalog. In the source it is
  schema-agnostic and case-sensitive.
- A statement that fails on the server discards the transaction's work at
  once. PostgreSQL instead keeps the aborted transaction and rejects every
  later statement until the rollback; the outcome parameters allow those
  rejections but do not force them.
- A failed INSERT draws no id from the sequence in the model; PostgreSQL may
  draw one. Only the freshness of ids matters to the properties.
- `rollback()` never fails in the model. The CREATE of `create_table` and
  the two statements of either `postgre_upsert` fail only as their outcome
  parameters say.
- In `update_version_no` one outcome stands for the SELECT, the UPDATEs and
  the commit, because each failure on the server ends the same way: the
  transaction is rolled back and the error propagates. A failure raised
  before sending is taken to come from the SELECT, the only statement with
  a parameter the client may fail to bind (the UPDATEs bind two integers).
- `commit()` binds no parameters, so a client-side outcome given to a
  commit is treated like any other failed commit: the transaction is rolled
  back.
- `psycopg2.connect` replaces `self.connection` with a new object; the model
  keeps one connection and discards its uncommitted work.
- `str.lower()` is modelled for ASCII letters only.
- The `main`/`getopt` command line of `scrapers/csvtopostgre.py`.
- Concurrency: both writers are single-threaded.
- When the migrator's `process_item` raises, the caller's item dict has
  still been tagged with `table`; the raised result carries no item.
- Pipeline.UpsertSameItemTwice: holds only when the item's duplicate key has
  no NULL column. Otherwise the item is inserted every time
  (`Events.NullKeyNeverDuplicate`).
- CsvMigrator.UpsertIdempotent: holds only when the record's key has no NULL
  column. A NULL key column inserts a row every time
  (`CsvMigrator.NullKeyInsertsEveryTime`).
- CsvMigrator.KeyCountAfterUpsert: stated for records whose key has no NULL
  column, for the same reason.
- CsvMigrator.KeyExistsAfterUpsert: stated for records whose key has no NULL
  column, for the same reason.
- CsvMigrator.CsvUpsertTwice: stated for records whose key has no NULL
  column, for the same reason.
- Versioning.RenumberIdempotent: holds only when no two rows of the event tie
  on `last_update`. `Versioning.TiesMayChangeNumbering` shows a tie that
  breaks it.
- Versioning.AdmissibleUnique: holds only without ties, for the same reason.
