/**
 * CsvToPostgreMigrator: loads availability records into one table with an
 * "insert or update" keyed on (type, unitname, fuel_type, begin_ts). An
 * UPDATE first overwrites every row of that key whose `pub_ts` is older
 * than the record's; an INSERT ... WHERE NOT EXISTS then adds the record
 * only when no row of that key is left. Inserts are committed in batches,
 * as in PostgrePipeline.
 */
module CsvMigrator {
  import opened Sql
  import opened Ingest

  /** A record: the ten columns both statements name. The key columns may be NULL. */
  datatype Availability = Availability(
    kind: Option<string>,      // `type`
    pubTs: Option<int>,
    status: Value,
    unitName: Option<string>,
    fuelType: Option<string>,
    beginTs: Option<int>,      // `begin`
    endTs: Option<int>,        // `end`
    mwCap: Value,
    mwAvailable: Value,
    comment: Value)

  /** The item dict: the record plus the `table` entry that postgre_upsert adds to it. */
  datatype CsvItem = CsvItem(record: Availability, table: Option<string>)

  type Rows = seq<Row<Availability>>
  type CsvStore = IngestState<Availability, CsvItem>

  /** The four key comparisons both WHERE clauses share, in SQL's sense. */
  predicate SameKey(stored: Availability, a: Availability) {
    SqlEq(stored.kind, a.kind) && SqlEq(stored.unitName, a.unitName) &&
    SqlEq(stored.fuelType, a.fuelType) && SqlEq(stored.beginTs, a.beginTs)
  }

  /** No key column of the record is NULL. */
  predicate KeyNonNull(a: Availability) {
    a.kind.Some? && a.unitName.Some? && a.fuelType.Some? && a.beginTs.Some?
  }

  /** The WHERE clause of the UPDATE: same key and a strictly older `pub_ts`. */
  predicate Older(stored: Availability, a: Availability) {
    SqlLess(stored.pubTs, a.pubTs) && SameKey(stored, a)
  }

  /**
   * The UPDATE: every row of the key whose `pub_ts` is older takes all the
   * record's columns and keeps its id; every other row is left alone.
   */
  function UpdateOlder(rows: Rows, a: Availability): (r: Rows)
    ensures |r| == |rows|
    ensures forall p :: 0 <= p < |rows| ==> r[p].id == rows[p].id
    ensures forall p :: 0 <= p < |rows| && Older(rows[p].data, a) ==> r[p].data == a
    ensures forall p :: 0 <= p < |rows| && !Older(rows[p].data, a) ==> r[p] == rows[p]
    decreases |rows|
  {
    if rows == [] then []
    else
      var last := rows[|rows| - 1];
      UpdateOlder(rows[..|rows| - 1], a) + [if Older(last.data, a) then last.(data := a) else last]
  }

  /** The sub-select of the INSERT: a row of the record's key exists. */
  predicate KeyExists(rows: Rows, a: Availability) {
    exists p :: 0 <= p < |rows| && SameKey(rows[p].data, a)
  }

  /** The number of rows of the record's key. */
  function KeyCount(rows: Rows, a: Availability): nat
    decreases |rows|
  {
    if rows == [] then 0
    else KeyCount(rows[..|rows| - 1], a) + (if SameKey(rows[|rows| - 1].data, a) then 1 else 0)
  }

  lemma {:induction false} KeyCountZero(rows: Rows, a: Availability)
    ensures KeyCount(rows, a) == 0 <==> !KeyExists(rows, a)
    decreases |rows|
  {
    if rows != [] {
      var init := rows[..|rows| - 1];
      KeyCountZero(init, a);
      assert forall p :: 0 <= p < |init| ==> init[p] == rows[p];
      if KeyExists(init, a) {
        var p :| 0 <= p < |init| && SameKey(init[p].data, a);
        assert SameKey(rows[p].data, a);
      }
    }
  }

  /** The UPDATE never changes a row's key columns, so it keeps the number of rows of every key. */
  lemma {:induction false} UpdateKeepsKeyCount(rows: Rows, a: Availability, b: Availability)
    ensures KeyCount(UpdateOlder(rows, a), b) == KeyCount(rows, b)
    decreases |rows|
  {
    if rows != [] {
      var init := rows[..|rows| - 1];
      var r := UpdateOlder(rows, a);
      UpdateKeepsKeyCount(init, a, b);
      assert r[..|r| - 1] == UpdateOlder(init, a);
      var last := rows[|rows| - 1];
      assert Older(last.data, a) ==> SameKey(last.data, b) == SameKey(a, b);
    }
  }

  /**
   * UPDATE then conditional INSERT on the rows alone; `id` is the next value
   * of the id sequence. The UPDATE's rows come first, and the one row the
   * INSERT may add is the record under the new id, added only when the
   * UPDATE left no row of its key.
   */
  function UpsertRows(rows: Rows, a: Availability, id: nat): (r: Rows)
    ensures |rows| <= |r| <= |rows| + 1
    ensures r[..|rows|] == UpdateOlder(rows, a)
    ensures |r| == |rows| + 1 <==> !KeyExists(UpdateOlder(rows, a), a)
    ensures |r| == |rows| + 1 ==> r[|rows|] == Row(id, a)
  {
    var updated := UpdateOlder(rows, a);
    if KeyExists(updated, a) then updated else updated + [Row(id, a)]
  }

  /**
   * The INSERT adds a row only when no row of the key is left after the
   * UPDATE, so the rows of a (non-NULL) key go from none to one, or stay as
   * many as they were; the table grows by at most one row.
   */
  lemma KeyCountAfterUpsert(rows: Rows, a: Availability, id: nat)
    requires KeyNonNull(a)
    ensures var r := UpsertRows(rows, a, id);
      KeyCount(r, a) == (if KeyCount(rows, a) == 0 then 1 else KeyCount(rows, a)) &&
      |rows| <= |r| <= |rows| + 1
  {
    var updated := UpdateOlder(rows, a);
    UpdateKeepsKeyCount(rows, a, a);
    KeyCountZero(updated, a);
    KeyCountZero(rows, a);
    if !KeyExists(updated, a) {
      var r := updated + [Row(id, a)];
      assert r[..|r| - 1] == updated;
    }
  }

  /** After an upsert of a record with no NULL key column, a row of its key exists. */
  lemma KeyExistsAfterUpsert(rows: Rows, a: Availability, id: nat)
    requires KeyNonNull(a)
    ensures KeyExists(UpsertRows(rows, a, id), a)
  {
    var r := UpsertRows(rows, a, id);
    if !KeyExists(UpdateOlder(rows, a), a) {
      assert SameKey(r[|r| - 1].data, a);
    }
  }

  /** After the UPDATE no row of the key is older than the record, so a second UPDATE changes nothing. */
  lemma {:induction false} UpdateOlderIdempotent(rows: Rows, a: Availability)
    ensures UpdateOlder(UpdateOlder(rows, a), a) == UpdateOlder(rows, a)
    decreases |rows|
  {
    if rows != [] {
      var init := rows[..|rows| - 1];
      var once := UpdateOlder(rows, a);
      UpdateOlderIdempotent(init, a);
      assert once[..|once| - 1] == UpdateOlder(init, a);
      assert !Older(a, a);
    }
  }

  /**
   * Upserting the same record twice leaves the table as one upsert did and
   * draws no second id, when its key has no NULL column: the strict `pub_ts`
   * comparison stops the second UPDATE and the existing row stops the
   * second INSERT.
   */
  lemma UpsertIdempotent(rows: Rows, a: Availability, id: nat, id2: nat)
    requires KeyNonNull(a)
    ensures UpsertRows(UpsertRows(rows, a, id), a, id2) == UpsertRows(rows, a, id)
  {
    var updated := UpdateOlder(rows, a);
    var once := UpsertRows(rows, a, id);
    UpdateOlderIdempotent(rows, a);
    KeyExistsAfterUpsert(rows, a, id);
    if !KeyExists(updated, a) {
      assert !Older(a, a);
      assert UpdateOlder(once, a) == UpdateOlder(updated, a) + [Row(id, a)] by {
        assert once[..|once| - 1] == updated;
      }
    }
  }

  /** With a NULL key column nothing matches the NOT EXISTS, so every upsert adds a row. */
  lemma NullKeyInsertsEveryTime(rows: Rows, a: Availability, id: nat)
    requires !KeyNonNull(a)
    ensures UpsertRows(rows, a, id) == UpdateOlder(rows, a) + [Row(id, a)]
    ensures UpdateOlder(rows, a) == rows
  {
    NoKeyNoUpdate(rows, a);
  }

  lemma {:induction false} NoKeyNoUpdate(rows: Rows, a: Availability)
    requires !KeyNonNull(a)
    ensures UpdateOlder(rows, a) == rows
    decreases |rows|
  {
    if rows != [] {
      NoKeyNoUpdate(rows[..|rows| - 1], a);
    }
  }

  /**
   * Submitting the same item twice in one transaction: the table and the id
   * sequence are as after the first call; only the pending list holds the
   * item a second time.
   */
  lemma CsvUpsertTwice(s: CsvStore, item: CsvItem, tableName: string)
    requires KeyNonNull(item.record)
    ensures var once := CsvUpsert(s, item, tableName, Success, Success).0;
      var twice := CsvUpsert(once, item, tableName, Success, Success).0;
      twice.working == once.working && twice.nextId == once.nextId && twice.committed == once.committed &&
      twice.pending == once.pending + [item.(table := Some(tableName))]
  {
    UpsertIdempotent(s.working.rows, item.record, s.nextId, CsvUpsert(s, item, tableName, Success, Success).0.nextId);
    KeyExistsAfterUpsert(s.working.rows, item.record, s.nextId);
    var once := CsvUpsert(s, item, tableName, Success, Success).0;
    UpdateOlderIdempotent(s.working.rows, item.record);
    assert KeyExists(UpdateOlder(once.working.rows, item.record), item.record);
  }

  /** How each SQL step of one process_item call ends. */
  datatype CsvFaults = CsvFaults(update: Outcome, insert: Outcome, commit: Outcome)

  /**
   * postgre_upsert: tag the item with the table name, queue it, then run the
   * UPDATE and the INSERT. A failing statement leaves what AfterFailure says
   * (a failure on the server aborts the transaction, one raised while the
   * parameters are bound leaves it open, with the UPDATE's work when only
   * the INSERT failed) and the error propagates.
   */
  function CsvUpsert(s: CsvStore, item: CsvItem, tableName: string, update: Outcome, insert: Outcome): (r: (CsvStore, Completion<()>))
    ensures r.0.pending == s.pending + [item.(table := Some(tableName))]
    ensures r.0.failed == s.failed && r.0.committed == s.committed
    ensures r.1.Returned? <==> update == Success && insert == Success
    ensures r.1.Raised? ==> r.1.error != Success && r.0.nextId == s.nextId
    ensures r.1.Raised? && Aborts(r.1.error) ==> r.0.working == s.committed
    ensures r.1.Raised? && !Aborts(r.1.error) ==>
              r.0.working == s.working || r.0.working == s.working.(rows := UpdateOlder(s.working.rows, item.record))
    ensures r.1.Returned? ==>
              r.0.working.rows == UpsertRows(s.working.rows, item.record, s.nextId) &&
              r.0.working.tables == s.working.tables
    ensures ValidIngest(s) ==> ValidIngest(r.0)
  {
    var tagged := item.(table := Some(tableName));
    var queued := s.(pending := s.pending + [tagged]);
    if update != Success then (AfterFailure(queued, update), Raised(update))
    else
      var updated := UpdateOlder(s.working.rows, tagged.record);
      UpdateKeepsIds(s, tagged.record);
      if insert != Success then (AfterFailure(queued.(working := s.working.(rows := updated)), insert), Raised(insert))
      else if KeyExists(updated, tagged.record) then
        (queued.(working := s.working.(rows := updated)), Returned(()))
      else
        (queued.(working := s.working.(rows := updated + [Row(s.nextId, tagged.record)]), nextId := s.nextId + 1),
         Returned(()))
  }

  lemma UpdateKeepsIds(s: CsvStore, a: Availability)
    ensures ValidSnapshot(s.working, s.nextId) ==> ValidSnapshot(s.working.(rows := UpdateOlder(s.working.rows, a)), s.nextId)
  {
  }

  /**
   * process_item: upsert; on DataError roll back and fail the pending batch;
   * any other error propagates, leaving the transaction as the failed
   * statement left it; then the batch block. The item returned is the item
   * as postgre_upsert left it, tagged with the table name.
   */
  function CsvProcess(s: CsvStore, item: CsvItem, tableName: string, f: CsvFaults): (r: (CsvStore, Completion<CsvItem>))
    ensures r.1.Returned? ==> r.1.value == item.(table := Some(tableName)) && |r.0.pending| <= BatchThreshold
    ensures r.1.Returned? <==> (f.update == Success && f.insert == Success) || f.update == DataError ||
                               (f.update == Success && f.insert == DataError)
    ensures r.1.Raised? ==> r.0.committed == s.committed && r.0.failed == s.failed &&
                            r.0.pending == s.pending + [item.(table := Some(tableName))]
    ensures r.1.Raised? && Aborts(r.1.error) ==> r.0.working == s.committed
    ensures r.1.Raised? && !Aborts(r.1.error) ==>
              r.0.working == s.working || r.0.working == s.working.(rows := UpdateOlder(s.working.rows, item.record))
    ensures ValidIngest(s) ==> ValidIngest(r.0)
  {
    var (s1, c1) := CsvUpsert(s, item, tableName, f.update, f.insert);
    var tagged := item.(table := Some(tableName));
    if c1.Returned? then (CommitBatch(s1, f.commit), Returned(tagged))
    else if c1.error == DataError then (CommitBatch(FailPending(s1), f.commit), Returned(tagged))
    else (s1, Raised(c1.error))
  }

  /**
   * A DataError in either statement: the table goes back to its committed
   * state and the pending batch, with this item at its end, moves to the
   * failed items.
   */
  lemma DataErrorFailsBatch(s: CsvStore, item: CsvItem, tableName: string, f: CsvFaults)
    requires f.update == DataError || (f.update == Success && f.insert == DataError)
    ensures var (r, c) := CsvProcess(s, item, tableName, f);
      c == Returned(item.(table := Some(tableName))) && r.pending == [] &&
      r.failed == s.failed + s.pending + [item.(table := Some(tableName))] &&
      r.working == r.committed == s.committed
  {
  }

  /**
   * A KeyError while the UPDATE's parameters are bound (a record without a
   * `comment` entry, say) reaches neither the server nor the handler: the
   * error propagates with the transaction open and its uncommitted rows in
   * it, and the item stays queued with them.
   */
  lemma ClientErrorKeepsTransaction(s: CsvStore, item: CsvItem, tableName: string, f: CsvFaults)
    requires f.update == ClientError
    ensures var (r, c) := CsvProcess(s, item, tableName, f);
      c == Raised(ClientError) && r.working == s.working && r.committed == s.committed &&
      r.pending == s.pending + [item.(table := Some(tableName))] && r.failed == s.failed
  {
  }

  /** Only DataError is handled: an IntegrityError or any other error escapes process_item. */
  lemma OtherErrorsPropagate(s: CsvStore, item: CsvItem, tableName: string, f: CsvFaults)
    requires f.update != Success && f.update != DataError
    ensures var (r, c) := CsvProcess(s, item, tableName, f);
      c == Raised(f.update) && r.pending == s.pending + [item.(table := Some(tableName))] && r.failed == s.failed
  {
  }

  /** The migrator object: one connection, the table it loads and the two item lists. */
  class CsvToPostgreMigrator {
    const db: Connection<Availability>
    const table: string
    var pendingItems: seq<CsvItem>
    var failedItems: seq<CsvItem>

    function State(): CsvStore
      reads this, db
    {
      IngestState(db.committed, db.working, db.nextId, pendingItems, failedItems)
    }

    ghost predicate Valid()
      reads this, db
    {
      db.Valid()
    }

    /** `__init__`: connect, remember the table, start with empty lists. */
    constructor (table: string, initial: Snapshot<Availability>, firstId: nat)
      requires ValidSnapshot(initial, firstId)
      ensures Valid() && fresh(db) && this.table == table
      ensures State() == IngestState(initial, initial, firstId, [], [])
    {
      db := new Connection(initial, firstId);
      this.table := table;
      pendingItems := [];
      failedItems := [];
    }

    /** postgre_upsert; the item dict it mutates is returned as `tagged`. */
    method PostgreUpsert(item: CsvItem, tableName: string, update: Outcome, insert: Outcome)
      returns (tagged: CsvItem, c: Completion<()>)
      requires Valid()
      modifies this, db
      ensures Valid()
      ensures tagged == item.(table := Some(tableName))
      ensures (State(), c) == CsvUpsert(old(State()), item, tableName, update, insert)
    {
      tagged := item.(table := Some(tableName));
      pendingItems := pendingItems + [tagged];
      if update != Success {
        if Aborts(update) {
          db.AbortTransaction();
        }
        return tagged, Raised(update);
      }
      db.Update(UpdateOlder(db.working.rows, tagged.record));
      if insert != Success {
        if Aborts(insert) {
          db.AbortTransaction();
        }
        return tagged, Raised(insert);
      }
      if !KeyExists(db.working.rows, tagged.record) {
        var _ := db.Insert(tagged.record);
      }
      c := Returned(());
    }

    /** The batch block at the end of process_item. */
    method CommitPendingBatch(outcome: Outcome)
      requires Valid()
      modifies this, db
      ensures Valid()
      ensures State() == CommitBatch(old(State()), outcome)
    {
      if |pendingItems| > BatchThreshold {
        var ok := db.Commit(outcome);
        if !ok {
          db.Rollback();
          failedItems := failedItems + pendingItems;
        }
        pendingItems := [];
      }
    }

    method ProcessItem(item: CsvItem, f: CsvFaults) returns (c: Completion<CsvItem>)
      requires Valid()
      modifies this, db
      ensures Valid()
      ensures (State(), c) == CsvProcess(old(State()), item, table, f)
    {
      var tagged, u := PostgreUpsert(item, table, f.update, f.insert);
      if u.Raised? {
        if u.error == DataError {
          db.Rollback();
          failedItems := failedItems + pendingItems;
          pendingItems := [];
        } else {
          return Raised(u.error);
        }
      }
      CommitPendingBatch(f.commit);
      c := Returned(tagged);
    }

    /**
     * create_table: the catalog lookup ends with `lookup` and reports
     * `present`; only an absent table is created, under its lower-cased
     * name on the search path, and committed.
     */
    method CreateTable(tableName: string, lookup: Outcome, present: bool, create: Outcome, commit: Outcome)
      returns (c: Completion<()>)
      requires Valid()
      modifies db
      ensures Valid()
      ensures (State(), c) == EnsureTable(old(State()), TableName(None, Lower(tableName)), lookup, present, create, commit)
    {
      c := ProvisionTable(db, pendingItems, failedItems, TableName(None, Lower(tableName)), lookup, present, create, commit);
    }
  }
}
