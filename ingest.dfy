/**
 * What both writers share: a connection's committed and working snapshots,
 * the buffer of items whose rows are not committed yet (`pending_items`),
 * the items given up on (`failed_items`), the batch commit that both
 * `process_item`s end with, and the create-if-absent table provisioning.
 */
module Ingest {
  import opened Sql

  /** `pending_items` is committed once it holds more than this many items. */
  const BatchThreshold: nat := 10

  /** The abstract value of a writer: its connection plus its two item lists. */
  datatype IngestState<D, I> = IngestState(
    committed: Snapshot<D>,
    working: Snapshot<D>,
    nextId: nat,
    pending: seq<I>,
    failed: seq<I>)

  ghost predicate ValidIngest<D, I>(s: IngestState<D, I>) {
    ValidSnapshot(s.committed, s.nextId) && ValidSnapshot(s.working, s.nextId)
  }

  /** Rollback, reconnect or an aborted transaction: the session sees the committed snapshot again. */
  function Discard<D, I>(s: IngestState<D, I>): (r: IngestState<D, I>)
    ensures r.working == s.committed && r.committed == s.committed
    ensures r.pending == s.pending && r.failed == s.failed && r.nextId == s.nextId
    ensures ValidIngest(s) ==> ValidIngest(r)
  {
    s.(working := s.committed)
  }

  /**
   * What a failed statement leaves behind: a failure on the server aborts the
   * transaction, one raised before the statement was sent leaves it as it was.
   */
  function AfterFailure<D, I>(s: IngestState<D, I>, o: Outcome): (r: IngestState<D, I>)
    ensures r.working == (if Aborts(o) then s.committed else s.working)
    ensures r.committed == s.committed && r.nextId == s.nextId && r.pending == s.pending && r.failed == s.failed
    ensures ValidIngest(s) ==> ValidIngest(r)
  {
    if Aborts(o) then Discard(s) else s
  }

  /** connection.commit() with the given outcome. */
  function Commit<D, I>(s: IngestState<D, I>, outcome: Outcome): (r: IngestState<D, I>)
    ensures r.working == r.committed
    ensures r.committed == if outcome == Success then s.working else s.committed
    ensures r.pending == s.pending && r.failed == s.failed && r.nextId == s.nextId
    ensures ValidIngest(s) ==> ValidIngest(r)
  {
    if outcome == Success then s.(committed := s.working) else Discard(s)
  }

  /** The data-error handler: rollback, move every pending item to the failed list, clear the buffer. */
  function FailPending<D, I>(s: IngestState<D, I>): (r: IngestState<D, I>)
    ensures r.working == r.committed == s.committed && r.nextId == s.nextId
    ensures r.pending == [] && r.failed == s.failed + s.pending
    ensures ValidIngest(s) ==> ValidIngest(r)
  {
    Discard(s).(failed := s.failed + s.pending, pending := [])
  }

  /**
   * The batch block: commit once more than BatchThreshold items are pending;
   * on any error roll back and fail the whole batch; empty the buffer whatever
   * the outcome (the `finally`).
   */
  function CommitBatch<D, I>(s: IngestState<D, I>, outcome: Outcome): (r: IngestState<D, I>)
    ensures |s.pending| <= BatchThreshold ==> r == s
    ensures |s.pending| > BatchThreshold ==> r.pending == [] && r.working == r.committed
    ensures |s.pending| > BatchThreshold && outcome == Success ==>
              r.committed == s.working && r.failed == s.failed
    ensures |s.pending| > BatchThreshold && outcome != Success ==>
              r.committed == s.committed && r.failed == s.failed + s.pending
    ensures |r.pending| <= BatchThreshold && s.failed <= r.failed && r.nextId == s.nextId
    ensures ValidIngest(s) ==> ValidIngest(r)
  {
    if |s.pending| > BatchThreshold then
      var c := Commit(s, outcome);
      if outcome == Success then c.(pending := [])
      else c.(failed := s.failed + s.pending, pending := [])
    else s
  }

  /**
   * Items are conserved by the batch block: every item pending before it is
   * afterwards pending, failed or committed with its batch, and the failed
   * list only grows at its end.
   */
  lemma CommitBatchConserves<D, I>(s: IngestState<D, I>, outcome: Outcome)
    ensures var r := CommitBatch(s, outcome);
      r.failed + r.pending == s.failed + s.pending ||
      (outcome == Success && r.failed == s.failed && r.pending == [] && r.committed == s.working)
  {
  }

  /**
   * create_table: look the table up in the catalog (`lookup` is how that
   * query ends, `present` what it reports); only when it is reported absent,
   * run CREATE TABLE IF NOT EXISTS for `name` and commit. A failed query
   * leaves what AfterFailure says; a failed commit rolls back.
   */
  function EnsureTable<D, I>(s: IngestState<D, I>, name: TableName, lookup: Outcome, present: bool,
                             create: Outcome, commit: Outcome): (r: (IngestState<D, I>, Completion<()>))
    ensures lookup == Success && present ==> r == (s, Returned(()))
    ensures r.1.Returned? <==> lookup == Success && (present || (create == Success && commit == Success))
    ensures r.1.Raised? ==> r.1.error != Success && r.0.committed == s.committed
    ensures r.1.Raised? && Aborts(r.1.error) ==> r.0.working == s.committed
    ensures r.1.Raised? ==> r.0.working == s.committed || r.0.working == s.working
    ensures lookup == Success && !present && r.1.Returned? ==>
              r.0.committed == r.0.working == s.working.(tables := s.working.tables + {name})
    ensures r.0.pending == s.pending && r.0.failed == s.failed && r.0.nextId == s.nextId
    ensures r.0.working.rows == s.working.rows || r.0.working.rows == s.committed.rows
    ensures ValidIngest(s) ==> ValidIngest(r.0)
  {
    if lookup != Success then (AfterFailure(s, lookup), Raised(lookup))
    else if present then (s, Returned(()))
    else if create != Success then (AfterFailure(s, create), Raised(create))
    else
      var created := s.(working := s.working.(tables := s.working.tables + {name}));
      (Commit(created, commit), if commit == Success then Returned(()) else Raised(commit))
  }

  /**
   * create_table on a writer's connection: the catalog lookup, the CREATE of
   * an absent table, the commit. The writer's item lists, passed as ghosts,
   * are not touched.
   */
  method ProvisionTable<D, I>(db: Connection<D>, ghost pending: seq<I>, ghost failed: seq<I>, name: TableName,
                              lookup: Outcome, present: bool, create: Outcome, commit: Outcome)
    returns (c: Completion<()>)
    requires db.Valid()
    modifies db
    ensures db.Valid()
    ensures (IngestState(db.committed, db.working, db.nextId, pending, failed), c) ==
            EnsureTable(IngestState(old(db.committed), old(db.working), old(db.nextId), pending, failed),
                        name, lookup, present, create, commit)
  {
    if lookup == Success && present {
      c := Returned(());
    } else if lookup == Success && create == Success {
      db.CreateTable(name);
      var ok := db.Commit(commit);
      c := if ok then Returned(()) else Raised(commit);
    } else {
      // the lookup or the CREATE raised
      var failure := if lookup != Success then lookup else create;
      if Aborts(failure) {
        db.AbortTransaction();
      }
      c := Raised(failure);
    }
  }

  /**
   * Provisioning twice creates nothing new the second time. The lookup may
   * answer for another table (it names no schema), but once
   * it has found the table it finds it again, since the first call then
   * changed nothing: so the second call leaves the whole state as the first
   * one left it, and a first call that found nothing has created the table.
   */
  lemma EnsureTableTwice<D, I>(s: IngestState<D, I>, name: TableName, present1: bool, present2: bool)
    requires present1 ==> present2
    ensures var once := EnsureTable(s, name, Success, present1, Success, Success).0;
      var twice := EnsureTable(once, name, Success, present2, Success, Success).0;
      twice == once && (!present1 ==> name in twice.working.tables)
  {
  }

  /**
   * A lookup that reports a table of that name in another schema, or one
   * the catalog matched on a spelling the target does not use, creates
   * nothing: the target table stays absent.
   */
  lemma FalsePositiveLookupLeavesTargetAbsent<D, I>(s: IngestState<D, I>, name: TableName, create: Outcome, commit: Outcome)
    requires name !in s.working.tables
    ensures var (r, c) := EnsureTable(s, name, Success, true, create, commit);
      c == Returned(()) && r == s && name !in r.working.tables
  {
  }
}
