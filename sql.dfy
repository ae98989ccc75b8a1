/**
 * The relational database as the ingestion code sees it through psycopg2:
 * column values with SQL's NULL, the exception classes a statement can
 * raise, and one connection whose transaction is either committed or
 * thrown away.
 */
module Sql {

  datatype Option<T> = None | Some(value: T)

  /** A column the ingestion logic stores but never inspects (text and DOUBLE PRECISION columns). */
  datatype Value = Null | Text(text: string) | Number(number: real)

  /**
   * How one SQL step ends, by the psycopg2 exception class it raises and by
   * where it is raised: by the server (or with the session lost), or by the
   * client while it builds the statement, before anything is sent.
   */
  datatype Outcome =
    | Success
    | DataError       // psycopg2.DataError from the server
    | IntegrityError  // psycopg2.IntegrityError from the server
    | OtherDbError    // any other psycopg2.DatabaseError from the server (OperationalError, InternalError, ...)
    | NonDbError      // an exception outside DatabaseError that ends the session (InterfaceError on a closed connection)
    | ClientDbError   // a DatabaseError raised before sending (ProgrammingError "can't adapt type")
    | ClientError     // an exception outside DatabaseError raised before sending (KeyError for a missing parameter)

  /** DataError and IntegrityError are the subclasses of DatabaseError that the handlers treat as data faults. */
  predicate IsDataFault(o: Outcome) {
    o == DataError || o == IntegrityError
  }

  /** The other exceptions an `except psycopg2.DatabaseError` clause catches. */
  predicate IsOtherDatabaseError(o: Outcome) {
    o == OtherDbError || o == ClientDbError
  }

  /**
   * The statement reached the server and failed there, or the session was
   * lost: the transaction is aborted and none of its work can be committed.
   * A failure raised before the statement is sent leaves the transaction open.
   */
  predicate Aborts(o: Outcome) {
    IsDataFault(o) || o == OtherDbError || o == NonDbError
  }

  /** A Python call either returns a value or lets an exception propagate. */
  datatype Completion<T> = Returned(value: T) | Raised(error: Outcome)

  /** SQL `a = b`: NULL compares unknown, and a WHERE clause keeps only true. */
  predicate SqlEq<T(==)>(a: Option<T>, b: Option<T>) {
    a.Some? && b.Some? && a.value == b.value
  }

  /** SQL `a < b` on timestamps, again never true when either side is NULL. */
  predicate SqlLess(a: Option<int>, b: Option<int>) {
    a.Some? && b.Some? && a.value < b.value
  }

  /** `a` may come before `b` under ORDER BY ... ASC, where NULLs sort last. */
  predicate NotAfter(a: Option<int>, b: Option<int>) {
    match (a, b)
    case (None, None) => true
    case (Some(_), None) => true
    case (None, Some(_)) => false
    case (Some(x), Some(y)) => x <= y
  }

  lemma NotAfterTotal(a: Option<int>, b: Option<int>)
    ensures NotAfter(a, b) || NotAfter(b, a)
    ensures NotAfter(a, b) && NotAfter(b, a) ==> a == b
  {
  }

  lemma NotAfterTransitive(a: Option<int>, b: Option<int>, c: Option<int>)
    requires NotAfter(a, b) && NotAfter(b, c)
    ensures NotAfter(a, c)
  {
  }

  /** A stored row: the BIGSERIAL primary key and the other columns. */
  datatype Row<D> = Row(id: nat, data: D)

  /** A table in the catalog; `schema` is None for an unqualified name resolved by the search path. */
  datatype TableName = TableName(schema: Option<string>, name: string)

  /** What one transaction sees: the tables of the catalog and the rows of the target table. */
  datatype Snapshot<D> = Snapshot(tables: set<TableName>, rows: seq<Row<D>>)

  /** Primary keys are distinct and were all handed out before `nextId`. */
  ghost predicate ValidSnapshot<D>(s: Snapshot<D>, nextId: nat) {
    (forall i :: 0 <= i < |s.rows| ==> s.rows[i].id < nextId) &&
    (forall i, j :: 0 <= i < j < |s.rows| ==> s.rows[i].id != s.rows[j].id)
  }

  function LowerChar(c: char): char {
    if 'A' <= c <= 'Z' then (c as int + 32) as char else c
  }

  /** Python's `str.lower()`, restricted to ASCII letters. */
  function Lower(s: string): (r: string)
    ensures |r| == |s|
    ensures forall i :: 0 <= i < |s| ==> r[i] == LowerChar(s[i])
    ensures forall i :: 0 <= i < |r| ==> !('A' <= r[i] <= 'Z')
  {
    seq(|s|, i requires 0 <= i < |s| => LowerChar(s[i]))
  }

  /**
   * The database together with the one session the ingestion code holds.
   * `committed` is what every future session sees; `working` is what the
   * current transaction sees. The id sequence is not transactional: it is
   * never rolled back.
   */
  class Connection<D> {
    var committed: Snapshot<D>
    var working: Snapshot<D>
    var nextId: nat

    ghost predicate Valid()
      reads this
    {
      ValidSnapshot(committed, nextId) && ValidSnapshot(working, nextId)
    }

    /** psycopg2.connect: a fresh session on a database holding `initial`. */
    constructor (initial: Snapshot<D>, firstId: nat)
      requires ValidSnapshot(initial, firstId)
      ensures Valid()
      ensures committed == initial && working == initial && nextId == firstId
    {
      committed := initial;
      working := initial;
      nextId := firstId;
    }

    /** connection.commit(); a failed commit leaves the transaction rolled back. */
    method Commit(outcome: Outcome) returns (ok: bool)
      requires Valid()
      modifies this
      ensures Valid()
      ensures ok <==> outcome == Success
      ensures committed == (if ok then old(working) else old(committed))
      ensures working == committed && nextId == old(nextId)
    {
      ok := outcome == Success;
      if ok {
        committed := working;
      } else {
        working := committed;
      }
    }

    /** connection.rollback(). */
    method Rollback()
      requires Valid()
      modifies this
      ensures Valid()
      ensures committed == old(committed) && working == committed && nextId == old(nextId)
    {
      working := committed;
    }

    /** A new psycopg2.connect in place of the old one: the old session's uncommitted work is gone. */
    method Reconnect()
      requires Valid()
      modifies this
      ensures Valid()
      ensures committed == old(committed) && working == committed && nextId == old(nextId)
    {
      working := committed;
    }

    /** A statement that fails on the server aborts the transaction: none of its work can be committed any more. */
    method AbortTransaction()
      requires Valid()
      modifies this
      ensures Valid()
      ensures committed == old(committed) && working == committed && nextId == old(nextId)
    {
      working := committed;
    }

    /** INSERT of one row: the row gets the next value of the id sequence. */
    method Insert(data: D) returns (id: nat)
      requires Valid()
      modifies this
      ensures Valid()
      ensures id == old(nextId) && nextId == id + 1
      ensures working == old(working).(rows := old(working).rows + [Row(id, data)])
      ensures committed == old(committed)
    {
      id := nextId;
      nextId := nextId + 1;
      working := working.(rows := working.rows + [Row(id, data)]);
    }

    /** An UPDATE that rewrites columns in place: every row keeps its position and its id. */
    method Update(rows: seq<Row<D>>)
      requires Valid()
      requires |rows| == |working.rows| && forall p :: 0 <= p < |rows| ==> rows[p].id == working.rows[p].id
      modifies this
      ensures Valid()
      ensures working == old(working).(rows := rows)
      ensures committed == old(committed) && nextId == old(nextId)
    {
      working := working.(rows := rows);
    }

    /** CREATE TABLE IF NOT EXISTS: nothing happens when the table is already there. */
    method CreateTable(name: TableName)
      requires Valid()
      modifies this
      ensures Valid()
      ensures working == old(working).(tables := old(working).tables + {name})
      ensures committed == old(committed) && nextId == old(nextId)
    {
      working := working.(tables := working.tables + {name});
    }
  }
}
