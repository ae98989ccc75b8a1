/**
 * The availability events that PostgrePipeline stores: the item it is
 * given, the row it writes, the duplicate key it checks, and the list of
 * event ids it collects during a run.
 */
module Events {
  import opened Sql

  /**
   * A scraped item: the thirteen columns the INSERT names. The four
   * duplicate-key columns and the timestamps may be NULL.
   */
  datatype EventItem = EventItem(
    kind: Value,          // `type`
    company: Value,
    facility: Value,
    unit: Value,
    fuel: Value,
    controlArea: Value,
    beginTs: Option<int>,
    endTs: Option<int>,
    limitation: Value,
    reason: Value,
    status: Value,
    eventId: EventId,
    lastUpdate: Option<int>)

  /** The `event_id` column; it may be NULL. */
  type EventId = Option<string>

  /** A stored row: the item's columns and `version_no`. */
  datatype EventRecord = EventRecord(item: EventItem, versionNo: int)

  /** `version_no INTEGER DEFAULT 1`: what an INSERT that does not name the column stores. */
  const DefaultVersion: int := 1

  /** The WHERE clause of the duplicate query: all four key columns equal, in SQL's sense. */
  predicate DuplicateKey(stored: EventItem, item: EventItem) {
    SqlEq(stored.eventId, item.eventId) && SqlEq(stored.beginTs, item.beginTs) &&
    SqlEq(stored.endTs, item.endTs) && SqlEq(stored.lastUpdate, item.lastUpdate)
  }

  /** The duplicate query returns at least one row. */
  predicate DuplicateExists(rows: seq<Row<EventRecord>>, item: EventItem) {
    exists i :: 0 <= i < |rows| && DuplicateKey(rows[i].data.item, item)
  }

  /** None of the four key columns is NULL, so the item can match a stored row at all. */
  predicate KeyNonNull(item: EventItem) {
    item.eventId.Some? && item.beginTs.Some? && item.endTs.Some? && item.lastUpdate.Some?
  }

  /** A stored item is a duplicate of itself exactly when its key has no NULL. */
  lemma DuplicateOfItself(rows: seq<Row<EventRecord>>, i: nat)
    requires i < |rows|
    ensures DuplicateExists(rows, rows[i].data.item) <== KeyNonNull(rows[i].data.item)
  {
    assert DuplicateKey(rows[i].data.item, rows[i].data.item) <== KeyNonNull(rows[i].data.item);
  }

  /** An item with a NULL key column never matches, so it is inserted every time it is submitted. */
  lemma NullKeyNeverDuplicate(rows: seq<Row<EventRecord>>, item: EventItem)
    requires !KeyNonNull(item)
    ensures !DuplicateExists(rows, item)
  {
  }

  predicate Distinct<T(==)>(s: seq<T>) {
    forall i, j :: 0 <= i < j < |s| ==> s[i] != s[j]
  }

  /**
   * Records an event id unless the list already holds it; membership is
   * tested with `==`, so None is recorded at most once too.
   */
  function AppendOnce(ids: seq<EventId>, x: EventId): (r: seq<EventId>)
    ensures x in r && ids <= r && |r| <= |ids| + 1
    ensures forall y :: y in r <==> y in ids || y == x
    ensures Distinct(ids) ==> Distinct(r)
  {
    if x in ids then ids else ids + [x]
  }

  /**
   * The event-id list after recording each of `xs` in turn, starting from
   * `ids`: it extends `ids` by exactly the ids of `xs` not yet in it, and it
   * stays free of repeats.
   */
  function AppendAll(ids: seq<EventId>, xs: seq<EventId>): (r: seq<EventId>)
    ensures ids <= r
    ensures forall y :: y in r <==> y in ids || y in xs
    ensures Distinct(ids) ==> Distinct(r)
    decreases |xs|
  {
    if xs == [] then ids else AppendAll(AppendOnce(ids, xs[0]), xs[1..])
  }

  /** Reference definition: the elements of `xs` at their first occurrence, in that order. */
  function FirstOccurrences(xs: seq<EventId>): (r: seq<EventId>)
    ensures forall y :: y in r <==> y in xs
    ensures Distinct(r)
  {
    if xs == [] then []
    else
      var init := FirstOccurrences(xs[..|xs| - 1]);
      var last := xs[|xs| - 1];
      assert xs == xs[..|xs| - 1] + [last];
      if last in xs[..|xs| - 1] then init else init + [last]
  }

  lemma AppendAllSplit(ids: seq<EventId>, xs: seq<EventId>, x: EventId)
    ensures AppendAll(ids, xs + [x]) == AppendOnce(AppendAll(ids, xs), x)
    decreases |xs|
  {
    if xs == [] {
      assert [x][1..] == [];
    } else {
      assert (xs + [x])[1..] == xs[1..] + [x];
      AppendAllSplit(AppendOnce(ids, xs[0]), xs[1..], x);
    }
  }

  /**
   * Folding AppendOnce over a sequence of recorded ids, from an empty list,
   * keeps each of those ids exactly once, in the order each first occurs.
   */
  lemma {:induction false} AppendAllIsFirstOccurrences(xs: seq<EventId>)
    ensures AppendAll([], xs) == FirstOccurrences(xs)
    decreases |xs|
  {
    if xs != [] {
      var init := xs[..|xs| - 1];
      var last := xs[|xs| - 1];
      assert xs == init + [last];
      AppendAllIsFirstOccurrences(init);
      AppendAllSplit([], init, last);
      assert (last in FirstOccurrences(init)) == (last in init);
    }
  }
}
