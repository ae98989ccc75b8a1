/**
 * PostgrePipeline: the Scrapy item pipeline that stores availability events
 * in the table `covalis1.<table>`. Each item is checked against its
 * duplicate key and inserted when new; inserts are committed in batches;
 * at the end of the run every collected event id is renumbered.
 *
 * The pure functions below (Upsert, Process, Close and their helpers) say
 * what one call does to the abstract state; the class PostgrePipeline
 * performs the same steps on a connection and its lists, and each of its
 * methods is proved to end in the state the function describes.
 */
module Pipeline {
  import opened Sql
  import opened Ingest
  import opened Events
  import opened Versioning

  /** The schema every query of the pipeline names. */
  const Schema: string := "covalis1"

  type Store = IngestState<EventRecord, EventItem>

  /** The abstract value of a PostgrePipeline. */
  datatype PipelineState = PipelineState(
    store: Store,
    eventIds: seq<EventId>,  // `event_ids`
    inserted: nat,           // `db_inserted_item_count`
    passed: nat)             // `db_passed_item_count`

  ghost predicate ValidPipeline(s: PipelineState) {
    ValidIngest(s.store) && Distinct(s.eventIds)
  }

  /** How each SQL step of one process_item call ends. */
  datatype Faults = Faults(
    select: Outcome,       // the duplicate query
    insert: Outcome,       // the INSERT
    reconnect: Outcome,    // psycopg2.connect in the DatabaseError handler
    retrySelect: Outcome,  // the duplicate query of the retry
    retryInsert: Outcome,  // the INSERT of the retry
    commit: Outcome)       // the batch commit

  /**
   * The table the pipeline writes, as create_table names it: in the schema,
   * under the lower-cased name. The name is already folded, so the unquoted
   * name in postgre_upsert's queries, which PostgreSQL folds to lower case,
   * reaches the same table.
   */
  function Target(tableName: string): (r: TableName)
    ensures r.schema == Some(Schema) && |r.name| == |tableName|
    ensures forall i :: 0 <= i < |tableName| ==> r.name[i] == LowerChar(tableName[i])
    ensures Lower(r.name) == r.name
  {
    assert forall i :: 0 <= i < |tableName| ==> LowerChar(LowerChar(tableName[i])) == LowerChar(tableName[i]);
    TableName(Some(Schema), Lower(tableName))
  }

  /** The row an INSERT of `item` adds: the next id and the default version number. */
  function NewRow(s: Store, item: EventItem): Row<EventRecord> {
    Row(s.nextId, EventRecord(item, DefaultVersion))
  }

  /**
   * postgre_upsert: query for a duplicate; count a match as passed;
   * otherwise queue the item and INSERT it; finally record its event id.
   * A failing statement leaves what AfterFailure says (a failure on the
   * server aborts the transaction, one raised while the parameters are
   * bound leaves it open) and the error propagates.
   */
  function Upsert(s: PipelineState, item: EventItem, select: Outcome, insert: Outcome): (r: (PipelineState, Completion<()>))
    ensures r.1.Returned? <==> select == Success && (DuplicateExists(s.store.working.rows, item) || insert == Success)
    ensures r.1.Raised? ==>
              r.1.error != Success && r.0.eventIds == s.eventIds && r.0.inserted == s.inserted &&
              r.0.store.working == (if Aborts(r.1.error) then s.store.committed else s.store.working)
    ensures r.1.Raised? ==> r.0.passed == s.passed && r.0.store.nextId == s.store.nextId
    ensures select != Success ==> r.0.store.pending == s.store.pending
    ensures r.1.Returned? ==> r.0.eventIds == AppendOnce(s.eventIds, item.eventId)
    ensures select == Success && DuplicateExists(s.store.working.rows, item) ==>
              r.0.store == s.store && r.0.inserted == s.inserted && r.0.passed == s.passed + 1
    ensures select == Success && !DuplicateExists(s.store.working.rows, item) ==>
              r.0.store.pending == s.store.pending + [item] && r.0.passed == s.passed
    ensures select == Success && !DuplicateExists(s.store.working.rows, item) && insert == Success ==>
              r.0.store.working.rows == s.store.working.rows + [NewRow(s.store, item)] &&
              r.0.store.working.tables == s.store.working.tables &&
              r.0.store.nextId == s.store.nextId + 1 && r.0.inserted == s.inserted + 1
    ensures r.0.store.committed == s.store.committed && r.0.store.failed == s.store.failed
    ensures r.0.store.nextId >= s.store.nextId
    ensures ValidPipeline(s) ==> ValidPipeline(r.0)
  {
    var st := s.store;
    if select != Success then
      (s.(store := AfterFailure(st, select)), Raised(select))
    else if DuplicateExists(st.working.rows, item) then
      (s.(passed := s.passed + 1, eventIds := AppendOnce(s.eventIds, item.eventId)), Returned(()))
    else
      var queued := st.(pending := st.pending + [item]);
      if insert != Success then
        (s.(store := AfterFailure(queued, insert)), Raised(insert))
      else
        var stored := queued.(working := st.working.(rows := st.working.rows + [NewRow(st, item)]),
                              nextId := st.nextId + 1);
        (PipelineState(stored, AppendOnce(s.eventIds, item.eventId), s.inserted + 1, s.passed), Returned(()))
  }

  /** The first postgre_upsert of process_item ends in a DataError or IntegrityError, which the handler swallows. */
  predicate HandledDataFault(s: PipelineState, item: EventItem, f: Faults) {
    IsDataFault(f.select) ||
    (f.select == Success && !DuplicateExists(s.store.working.rows, item) && IsDataFault(f.insert))
  }

  /**
   * The first postgre_upsert of process_item ends in a DatabaseError other
   * than DataError and IntegrityError, which sends it to the reconnect path.
   */
  predicate ReconnectFault(s: PipelineState, item: EventItem, f: Faults) {
    IsOtherDatabaseError(f.select) ||
    (f.select == Success && !DuplicateExists(s.store.working.rows, item) && IsOtherDatabaseError(f.insert))
  }

  /**
   * process_item: upsert; on DataError or IntegrityError roll back and fail
   * the pending batch; on any other DatabaseError reconnect and upsert the
   * item once more, unguarded; then run the batch block. What is left
   * raised propagates, skipping the batch block: it leaves the transaction
   * either rolled back or exactly as it was, and it is rolled back whenever
   * the duplicate query failed on the server.
   */
  function Process(s: PipelineState, item: EventItem, f: Faults): (r: (PipelineState, Completion<EventItem>))
    ensures r.1.Returned? ==> r.1.value == item && |r.0.store.pending| <= BatchThreshold
    ensures r.1.Returned? <==>
              (f.select == Success && (DuplicateExists(s.store.working.rows, item) || f.insert == Success)) ||
              HandledDataFault(s, item, f) ||
              (ReconnectFault(s, item, f) && f.reconnect == Success && f.retrySelect == Success &&
               (DuplicateExists(s.store.committed.rows, item) || f.retryInsert == Success))
    ensures r.1.Raised? ==>
              r.1.error != Success && r.0.store.committed == s.store.committed && r.0.store.failed == s.store.failed &&
              (r.0.store.working == s.store.committed || r.0.store.working == s.store.working)
    ensures r.1.Raised? && Aborts(f.select) ==> r.0.store.working == s.store.committed
    ensures r.0.eventIds == if r.1.Returned? && !HandledDataFault(s, item, f) then AppendOnce(s.eventIds, item.eventId)
                            else s.eventIds
    ensures r.0.store.committed == s.store.committed || r.0.store.pending == []
    ensures ValidPipeline(s) ==> ValidPipeline(r.0)
  {
    var (s1, c1) := Upsert(s, item, f.select, f.insert);
    if c1.Returned? then
      (s1.(store := CommitBatch(s1.store, f.commit)), Returned(item))
    else if IsDataFault(c1.error) then
      (s1.(store := CommitBatch(FailPending(s1.store), f.commit)), Returned(item))
    else if IsOtherDatabaseError(c1.error) then
      if f.reconnect != Success then (s1, Raised(f.reconnect))
      else
        var (s2, c2) := Upsert(s1.(store := Discard(s1.store)), item, f.retrySelect, f.retryInsert);
        if c2.Raised? then (s2, Raised(c2.error))
        else (s2.(store := CommitBatch(s2.store, f.commit)), Returned(item))
    else
      (s1, Raised(c1.error))
  }

  /** `ks` lists positions below `n`, in strictly increasing order. */
  predicate Positions(ks: seq<nat>, n: nat) {
    (forall j :: 0 <= j < |ks| ==> ks[j] < n) &&
    (forall j, j2 :: 0 <= j < j2 < |ks| ==> ks[j] < ks[j2])
  }

  /** The event ids of the items at positions `ks`, in that order. */
  function IdsAt(items: seq<EventItem>, ks: seq<nat>): (r: seq<EventId>)
    requires forall j :: 0 <= j < |ks| ==> ks[j] < |items|
    ensures |r| == |ks|
    decreases |ks|
  {
    if ks == [] then [] else [items[ks[0]].eventId] + IdsAt(items, ks[1..])
  }

  /**
   * A run of process_item calls, one per item with the faults of that call;
   * an exception ends only the call that raised it. Also returns the
   * positions of the items the run recorded: those whose postgre_upsert
   * returned normally, data-fault upserts excluded.
   */
  function ProcessRun(s: PipelineState, items: seq<EventItem>, fs: seq<Faults>): (r: (PipelineState, seq<nat>))
    requires |fs| == |items|
    ensures Positions(r.1, |items|) && |r.1| <= |items|
    ensures r.0.eventIds == AppendAll(s.eventIds, IdsAt(items, r.1))
    ensures items != [] ==>
              (0 in r.1 <==> Process(s, items[0], fs[0]).1.Returned? && !HandledDataFault(s, items[0], fs[0]))
    ensures ValidPipeline(s) ==> ValidPipeline(r.0)
    decreases |items|
  {
    if items == [] then (s, [])
    else
      var (s1, c) := Process(s, items[0], fs[0]);
      var here: seq<nat> := if c.Returned? && !HandledDataFault(s, items[0], fs[0]) then [0] else [];
      var (s2, rest) := ProcessRun(s1, items[1..], fs[1..]);
      var shifted := seq(|rest|, j requires 0 <= j < |rest| => rest[j] + 1);
      RecordedCons(s.eventIds, s1.eventIds, here, rest, shifted, items);
      (s2, here + shifted)
  }

  /** The step of ProcessRun: the recorded positions of the tail, moved up by one, follow the head's. */
  lemma RecordedCons(ids: seq<EventId>, ids1: seq<EventId>, here: seq<nat>, rest: seq<nat>, shifted: seq<nat>, items: seq<EventItem>)
    requires items != [] && (here == [] || here == [0])
    requires ids1 == if here == [] then ids else AppendOnce(ids, items[0].eventId)
    requires Positions(rest, |items| - 1)
    requires shifted == seq(|rest|, j requires 0 <= j < |rest| => rest[j] + 1)
    ensures Positions(here + shifted, |items|)
    ensures AppendAll(ids1, IdsAt(items[1..], rest)) == AppendAll(ids, IdsAt(items, here + shifted))
    ensures 0 in here + shifted <==> here != []
  {
    ShiftedPositions(here, rest, shifted, |items|);
    ShiftedIds(items, rest, shifted);
    if here != [] {
      var ks := here + shifted;
      assert ks[0] == 0 && ks[1..] == shifted;
      var tail := IdsAt(items, shifted);
      assert IdsAt(items, ks) == [items[0].eventId] + tail;
      assert ([items[0].eventId] + tail)[1..] == tail;
    } else {
      assert here + shifted == shifted;
    }
  }

  lemma ShiftedPositions(here: seq<nat>, rest: seq<nat>, shifted: seq<nat>, n: nat)
    requires n > 0 && (here == [] || here == [0])
    requires Positions(rest, n - 1)
    requires shifted == seq(|rest|, j requires 0 <= j < |rest| => rest[j] + 1)
    ensures Positions(here + shifted, n)
    ensures 0 in here + shifted <==> here != []
  {
    var ks := here + shifted;
    assert forall j :: 0 <= j < |shifted| ==> shifted[j] > 0;
    assert forall j :: |here| <= j < |ks| ==> ks[j] == shifted[j - |here|];
  }

  lemma {:induction false} ShiftedIds(items: seq<EventItem>, rest: seq<nat>, shifted: seq<nat>)
    requires items != [] && Positions(rest, |items| - 1)
    requires shifted == seq(|rest|, j requires 0 <= j < |rest| => rest[j] + 1)
    ensures IdsAt(items, shifted) == IdsAt(items[1..], rest)
    decreases |rest|
  {
    if rest != [] {
      assert shifted[1..] == seq(|rest[1..]|, j requires 0 <= j < |rest[1..]| => rest[1..][j] + 1);
      ShiftedIds(items, rest[1..], shifted[1..]);
    }
  }

  /**
   * On a pipeline that starts with no event ids, a run leaves in `event_ids`
   * every event id it recorded, once each, in the order each was first
   * recorded.
   */
  lemma RunRecordsFirstOccurrences(s: PipelineState, items: seq<EventItem>, fs: seq<Faults>)
    requires |fs| == |items| && s.eventIds == []
    ensures var (r, recorded) := ProcessRun(s, items, fs);
      r.eventIds == FirstOccurrences(IdsAt(items, recorded))
  {
    var recorded := ProcessRun(s, items, fs).1;
    AppendAllIsFirstOccurrences(IdsAt(items, recorded));
  }

  /**
   * update_version_no for `e` along the listing `ord` of its rows, then commit;
   * `outcome` is how the call ends. A failure on the server, in any of its
   * statements or in the commit, rolls the transaction back. A failure raised
   * before a statement is sent can only come from the first one, the SELECT
   * (the UPDATEs bind two integers), and leaves everything as it was.
   */
  function Renumber(st: Store, e: EventId, ord: seq<nat>, outcome: Outcome): (r: Store)
    ensures outcome == Success || Aborts(outcome) ==> r.working == r.committed
    ensures outcome != Success && !Aborts(outcome) ==> r == st
    ensures outcome == Success ==> r.committed == st.working.(rows := Renumbered(st.working.rows, ord))
    ensures outcome != Success ==> r.committed == st.committed
    ensures r.pending == st.pending && r.failed == st.failed && r.nextId == st.nextId
    ensures ValidIngest(st) ==> ValidIngest(r)
  {
    if outcome != Success && !Aborts(outcome) then st
    else
      var renumbered := st.(working := st.working.(rows := Renumbered(st.working.rows, ord)));
      SameIdsKeepValid(st.working, renumbered.working, st.nextId);
      Commit(renumbered, outcome)
  }

  /** A table whose rows keep their ids is valid whenever the original was. */
  lemma SameIdsKeepValid(a: Snapshot<EventRecord>, b: Snapshot<EventRecord>, nextId: nat)
    requires SameExceptVersions(a.rows, b.rows)
    ensures ValidSnapshot(a, nextId) ==> ValidSnapshot(b, nextId)
  {
  }

  /**
   * `ords` are answers the ordered query can give on each successive call
   * of update_version_no for `ids`, with `outcomes` the way each call ends;
   * there is one listing per call made, and the calls stop at the first
   * failure.
   */
  predicate RunAdmissible(st: Store, ids: seq<EventId>, outcomes: seq<Outcome>, ords: seq<seq<nat>>)
    requires |outcomes| == |ids|
    decreases |ids|
  {
    if ids == [] then ords == []
    else
      |ords| > 0 && Admissible(st.working.rows, ids[0], ords[0]) &&
      (if outcomes[0] == Success then
         RunAdmissible(Renumber(st, ids[0], ords[0], Success), ids[1..], outcomes[1..], ords[1..])
       else |ords| == 1)
  }

  /** The loop of close_spider over `event_ids`: an exception from one call ends it. */
  function RenumberAll(st: Store, ids: seq<EventId>, outcomes: seq<Outcome>, ords: seq<seq<nat>>): (r: (Store, Completion<()>))
    requires |outcomes| == |ids| && RunAdmissible(st, ids, outcomes, ords)
    ensures r.1 == Returned(()) || (r.1.Raised? && r.1.error != Success)
    ensures r.0.pending == st.pending && r.0.failed == st.failed && r.0.nextId == st.nextId
    ensures ids != [] && r.1.Returned? ==> r.0.working == r.0.committed
    ensures st.working == st.committed ==> r.0.working == r.0.committed
    ensures ValidIngest(st) ==> ValidIngest(r.0)
    decreases |ids|
  {
    if ids == [] then (st, Returned(()))
    else
      var st1 := Renumber(st, ids[0], ords[0], outcomes[0]);
      if outcomes[0] != Success then (st1, Raised(outcomes[0]))
      else RenumberAll(st1, ids[1..], outcomes[1..], ords[1..])
  }

  /** The final commit of close_spider; only DataError is handled, any other error propagates. */
  function CloseCommit(st: Store, commit: Outcome): (r: (Store, Completion<()>))
    ensures r.1.Returned? <==> commit == Success || commit == DataError
    ensures r.1.Returned? ==> r.0.pending == [] && r.0.working == r.0.committed
    ensures commit == Success ==> r.0.committed == st.working && r.0.failed == st.failed
    ensures commit != Success ==> r.0.committed == st.committed
    ensures commit == DataError ==> r.0.failed == st.failed + st.pending
    ensures r.1.Raised? ==> r.1.error == commit && r.0.pending == st.pending && r.0.failed == st.failed
    ensures ValidIngest(st) ==> ValidIngest(r.0)
  {
    var c := Commit(st, commit);
    if commit == Success then (c.(pending := []), Returned(()))
    else if commit == DataError then (FailPending(c), Returned(()))
    else (c, Raised(commit))
  }

  /** The listings for close_spider: none when the final commit raises. */
  predicate CloseAdmissible(s: PipelineState, commit: Outcome, outcomes: seq<Outcome>, ords: seq<seq<nat>>)
    requires |outcomes| == |s.eventIds|
  {
    var (st, c) := CloseCommit(s.store, commit);
    if c.Raised? then ords == [] else RunAdmissible(st, s.eventIds, outcomes, ords)
  }

  /** close_spider: the final commit, then update_version_no for every collected id, then clear the ids. */
  function Close(s: PipelineState, commit: Outcome, outcomes: seq<Outcome>, ords: seq<seq<nat>>): (r: (PipelineState, Completion<()>))
    requires |outcomes| == |s.eventIds| && CloseAdmissible(s, commit, outcomes, ords)
    ensures r.0.inserted == s.inserted && r.0.passed == s.passed
    ensures r.1.Returned? <==>
              (commit == Success || commit == DataError) && forall k :: 0 <= k < |outcomes| ==> outcomes[k] == Success
    ensures r.1.Returned? ==> r.0.eventIds == []
    ensures r.1.Raised? ==> r.0.eventIds == s.eventIds
    ensures ValidPipeline(s) ==> ValidPipeline(r.0)
  {
    var (st, c) := CloseCommit(s.store, commit);
    if c.Raised? then (s.(store := st), c)
    else
      var (st2, c2) := RenumberAll(st, s.eventIds, outcomes, ords);
      RenumberAllReturns(st, s.eventIds, outcomes, ords);
      (s.(store := st2, eventIds := if c2.Returned? then [] else s.eventIds), c2)
  }

  lemma {:induction false} RenumberAllReturns(st: Store, ids: seq<EventId>, outcomes: seq<Outcome>, ords: seq<seq<nat>>)
    requires |outcomes| == |ids| && RunAdmissible(st, ids, outcomes, ords)
    ensures RenumberAll(st, ids, outcomes, ords).1.Returned? <==> forall k :: 0 <= k < |outcomes| ==> outcomes[k] == Success
    decreases |ids|
  {
    if ids != [] && outcomes[0] == Success {
      var st1 := Renumber(st, ids[0], ords[0], Success);
      RenumberAllReturns(st1, ids[1..], outcomes[1..], ords[1..]);
      assert forall k :: 1 <= k < |outcomes| ==> outcomes[k] == outcomes[1..][k - 1];
    }
  }

  /**
   * Running the loop over `xs + ys` is running it over `xs` and then, if that
   * returned, over `ys` from where it stopped.
   */
  lemma {:induction false} RenumberAllSplit(st: Store, xs: seq<EventId>, xo: seq<Outcome>, xords: seq<seq<nat>>,
                                            ys: seq<EventId>, yo: seq<Outcome>, yords: seq<seq<nat>>)
    requires |xo| == |xs| && |yo| == |ys| && RunAdmissible(st, xs, xo, xords)
    requires RenumberAll(st, xs, xo, xords).1.Returned?
    ensures var mid := RenumberAll(st, xs, xo, xords).0;
      (RunAdmissible(st, xs + ys, xo + yo, xords + yords) <==> RunAdmissible(mid, ys, yo, yords)) &&
      (RunAdmissible(mid, ys, yo, yords) ==>
         RenumberAll(st, xs + ys, xo + yo, xords + yords) == RenumberAll(mid, ys, yo, yords))
    decreases |xs|
  {
    if xs == [] {
      assert xs + ys == ys && xo + yo == yo && xords + yords == yords;
    } else {
      SplitTail(xs, ys);
      SplitTail(xo, yo);
      SplitTail(xords, yords);
      var st1 := Renumber(st, xs[0], xords[0], xo[0]);
      assert RenumberAll(st, xs, xo, xords) == RenumberAll(st1, xs[1..], xo[1..], xords[1..]);
      RenumberAllSplit(st1, xs[1..], xo[1..], xords[1..], ys, yo, yords);
    }
  }

  /** One more successful call after the first `i` calls of the loop returned in `cur`. */
  lemma RenumberAllStep(st: Store, ids: seq<EventId>, outcomes: seq<Outcome>, ords: seq<seq<nat>>,
                        i: nat, cur: Store, ord: seq<nat>)
    requires i < |ids| == |outcomes| && outcomes[i] == Success
    requires RunAdmissible(st, ids[..i], outcomes[..i], ords)
    requires RenumberAll(st, ids[..i], outcomes[..i], ords) == (cur, Returned(()))
    requires Admissible(cur.working.rows, ids[i], ord)
    ensures RunAdmissible(st, ids[..i + 1], outcomes[..i + 1], ords + [ord])
    ensures RenumberAll(st, ids[..i + 1], outcomes[..i + 1], ords + [ord]) == (Renumber(cur, ids[i], ord, Success), Returned(()))
  {
    var xs, xo := ids[..i], outcomes[..i];
    PrefixExtend(ids, i);
    PrefixExtend(outcomes, i);
    var next := Renumber(cur, ids[i], ord, Success);
    assert RenumberAll(next, [], [], []) == (next, Returned(()));
    assert RunAdmissible(cur, [ids[i]], [Success], [ord]);
    assert RenumberAll(cur, [ids[i]], [Success], [ord]) == (next, Returned(()));
    RenumberAllSplit(st, xs, xo, ords, [ids[i]], [Success], [ord]);
  }

  /** A failing call after the first `i` calls of the loop returned in `cur` ends the loop. */
  lemma RenumberAllStop(st: Store, ids: seq<EventId>, outcomes: seq<Outcome>, ords: seq<seq<nat>>,
                        i: nat, cur: Store, ord: seq<nat>)
    requires i < |ids| == |outcomes| && outcomes[i] != Success
    requires RunAdmissible(st, ids[..i], outcomes[..i], ords)
    requires RenumberAll(st, ids[..i], outcomes[..i], ords) == (cur, Returned(()))
    requires Admissible(cur.working.rows, ids[i], ord)
    ensures RunAdmissible(st, ids, outcomes, ords + [ord])
    ensures RenumberAll(st, ids, outcomes, ords + [ord]) == (Renumber(cur, ids[i], ord, outcomes[i]), Raised(outcomes[i]))
  {
    var rest, restOutcomes := ids[i..], outcomes[i..];
    assert rest[0] == ids[i] && restOutcomes[0] == outcomes[i];
    assert RunAdmissible(cur, rest, restOutcomes, [ord]);
    RenumberAllSplit(st, ids[..i], outcomes[..i], ords, rest, restOutcomes, [ord]);
    PrefixSuffix(ids, i);
    PrefixSuffix(outcomes, i);
  }

  lemma PrefixExtend<T>(s: seq<T>, i: nat)
    requires i < |s|
    ensures s[..i + 1] == s[..i] + [s[i]]
  {
  }

  lemma PrefixSuffix<T>(s: seq<T>, i: nat)
    requires i <= |s|
    ensures s == s[..i] + s[i..]
  {
  }

  lemma SplitTail<T>(xs: seq<T>, ys: seq<T>)
    requires xs != []
    ensures (xs + ys)[0] == xs[0] && (xs + ys)[1..] == xs[1..] + ys
  {
  }

  /**
   * When every call of the loop succeeds, each collected event id ends well
   * numbered in the committed table, groups already well numbered stay so,
   * and nothing but version numbers changes.
   */
  lemma {:induction false} RenumberAllWellNumbers(st: Store, ids: seq<EventId>, outcomes: seq<Outcome>, ords: seq<seq<nat>>)
    requires |outcomes| == |ids| && RunAdmissible(st, ids, outcomes, ords) && Distinct(ids)
    requires forall k :: 0 <= k < |outcomes| ==> outcomes[k] == Success
    ensures var r := RenumberAll(st, ids, outcomes, ords).0;
      SameExceptVersions(st.working.rows, r.working.rows) &&
      forall e :: e in ids || WellNumbered(st.working.rows, e) ==> WellNumbered(r.working.rows, e)
    decreases |ids|
  {
    if ids != [] {
      var st1 := Renumber(st, ids[0], ords[0], Success);
      assert Distinct(ids[1..]);
      assert forall k :: 0 <= k < |outcomes| - 1 ==> outcomes[1..][k] == outcomes[k + 1];
      RenumberAllWellNumbers(st1, ids[1..], outcomes[1..], ords[1..]);
      assert RenumberAll(st, ids, outcomes, ords) == RenumberAll(st1, ids[1..], outcomes[1..], ords[1..]);
      forall e | e in ids || WellNumbered(st.working.rows, e)
        ensures e in ids[1..] || WellNumbered(st1.working.rows, e)
      {
        if e == ids[0] {
          RenumberedIsWellNumbered(st.working.rows, e, ords[0]);
        } else if e !in ids[1..] {
          RenumberKeepsOtherGroups(st.working.rows, e, ids[0], ords[0]);
        }
      }
    }
  }

  /**
   * close_spider when its final commit and every update_version_no succeed
   * (or the commit fails with a handled DataError): nothing is pending,
   * `event_ids` is empty, every collected event id is well numbered in the
   * committed table, and only version numbers differ from the table the
   * final commit left.
   */
  lemma CloseRenumbersEveryEvent(s: PipelineState, commit: Outcome, outcomes: seq<Outcome>, ords: seq<seq<nat>>)
    requires ValidPipeline(s) && |outcomes| == |s.eventIds| && CloseAdmissible(s, commit, outcomes, ords)
    requires commit == Success || commit == DataError
    requires forall k :: 0 <= k < |outcomes| ==> outcomes[k] == Success
    ensures var r := Close(s, commit, outcomes, ords);
      var base := if commit == Success then s.store.working else s.store.committed;
      r.1 == Returned(()) && r.0.eventIds == [] && r.0.store.pending == [] &&
      r.0.store.working == r.0.store.committed &&
      SameExceptVersions(base.rows, r.0.store.committed.rows) &&
      forall e :: e in s.eventIds ==> WellNumbered(r.0.store.committed.rows, e)
  {
    var st := CloseCommit(s.store, commit).0;
    RenumberAllReturns(st, s.eventIds, outcomes, ords);
    RenumberAllWellNumbers(st, s.eventIds, outcomes, ords);
    var r := RenumberAll(st, s.eventIds, outcomes, ords).0;
    if s.eventIds == [] {
      assert r == st;
    }
    assert r.working == r.committed;
    assert CloseCommit(s.store, commit).1 == Returned(());
    assert Close(s, commit, outcomes, ords) == (s.(store := r, eventIds := []), Returned(()));
  }

  /**
   * A duplicate key is checked against the working table, which holds this
   * run's uncommitted inserts: the same item (with no NULL key column)
   * submitted twice gives one row; the second time only the passed count
   * moves.
   */
  lemma UpsertSameItemTwice(s: PipelineState, item: EventItem, insert2: Outcome)
    requires KeyNonNull(item) && !DuplicateExists(s.store.working.rows, item)
    ensures var once := Upsert(s, item, Success, Success).0;
      var (twice, c) := Upsert(once, item, Success, insert2);
      c == Returned(()) && twice.store == once.store && twice.inserted == s.inserted + 1 &&
      twice.passed == s.passed + 1 && twice.eventIds == once.eventIds &&
      |once.store.working.rows| == |s.store.working.rows| + 1
  {
    var once := Upsert(s, item, Success, Success).0;
    DuplicateOfItself(once.store.working.rows, |s.store.working.rows|);
  }

  /**
   * The item is queued before its INSERT runs, so an INSERT failing with
   * DataError or IntegrityError puts the item itself among the failed items,
   * after the batch that was pending; process_item still returns the item.
   */
  lemma FailedInsertLandsInFailed(s: PipelineState, item: EventItem, f: Faults)
    requires f.select == Success && !DuplicateExists(s.store.working.rows, item) && IsDataFault(f.insert)
    ensures var (r, c) := Process(s, item, f);
      c == Returned(item) && r.store.failed == s.store.failed + s.store.pending + [item] &&
      r.store.pending == [] && r.store.working == r.store.committed == s.store.committed &&
      r.eventIds == s.eventIds && r.inserted == s.inserted
  {
  }

  /**
   * A DataError or IntegrityError from the duplicate query: the table goes
   * back to its committed state, the pending batch moves to the failed
   * items, and process_item returns the item.
   */
  lemma SelectDataFaultFailsBatch(s: PipelineState, item: EventItem, f: Faults)
    requires IsDataFault(f.select)
    ensures var (r, c) := Process(s, item, f);
      c == Returned(item) && r.store.failed == s.store.failed + s.store.pending &&
      r.store.pending == [] && r.store.working == r.store.committed == s.store.committed &&
      r.eventIds == s.eventIds && r.inserted == s.inserted && r.passed == s.passed
  {
  }

  /**
   * The reconnect path keeps `pending_items` although the new connection has
   * lost their uncommitted rows: after a successful retry the items are
   * still pending, and still counted as inserted, while the working table is
   * the committed one plus the retried row.
   */
  lemma ReconnectKeepsPendingButLosesRows(s: PipelineState, item: EventItem, f: Faults)
    requires IsOtherDatabaseError(f.select) && f.reconnect == Success && f.retrySelect == Success && f.retryInsert == Success
    requires !DuplicateExists(s.store.committed.rows, item) && |s.store.pending| < BatchThreshold
    ensures var (r, c) := Process(s, item, f);
      c == Returned(item) && r.store.pending == s.store.pending + [item] &&
      r.store.working.rows == s.store.committed.rows + [NewRow(s.store, item)] &&
      r.store.committed == s.store.committed && r.inserted == s.inserted + 1
  {
  }

  /** The retry is unguarded: when it fails too, process_item raises and skips the batch block. */
  lemma FailedRetryPropagates(s: PipelineState, item: EventItem, f: Faults)
    requires IsOtherDatabaseError(f.select) && f.reconnect == Success && f.retrySelect != Success
    ensures var (r, c) := Process(s, item, f);
      c == Raised(f.retrySelect) && r.store.pending == s.store.pending && r.store.failed == s.store.failed &&
      r.store.working == r.store.committed == s.store.committed
  {
  }

  /**
   * A failing retried INSERT propagates as well, even a DataError, since the
   * retry sits outside the handlers; the item stays queued for the next
   * batch while the reconnected session holds only committed data.
   */
  lemma FailedRetryInsertPropagates(s: PipelineState, item: EventItem, f: Faults)
    requires IsOtherDatabaseError(f.select) && f.reconnect == Success && f.retrySelect == Success
    requires !DuplicateExists(s.store.committed.rows, item) && f.retryInsert != Success
    ensures var (r, c) := Process(s, item, f);
      c == Raised(f.retryInsert) && r.store.pending == s.store.pending + [item] &&
      r.store.failed == s.store.failed && r.store.working == r.store.committed == s.store.committed &&
      r.eventIds == s.eventIds && r.inserted == s.inserted
  {
  }

  /** A reconnect that fails propagates its own error, and no retry is made. */
  lemma FailedReconnectPropagates(s: PipelineState, item: EventItem, f: Faults)
    requires ReconnectFault(s, item, f) && f.reconnect != Success
    ensures var (r, c) := Process(s, item, f);
      c == Raised(f.reconnect) && r.store.failed == s.store.failed && r.store.committed == s.store.committed &&
      r.eventIds == s.eventIds && r.inserted == s.inserted && r.passed == s.passed
  {
  }

  /**
   * Any other error (outside DatabaseError) escapes process_item untouched by
   * its handlers; a KeyError for a missing key field (`item['event_id']`)
   * comes before the query is sent and leaves the store as it was.
   */
  lemma NonDatabaseErrorPropagates(s: PipelineState, item: EventItem, f: Faults)
    requires f.select == NonDbError || f.select == ClientError
    ensures var (r, c) := Process(s, item, f);
      c == Raised(f.select) && r.store.pending == s.store.pending && r.store.failed == s.store.failed &&
      r.eventIds == s.eventIds && (f.select == ClientError ==> r.store == s.store)
  {
  }

  /**
   * A KeyError while the INSERT's parameters are bound (an item without a
   * `reason`, say) is raised before anything reaches the server: process_item
   * propagates it, but the transaction stays open with the item queued and
   * the batch's uncommitted rows in it, and when the next item fills the
   * batch its commit stores those rows, the failed item's row not among them.
   */
  lemma ClientErrorKeepsUncommittedRows(s: PipelineState, item: EventItem, f: Faults, next: EventItem, g: Faults)
    requires f.select == Success && !DuplicateExists(s.store.working.rows, item) && f.insert == ClientError
    requires g.select == Success && g.insert == Success && g.commit == Success
    requires !DuplicateExists(s.store.working.rows, next) && |s.store.pending| + 2 > BatchThreshold
    ensures var (r, c) := Process(s, item, f);
      c == Raised(ClientError) && r.store.working == s.store.working && r.store.committed == s.store.committed &&
      r.store.pending == s.store.pending + [item] && r.eventIds == s.eventIds && r.inserted == s.inserted
    ensures var r := Process(s, item, f).0;
      var (r2, c2) := Process(r, next, g);
      c2 == Returned(next) && r2.store.pending == [] && r2.store.failed == s.store.failed &&
      r2.store.committed.rows == s.store.working.rows + [NewRow(s.store, next)]
  {
  }

  /** The pipeline object: one connection, the two item lists, the event ids and the two counters. */
  class PostgrePipeline {
    const db: Connection<EventRecord>
    var pendingItems: seq<EventItem>
    var failedItems: seq<EventItem>
    var eventIds: seq<EventId>
    var dbInsertedItemCount: nat
    var dbPassedItemCount: nat

    function State(): PipelineState
      reads this, db
    {
      PipelineState(IngestState(db.committed, db.working, db.nextId, pendingItems, failedItems),
                    eventIds, dbInsertedItemCount, dbPassedItemCount)
    }

    ghost predicate Valid()
      reads this, db
    {
      db.Valid() && Distinct(eventIds)
    }

    /** `__init__`: connect and start with empty lists and zero counters. */
    constructor (initial: Snapshot<EventRecord>, firstId: nat)
      requires ValidSnapshot(initial, firstId)
      ensures Valid() && fresh(db)
      ensures State() == PipelineState(IngestState(initial, initial, firstId, [], []), [], 0, 0)
    {
      db := new Connection(initial, firstId);
      pendingItems := [];
      failedItems := [];
      eventIds := [];
      dbInsertedItemCount := 0;
      dbPassedItemCount := 0;
    }

    method PostgreUpsert(item: EventItem, select: Outcome, insert: Outcome) returns (c: Completion<()>)
      requires Valid()
      modifies this, db
      ensures Valid()
      ensures (State(), c) == Upsert(old(State()), item, select, insert)
    {
      var failure := Success;  // how the statement that raised ended
      if select != Success {
        failure := select;
      } else if DuplicateExists(db.working.rows, item) {
        dbPassedItemCount := dbPassedItemCount + 1;
      } else {
        pendingItems := pendingItems + [item];
        if insert != Success {
          failure := insert;
        } else {
          var _ := db.Insert(EventRecord(item, DefaultVersion));
          dbInsertedItemCount := dbInsertedItemCount + 1;
        }
      }
      if failure != Success {
        if Aborts(failure) {
          db.AbortTransaction();
        }
        return Raised(failure);
      }
      if item.eventId !in eventIds {
        eventIds := eventIds + [item.eventId];
      }
      c := Returned(());
    }

    /** The batch block at the end of process_item. */
    method CommitPendingBatch(outcome: Outcome)
      requires Valid()
      modifies this, db
      ensures Valid()
      ensures State() == old(State()).(store := CommitBatch(old(State()).store, outcome))
    {
      if |pendingItems| > BatchThreshold {
        var ok := db.Commit(outcome);
        if !ok {
          db.Rollback();
          failedItems := failedItems + pendingItems;
        }
        pendingItems := [];
      }
    }

    method ProcessItem(item: EventItem, f: Faults) returns (c: Completion<EventItem>)
      requires Valid()
      modifies this, db
      ensures Valid()
      ensures (State(), c) == Process(old(State()), item, f)
    {
      var u := PostgreUpsert(item, f.select, f.insert);
      if u.Raised? {
        if IsDataFault(u.error) {
          db.Rollback();
          failedItems := failedItems + pendingItems;
          pendingItems := [];
        } else if IsOtherDatabaseError(u.error) {
          if f.reconnect != Success {
            return Raised(f.reconnect);
          }
          db.Reconnect();
          var retried := PostgreUpsert(item, f.retrySelect, f.retryInsert);
          if retried.Raised? {
            return Raised(retried.error);
          }
        } else {
          return Raised(u.error);
        }
      }
      CommitPendingBatch(f.commit);
      c := Returned(item);
    }

    /**
     * create_table: the catalog lookup ends with `lookup` and reports
     * `present`; only an absent table is created, under the schema and the
     * lower-cased name, and committed.
     */
    method CreateTable(tableName: string, lookup: Outcome, present: bool, create: Outcome, commit: Outcome)
      returns (c: Completion<()>)
      requires Valid()
      modifies db
      ensures Valid()
      ensures (State().store, c) == EnsureTable(old(State()).store, Target(tableName), lookup, present, create, commit)
      ensures State().eventIds == old(eventIds) && State().inserted == old(dbInsertedItemCount) &&
              State().passed == old(dbPassedItemCount)
    {
      c := ProvisionTable(db, pendingItems, failedItems, Target(tableName), lookup, present, create, commit);
    }

    /**
     * update_version_no: the ordered query answers some admissible listing
     * `ord` of the rows of `e`; the loop gives the k-th listed row version
     * k + 1 by its id; then the work is committed with `outcome`.
     */
    method UpdateVersionNo(e: EventId, outcome: Outcome) returns (c: Completion<()>, ghost ord: seq<nat>)
      requires Valid()
      modifies db
      ensures Valid()
      ensures Admissible(old(db.working.rows), e, ord)
      ensures State().store == Renumber(old(State()).store, e, ord, outcome)
      ensures c == if outcome == Success then Returned(()) else Raised(outcome)
    {
      var rows := db.working.rows;
      AdmissibleExists(rows, e);
      var order :| Admissible(rows, e, order);
      ord := order;
      if outcome != Success && !Aborts(outcome) {
        // the SELECT fails before it is sent
        return Raised(outcome), ord;
      }
      assert DistinctIds(rows) by {
        forall p, q | 0 <= p < |rows| && 0 <= q < |rows| && p != q
          ensures rows[p].id != rows[q].id
        {
          if p > q {
            assert rows[q].id != rows[p].id;
          }
        }
      }
      var i := 0;
      while i < |order|
        invariant 0 <= i <= |order|
        invariant db.Valid()
        invariant db.working == old(db.working).(rows := Renumbered(rows, order[..i]))
        invariant db.committed == old(db.committed) && db.nextId == old(db.nextId)
      {
        var id := rows[order[i]].id;
        SetVersionTouchesOnlyId(db.working.rows, id, i + 1);
        db.Update(SetVersion(db.working.rows, id, i + 1));
        RenumberStep(rows, order, i);
        i := i + 1;
      }
      assert order[..i] == order;
      var ok := db.Commit(outcome);
      c := if ok then Returned(()) else Raised(outcome);
    }

    /** The commit at the start of close_spider and its DataError handler. */
    method FinalCommit(commit: Outcome) returns (c: Completion<()>)
      requires Valid()
      modifies this, db
      ensures Valid()
      ensures (State().store, c) == CloseCommit(old(State()).store, commit)
      ensures eventIds == old(eventIds) && dbInsertedItemCount == old(dbInsertedItemCount) &&
              dbPassedItemCount == old(dbPassedItemCount)
    {
      var ok := db.Commit(commit);
      if ok {
        pendingItems := [];
      } else if commit == DataError {
        db.Rollback();
        failedItems := failedItems + pendingItems;
        pendingItems := [];
      } else {
        return Raised(commit);
      }
      c := Returned(());
    }

    /** The loop of close_spider: update_version_no for each collected event id, in order. */
    method RenumberEvents(outcomes: seq<Outcome>) returns (c: Completion<()>, ghost ords: seq<seq<nat>>)
      requires Valid() && |outcomes| == |eventIds|
      modifies db
      ensures Valid()
      ensures RunAdmissible(old(State()).store, eventIds, outcomes, ords)
      ensures (State().store, c) == RenumberAll(old(State()).store, eventIds, outcomes, ords)
    {
      ords := [];
      ghost var start := State().store;
      var i := 0;
      while i < |eventIds|
        invariant 0 <= i <= |eventIds|
        invariant Valid()
        invariant RunAdmissible(start, eventIds[..i], outcomes[..i], ords)
        invariant RenumberAll(start, eventIds[..i], outcomes[..i], ords) == (State().store, Returned(()))
      {
        ghost var mid := State().store;
        var ci, ord := UpdateVersionNo(eventIds[i], outcomes[i]);
        if ci.Raised? {
          RenumberAllStop(start, eventIds, outcomes, ords, i, mid, ord);
          ords := ords + [ord];
          return ci, ords;
        }
        RenumberAllStep(start, eventIds, outcomes, ords, i, mid, ord);
        ords := ords + [ord];
        i := i + 1;
      }
      assert eventIds[..i] == eventIds && outcomes[..i] == outcomes;
      c := Returned(());
    }

    /**
     * close_spider without its log file: the final commit, update_version_no
     * for every collected event id, each ending as `outcomes` says, and
     * finally an empty `event_ids`. An exception from any step propagates
     * and skips the rest.
     */
    method CloseSpider(commit: Outcome, outcomes: seq<Outcome>) returns (c: Completion<()>, ghost ords: seq<seq<nat>>)
      requires Valid() && |outcomes| == |eventIds|
      modifies this, db
      ensures Valid()
      ensures CloseAdmissible(old(State()), commit, outcomes, ords)
      ensures (State(), c) == Close(old(State()), commit, outcomes, ords)
    {
      c := FinalCommit(commit);
      if c.Raised? {
        return c, [];
      }
      c, ords := RenumberEvents(outcomes);
      if c.Returned? {
        eventIds := [];
      }
    }
  }
}
