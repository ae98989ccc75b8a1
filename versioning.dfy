/**
 * Version numbering of the rows that share an event id
 * (PostgrePipeline.update_version_no). The query
 *   SELECT id ... WHERE event_id = e ORDER BY last_update
 * may return rows with equal `last_update` in any order, so its answer is
 * modelled as any admissible listing of the group's row positions; the
 * loop then gives the k-th listed row version k + 1.
 */
module Versioning {
  import opened Sql
  import opened Events

  type Rows = seq<Row<EventRecord>>

  /** `WHERE event_id = e`; no row is in the group of NULL. */
  predicate InGroup(r: Row<EventRecord>, e: EventId) {
    SqlEq(r.data.item.eventId, e)
  }

  function LastUpdate(r: Row<EventRecord>): Option<int> {
    r.data.item.lastUpdate
  }

  function Version(r: Row<EventRecord>): int {
    r.data.versionNo
  }

  predicate PositionsIn(rows: Rows, ord: seq<nat>) {
    forall k :: 0 <= k < |ord| ==> ord[k] < |rows|
  }

  /** The listed rows are in ORDER BY last_update order (NULLs last). */
  predicate SortedByLastUpdate(rows: Rows, ord: seq<nat>)
    requires PositionsIn(rows, ord)
  {
    forall k, l :: 0 <= k < l < |ord| ==> NotAfter(LastUpdate(rows[ord[k]]), LastUpdate(rows[ord[l]]))
  }

  /** `ord` is a possible answer of the ordered query: every row of the group once, sorted. */
  predicate Admissible(rows: Rows, e: EventId, ord: seq<nat>) {
    PositionsIn(rows, ord) &&
    (forall k :: 0 <= k < |ord| ==> InGroup(rows[ord[k]], e)) &&
    (forall p :: 0 <= p < |rows| && InGroup(rows[p], e) ==> p in ord) &&
    Distinct(ord) &&
    SortedByLastUpdate(rows, ord)
  }

  /** Primary keys are distinct, as ValidSnapshot guarantees for every snapshot. */
  ghost predicate DistinctIds(rows: Rows) {
    forall p, q :: 0 <= p < |rows| && 0 <= q < |rows| && p != q ==> rows[p].id != rows[q].id
  }

  function IndexOf(s: seq<nat>, x: nat): (k: nat)
    requires x in s
    ensures k < |s| && s[k] == x && x !in s[..k]
  {
    if s[0] == x then 0
    else
      var k := 1 + IndexOf(s[1..], x);
      assert s[..k] == [s[0]] + s[1..][..k - 1];
      k
  }

  lemma IndexOfDistinct(s: seq<nat>, k: nat)
    requires Distinct(s) && k < |s|
    ensures IndexOf(s, s[k]) == k
  {
    var j := IndexOf(s, s[k]);
    assert j <= k;
  }

  function WithVersion(r: Row<EventRecord>, v: int): Row<EventRecord> {
    r.(data := r.data.(versionNo := v))
  }

  /** `UPDATE ... SET version_no = v WHERE id = id`. */
  function SetVersion(rows: Rows, id: nat, v: int): (r: Rows)
    ensures |r| == |rows|
  {
    seq(|rows|, j requires 0 <= j < |rows| => if rows[j].id == id then WithVersion(rows[j], v) else rows[j])
  }

  lemma SetVersionAt(rows: Rows, id: nat, v: int, p: nat)
    requires p < |rows|
    ensures SetVersion(rows, id, v)[p] == if rows[p].id == id then WithVersion(rows[p], v) else rows[p]
  {
  }

  /** The update changes `version_no` only, of the rows with that id only. */
  lemma SetVersionTouchesOnlyId(rows: Rows, id: nat, v: int)
    ensures SameExceptVersions(rows, SetVersion(rows, id, v))
    ensures forall p :: 0 <= p < |rows| && rows[p].id != id ==> SetVersion(rows, id, v)[p] == rows[p]
    ensures forall p :: 0 <= p < |rows| && rows[p].id == id ==> Version(SetVersion(rows, id, v)[p]) == v
  {
  }

  /** The table once the k-th row listed in `ord` carries version k + 1. */
  function Renumbered(rows: Rows, ord: seq<nat>): (r: Rows)
    ensures |r| == |rows|
    ensures SameExceptVersions(rows, r)
  {
    seq(|rows|, p requires 0 <= p < |rows| =>
      if p in ord then WithVersion(rows[p], IndexOf(ord, p) + 1) else rows[p])
  }

  /** Two tables that differ at most in `version_no`. */
  predicate SameExceptVersions(a: Rows, b: Rows) {
    |a| == |b| &&
    forall p :: 0 <= p < |a| ==> a[p].id == b[p].id && a[p].data.item == b[p].data.item
  }

  /** The k-th listed row carries version k + 1. */
  lemma RenumberedAt(rows: Rows, ord: seq<nat>, k: nat)
    requires PositionsIn(rows, ord) && Distinct(ord) && k < |ord|
    ensures Version(Renumbered(rows, ord)[ord[k]]) == k + 1
  {
    IndexOfDistinct(ord, k);
  }

  /** A prefix of a duplicate-free listing holds exactly the positions listed before index i, at the same index. */
  lemma PrefixIndex(ord: seq<nat>, i: nat, p: nat)
    requires Distinct(ord) && i <= |ord|
    ensures p in ord[..i] <==> p in ord && IndexOf(ord, p) < i
    ensures p in ord[..i] ==> IndexOf(ord[..i], p) == IndexOf(ord, p)
  {
    if p in ord && IndexOf(ord, p) < i {
      assert ord[..i][IndexOf(ord, p)] == p;
    }
    if p in ord[..i] {
      var j := IndexOf(ord[..i], p);
      assert ord[j] == p;
      IndexOfDistinct(ord, j);
    }
  }

  /** Row p after the first i listed rows are renumbered. */
  lemma RenumberedPrefixAt(rows: Rows, ord: seq<nat>, i: nat, p: nat)
    requires Distinct(ord) && i <= |ord| && p < |rows|
    ensures Renumbered(rows, ord[..i])[p] ==
      if p in ord && IndexOf(ord, p) < i then WithVersion(rows[p], IndexOf(ord, p) + 1) else rows[p]
  {
    PrefixIndex(ord, i, p);
  }

  /** Row p after one more pass of the loop. */
  lemma RenumberStepAt(rows: Rows, ord: seq<nat>, i: nat, p: nat)
    requires PositionsIn(rows, ord) && Distinct(ord) && DistinctIds(rows)
    requires i < |ord| && p < |rows|
    ensures SetVersion(Renumbered(rows, ord[..i]), rows[ord[i]].id, i + 1)[p] == Renumbered(rows, ord[..i + 1])[p]
  {
    var mid := Renumbered(rows, ord[..i]);
    IndexOfDistinct(ord, i);
    RenumberedPrefixAt(rows, ord, i, p);
    RenumberedPrefixAt(rows, ord, i + 1, p);
    SetVersionAt(mid, rows[ord[i]].id, i + 1, p);
    if p == ord[i] {
      assert mid[p] == rows[p];
    } else {
      assert mid[p].id == rows[p].id != rows[ord[i]].id;
    }
  }

  /** One pass of the loop of update_version_no: the update by id touches exactly the next listed row. */
  lemma RenumberStep(rows: Rows, ord: seq<nat>, i: nat)
    requires PositionsIn(rows, ord) && Distinct(ord) && DistinctIds(rows)
    requires i < |ord|
    ensures SetVersion(Renumbered(rows, ord[..i]), rows[ord[i]].id, i + 1) == Renumbered(rows, ord[..i + 1])
  {
    var lhs := SetVersion(Renumbered(rows, ord[..i]), rows[ord[i]].id, i + 1);
    var rhs := Renumbered(rows, ord[..i + 1]);
    forall p | 0 <= p < |rows|
      ensures lhs[p] == rhs[p]
    {
      RenumberStepAt(rows, ord, i, p);
    }
  }

  /** Every row of the group carries a version of at least 1. */
  ghost predicate VersionsPositive(rows: Rows, e: EventId) {
    forall p :: 0 <= p < |rows| && InGroup(rows[p], e) ==> Version(rows[p]) >= 1
  }

  /** No two rows of the group share a version. */
  ghost predicate VersionsDistinct(rows: Rows, e: EventId) {
    forall p, q :: 0 <= p < |rows| && 0 <= q < |rows| && p != q && InGroup(rows[p], e) && InGroup(rows[q], e) ==>
      Version(rows[p]) != Version(rows[q])
  }

  /** Every version above 1 has its predecessor in the group. */
  ghost predicate VersionsContiguous(rows: Rows, e: EventId) {
    forall p :: 0 <= p < |rows| && InGroup(rows[p], e) && Version(rows[p]) > 1 ==>
      exists q :: 0 <= q < |rows| && InGroup(rows[q], e) && Version(rows[q]) == Version(rows[p]) - 1
  }

  /** A lower version never goes with a later `last_update`. */
  ghost predicate VersionsFollowLastUpdate(rows: Rows, e: EventId) {
    forall p, q :: (0 <= p < |rows| && 0 <= q < |rows| && InGroup(rows[p], e) && InGroup(rows[q], e) &&
                    Version(rows[p]) < Version(rows[q])) ==>
      NotAfter(LastUpdate(rows[p]), LastUpdate(rows[q]))
  }

  /**
   * The version numbers of a group are in order and contiguous: each is at
   * least 1, no two rows share one, every number above 1 has its
   * predecessor in the group, and a lower number never goes with a later
   * `last_update`.
   */
  ghost predicate WellNumbered(rows: Rows, e: EventId) {
    VersionsPositive(rows, e) && VersionsDistinct(rows, e) && VersionsContiguous(rows, e) &&
    VersionsFollowLastUpdate(rows, e)
  }

  /** In a well-numbered group every number from 1 up to a used one is used. */
  lemma {:induction false} WellNumberedHasNoGaps(rows: Rows, e: EventId, p: nat, v: int)
    requires WellNumbered(rows, e)
    requires p < |rows| && InGroup(rows[p], e) && 1 <= v <= Version(rows[p])
    ensures exists q :: 0 <= q < |rows| && InGroup(rows[q], e) && Version(rows[q]) == v
    decreases Version(rows[p]) - v
  {
    if v < Version(rows[p]) {
      var q :| 0 <= q < |rows| && InGroup(rows[q], e) && Version(rows[q]) == Version(rows[p]) - 1;
      WellNumberedHasNoGaps(rows, e, q, v);
    }
  }

  /** What renumbering along an admissible listing does to one row. */
  lemma RenumberedRow(rows: Rows, e: EventId, ord: seq<nat>, p: nat)
    requires Admissible(rows, e, ord) && p < |rows|
    ensures InGroup(Renumbered(rows, ord)[p], e) == InGroup(rows[p], e)
    ensures LastUpdate(Renumbered(rows, ord)[p]) == LastUpdate(rows[p])
    ensures InGroup(rows[p], e) ==> p in ord && Version(Renumbered(rows, ord)[p]) == IndexOf(ord, p) + 1
  {
  }

  lemma RenumberedDistinct(rows: Rows, e: EventId, ord: seq<nat>)
    requires Admissible(rows, e, ord)
    ensures VersionsPositive(Renumbered(rows, ord), e) && VersionsDistinct(Renumbered(rows, ord), e)
  {
    var r := Renumbered(rows, ord);
    forall p | 0 <= p < |r|
      ensures InGroup(r[p], e) == InGroup(rows[p], e)
      ensures InGroup(rows[p], e) ==> p in ord && Version(r[p]) == IndexOf(ord, p) + 1
    {
      RenumberedRow(rows, e, ord, p);
    }
  }

  lemma RenumberedContiguous(rows: Rows, e: EventId, ord: seq<nat>)
    requires Admissible(rows, e, ord)
    ensures VersionsContiguous(Renumbered(rows, ord), e)
  {
    var r := Renumbered(rows, ord);
    forall p | 0 <= p < |r| && InGroup(r[p], e) && Version(r[p]) > 1
      ensures exists q :: 0 <= q < |r| && InGroup(r[q], e) && Version(r[q]) == Version(r[p]) - 1
    {
      RenumberedRow(rows, e, ord, p);
      var k := IndexOf(ord, p);
      var q := ord[k - 1];
      RenumberedRow(rows, e, ord, q);
      IndexOfDistinct(ord, k - 1);
      assert InGroup(r[q], e) && Version(r[q]) == k;
    }
  }

  lemma RenumberedFollowsLastUpdate(rows: Rows, e: EventId, ord: seq<nat>)
    requires Admissible(rows, e, ord)
    ensures VersionsFollowLastUpdate(Renumbered(rows, ord), e)
  {
    var r := Renumbered(rows, ord);
    forall p, q | 0 <= p < |r| && 0 <= q < |r| && InGroup(r[p], e) && InGroup(r[q], e) && Version(r[p]) < Version(r[q])
      ensures NotAfter(LastUpdate(r[p]), LastUpdate(r[q]))
    {
      RenumberedRow(rows, e, ord, p);
      RenumberedRow(rows, e, ord, q);
      var k, l := IndexOf(ord, p), IndexOf(ord, q);
      assert k < l;
      assert NotAfter(LastUpdate(rows[ord[k]]), LastUpdate(rows[ord[l]]));
    }
  }

  /** After renumbering along an admissible listing the group is well numbered. */
  lemma RenumberedIsWellNumbered(rows: Rows, e: EventId, ord: seq<nat>)
    requires Admissible(rows, e, ord)
    ensures WellNumbered(Renumbered(rows, ord), e)
  {
    RenumberedDistinct(rows, e, ord);
    RenumberedContiguous(rows, e, ord);
    RenumberedFollowsLastUpdate(rows, e, ord);
  }

  function GroupPositions(rows: Rows, e: EventId): set<nat> {
    set p: nat | p < |rows| && InGroup(rows[p], e)
  }

  function VersionSet(rows: Rows, e: EventId): set<int> {
    set p | 0 <= p < |rows| && InGroup(rows[p], e) :: Version(rows[p])
  }

  function Elements(s: seq<nat>): set<nat> {
    set x | x in s
  }

  /** The set {1, ..., n}. */
  function Range(n: nat): (r: set<int>)
    ensures forall v :: v in r <==> 1 <= v <= n
  {
    if n == 0 then {} else Range(n - 1) + {n}
  }

  lemma {:induction false} DistinctCardinality(s: seq<nat>)
    requires Distinct(s)
    ensures |Elements(s)| == |s|
  {
    if s != [] {
      var t := s[..|s| - 1];
      assert s == t + [s[|s| - 1]];
      assert Distinct(t);
      DistinctCardinality(t);
      assert forall x :: x in s <==> x in t || x == s[|s| - 1];
      assert Elements(s) == Elements(t) + {s[|s| - 1]};
      assert s[|s| - 1] !in t;
    }
  }

  /**
   * After renumbering, the version numbers of the group are exactly
   * 1..N, where N is the number of rows with that event id.
   */
  lemma RenumberedVersionsExact(rows: Rows, e: EventId, ord: seq<nat>)
    requires Admissible(rows, e, ord)
    ensures |GroupPositions(rows, e)| == |ord|
    ensures VersionSet(Renumbered(rows, ord), e) == Range(|ord|)
  {
    assert GroupPositions(rows, e) == Elements(ord);
    DistinctCardinality(ord);
    var r := Renumbered(rows, ord);
    forall v | v in VersionSet(r, e)
      ensures 1 <= v <= |ord|
    {
      var p :| 0 <= p < |r| && InGroup(r[p], e) && Version(r[p]) == v;
      assert InGroup(rows[p], e);
    }
    forall v | 1 <= v <= |ord|
      ensures v in VersionSet(r, e)
    {
      var p := ord[v - 1];
      IndexOfDistinct(ord, v - 1);
      assert InGroup(rows[p], e) && InGroup(r[p], e) && Version(r[p]) == v;
    }
  }

  /** Renumbering a group leaves every row of other groups exactly as it was. */
  lemma RenumberedFrame(rows: Rows, e: EventId, ord: seq<nat>, p: nat)
    requires Admissible(rows, e, ord)
    requires p < |rows| && !InGroup(rows[p], e)
    ensures Renumbered(rows, ord)[p] == rows[p]
  {
  }

  /** Renumbering one event id keeps another event id's group well numbered. */
  lemma RenumberKeepsOtherGroups(rows: Rows, e: EventId, other: EventId, ord: seq<nat>)
    requires WellNumbered(rows, e) && Admissible(rows, other, ord) && e != other
    ensures WellNumbered(Renumbered(rows, ord), e)
  {
    var r := Renumbered(rows, ord);
    forall p | 0 <= p < |rows|
      ensures InGroup(r[p], e) == InGroup(rows[p], e)
      ensures InGroup(rows[p], e) ==> r[p] == rows[p]
    {
      if InGroup(rows[p], e) {
        assert !InGroup(rows[p], other);
        RenumberedFrame(rows, other, ord, p);
      }
    }
    assert VersionsPositive(r, e) && VersionsDistinct(r, e) && VersionsFollowLastUpdate(r, e);
    forall p | 0 <= p < |r| && InGroup(r[p], e) && Version(r[p]) > 1
      ensures exists q :: 0 <= q < |r| && InGroup(r[q], e) && Version(r[q]) == Version(r[p]) - 1
    {
      var q :| 0 <= q < |rows| && InGroup(rows[q], e) && Version(rows[q]) == Version(rows[p]) - 1;
      assert r[q] == rows[q];
    }
  }

  /** Only `version_no` differs, so the ordered query has the same answers on both tables. */
  lemma AdmissibleIgnoresVersions(a: Rows, b: Rows, e: EventId, ord: seq<nat>)
    requires SameExceptVersions(a, b)
    ensures Admissible(a, e, ord) <==> Admissible(b, e, ord)
  {
    assert forall p :: 0 <= p < |a| ==> InGroup(a[p], e) == InGroup(b[p], e) && LastUpdate(a[p]) == LastUpdate(b[p]);
  }

  /** No two rows of the group share a `last_update` (two NULLs count as a tie). */
  ghost predicate NoTies(rows: Rows, e: EventId) {
    forall p, q :: 0 <= p < |rows| && 0 <= q < |rows| && p != q && InGroup(rows[p], e) && InGroup(rows[q], e) ==>
      LastUpdate(rows[p]) != LastUpdate(rows[q])
  }

  lemma {:induction false} AdmissibleAgreeUpTo(rows: Rows, e: EventId, o1: seq<nat>, o2: seq<nat>, n: nat)
    requires Admissible(rows, e, o1) && Admissible(rows, e, o2) && NoTies(rows, e)
    requires n <= |o1| && n <= |o2|
    ensures o1[..n] == o2[..n]
  {
    if n > 0 {
      AdmissibleAgreeUpTo(rows, e, o1, o2, n - 1);
      var a, b := o1[n - 1], o2[n - 1];
      assert InGroup(rows[a], e) && InGroup(rows[b], e);
      var j, i := IndexOf(o2, a), IndexOf(o1, b);
      assert j >= n - 1 && i >= n - 1;
      if a != b {
        assert NotAfter(LastUpdate(rows[o2[n - 1]]), LastUpdate(rows[o2[j]]));
        assert NotAfter(LastUpdate(rows[o1[n - 1]]), LastUpdate(rows[o1[i]]));
        NotAfterTotal(LastUpdate(rows[a]), LastUpdate(rows[b]));
        assert false;
      }
      assert o1[..n] == o1[..n - 1] + [a] && o2[..n] == o2[..n - 1] + [b];
    }
  }

  /** Without ties in `last_update` the ordered query has exactly one answer. */
  lemma AdmissibleUnique(rows: Rows, e: EventId, o1: seq<nat>, o2: seq<nat>)
    requires Admissible(rows, e, o1) && Admissible(rows, e, o2) && NoTies(rows, e)
    ensures o1 == o2
  {
    if |o1| < |o2| {
      AdmissibleAgreeUpTo(rows, e, o1, o2, |o1|);
      var b := o2[|o1|];
      assert InGroup(rows[b], e);
      var i := IndexOf(o1, b);
      assert false;
    } else if |o2| < |o1| {
      AdmissibleAgreeUpTo(rows, e, o2, o1, |o2|);
      var a := o1[|o2|];
      assert InGroup(rows[a], e);
      var j := IndexOf(o2, a);
      assert false;
    } else {
      AdmissibleAgreeUpTo(rows, e, o1, o2, |o1|);
      assert o1 == o1[..|o1|] && o2 == o2[..|o2|];
    }
  }

  /**
   * Renumbering is idempotent when the group has no ties: a second run
   * on the renumbered table leaves it unchanged.
   */
  lemma RenumberIdempotent(rows: Rows, e: EventId, o1: seq<nat>, o2: seq<nat>)
    requires Admissible(rows, e, o1) && NoTies(rows, e)
    requires Admissible(Renumbered(rows, o1), e, o2)
    ensures Renumbered(Renumbered(rows, o1), o2) == Renumbered(rows, o1)
  {
    AdmissibleIgnoresVersions(rows, Renumbered(rows, o1), e, o2);
    AdmissibleUnique(rows, e, o1, o2);
  }

  /** Putting a row in front of a sorted listing of rows no earlier than it keeps the listing sorted. */
  lemma SortedCons(rows: Rows, x: nat, rest: seq<nat>)
    requires x < |rows| && PositionsIn(rows, rest) && SortedByLastUpdate(rows, rest)
    requires forall y :: y in rest ==> NotAfter(LastUpdate(rows[x]), LastUpdate(rows[y]))
    ensures PositionsIn(rows, [x] + rest) && SortedByLastUpdate(rows, [x] + rest)
  {
    var r := [x] + rest;
    forall k, l | 0 <= k < l < |r|
      ensures NotAfter(LastUpdate(rows[r[k]]), LastUpdate(rows[r[l]]))
    {
      assert r[l] == rest[l - 1];
      if k > 0 {
        assert r[k] == rest[k - 1];
      }
    }
  }

  lemma DistinctCons(x: nat, rest: seq<nat>)
    requires Distinct(rest) && x !in rest
    ensures Distinct([x] + rest)
  {
    var r := [x] + rest;
    forall i, j | 0 <= i < j < |r|
      ensures r[i] != r[j]
    {
      assert r[j] == rest[j - 1];
      if i > 0 {
        assert r[i] == rest[i - 1];
      }
    }
  }

  /** Insert position `p` into a sorted listing, before the first row with a later `last_update`. */
  function InsertByLastUpdate(rows: Rows, ord: seq<nat>, p: nat): (r: seq<nat>)
    requires p < |rows| && PositionsIn(rows, ord) && SortedByLastUpdate(rows, ord)
    ensures PositionsIn(rows, r) && SortedByLastUpdate(rows, r)
    ensures forall x :: x in r <==> x in ord || x == p
    ensures Distinct(ord) && p !in ord ==> Distinct(r)
    decreases |ord|
  {
    if ord == [] then [p]
    else if NotAfter(LastUpdate(rows[p]), LastUpdate(rows[ord[0]])) then
      assert forall y :: y in ord ==> NotAfter(LastUpdate(rows[p]), LastUpdate(rows[y])) by {
        forall y | y in ord
          ensures NotAfter(LastUpdate(rows[p]), LastUpdate(rows[y]))
        {
          var l :| 0 <= l < |ord| && ord[l] == y;
          if l > 0 {
            NotAfterTransitive(LastUpdate(rows[p]), LastUpdate(rows[ord[0]]), LastUpdate(rows[y]));
          }
        }
      }
      SortedCons(rows, p, ord);
      if Distinct(ord) && p !in ord then DistinctCons(p, ord); [p] + ord else [p] + ord
    else
      var x, tail := ord[0], ord[1..];
      assert ord == [x] + tail;
      assert SortedByLastUpdate(rows, tail) by {
        forall k, l | 0 <= k < l < |tail|
          ensures NotAfter(LastUpdate(rows[tail[k]]), LastUpdate(rows[tail[l]]))
        {
          assert tail[k] == ord[k + 1] && tail[l] == ord[l + 1];
        }
      }
      var rest := InsertByLastUpdate(rows, tail, p);
      NotAfterTotal(LastUpdate(rows[p]), LastUpdate(rows[x]));
      assert forall y :: y in rest ==> NotAfter(LastUpdate(rows[x]), LastUpdate(rows[y])) by {
        forall y | y in rest
          ensures NotAfter(LastUpdate(rows[x]), LastUpdate(rows[y]))
        {
          if y != p {
            var l :| 0 <= l < |tail| && tail[l] == y;
            assert ord[l + 1] == y;
          }
        }
      }
      SortedCons(rows, x, rest);
      if Distinct(ord) && p !in ord then
        assert Distinct(tail) && x !in tail by {
          forall i, j | 0 <= i < j < |tail|
            ensures tail[i] != tail[j]
          {
            assert tail[i] == ord[i + 1] && tail[j] == ord[j + 1];
          }
        }
        DistinctCons(x, rest);
        [x] + rest
      else
        [x] + rest
  }

  /** `ord` is a sorted listing of exactly the group's rows among the first `n` positions. */
  predicate ListsGroupBelow(rows: Rows, e: EventId, n: nat, ord: seq<nat>)
    requires n <= |rows|
  {
    PositionsIn(rows, ord) && SortedByLastUpdate(rows, ord) && Distinct(ord) &&
    (forall k :: 0 <= k < |ord| ==> ord[k] < n && InGroup(rows[ord[k]], e)) &&
    (forall p :: 0 <= p < n && InGroup(rows[p], e) ==> p in ord)
  }

  /** One step of the insertion sort when the row at position n - 1 belongs to the group. */
  lemma InsertKeepsGroup(rows: Rows, e: EventId, n: nat, prev: seq<nat>)
    requires 0 < n <= |rows| && InGroup(rows[n - 1], e) && ListsGroupBelow(rows, e, n - 1, prev)
    ensures ListsGroupBelow(rows, e, n, InsertByLastUpdate(rows, prev, n - 1))
  {
    assert forall x :: x in prev ==> x < n - 1;
    var r := InsertByLastUpdate(rows, prev, n - 1);
    forall k | 0 <= k < |r|
      ensures r[k] < n && InGroup(rows[r[k]], e)
    {
      assert r[k] in r;
      if r[k] != n - 1 {
        var l :| 0 <= l < |prev| && prev[l] == r[k];
      }
    }
  }

  /** One step of the insertion sort when the row at position n - 1 is outside the group. */
  lemma SkipKeepsGroup(rows: Rows, e: EventId, n: nat, prev: seq<nat>)
    requires 0 < n <= |rows| && !InGroup(rows[n - 1], e) && ListsGroupBelow(rows, e, n - 1, prev)
    ensures ListsGroupBelow(rows, e, n, prev)
  {
  }

  /** A sorted listing of the group's rows among the first `n` positions (insertion sort). */
  function SortGroup(rows: Rows, e: EventId, n: nat): (ord: seq<nat>)
    requires n <= |rows|
    ensures ListsGroupBelow(rows, e, n, ord)
  {
    if n == 0 then []
    else
      var prev := SortGroup(rows, e, n - 1);
      if InGroup(rows[n - 1], e) then
        InsertKeepsGroup(rows, e, n, prev);
        InsertByLastUpdate(rows, prev, n - 1)
      else
        SkipKeepsGroup(rows, e, n, prev);
        prev
  }

  /** The ordered query always has an answer. */
  lemma AdmissibleExists(rows: Rows, e: EventId)
    ensures exists ord :: Admissible(rows, e, ord)
  {
    var ord := SortGroup(rows, e, |rows|);
    assert Admissible(rows, e, ord);
  }

  /** A revision of event `e` with only the columns the numbering reads filled in. */
  function Revision(id: nat, e: string, lastUpdate: int): Row<EventRecord> {
    Row(id, EventRecord(EventItem(Null, Null, Null, Null, Null, Null, None, None, Null, Null, Null,
                                  Some(e), Some(lastUpdate)), DefaultVersion))
  }

  /** Revisions A (last_update 1), B (3) and C (2) of event "1", inserted in that order. */
  function ArrivalRows(): Rows {
    [Revision(1, "1", 1), Revision(2, "1", 3), Revision(3, "1", 2)]
  }

  /**
   * Version numbers follow `last_update`, not arrival: for A, B, C above
   * the ordered query can only answer A, C, B, so A gets 1, C gets 2 and
   * B gets 3.
   */
  lemma ArrivalOrderDoesNotMatter(ord: seq<nat>)
    requires Admissible(ArrivalRows(), Some("1"), ord)
    ensures ord == [0, 2, 1]
    ensures var r := Renumbered(ArrivalRows(), ord);
      Version(r[0]) == 1 && Version(r[2]) == 2 && Version(r[1]) == 3
  {
    ArrivalListing();
    AdmissibleUnique(ArrivalRows(), Some("1"), ord, [0, 2, 1]);
    RenumberedAt(ArrivalRows(), ord, 0);
    RenumberedAt(ArrivalRows(), ord, 1);
    RenumberedAt(ArrivalRows(), ord, 2);
  }

  /** Three rows of the group with last_update a < c < b at positions 0, 1, 2 can only be listed 0, 2, 1. */
  lemma ThreeRowListing(rows: Rows, e: EventId)
    requires |rows| == 3 && InGroup(rows[0], e) && InGroup(rows[1], e) && InGroup(rows[2], e)
    requires SqlLess(LastUpdate(rows[0]), LastUpdate(rows[2])) && SqlLess(LastUpdate(rows[2]), LastUpdate(rows[1]))
    ensures Admissible(rows, e, [0, 2, 1]) && NoTies(rows, e)
  {
    var ord := [0, 2, 1];
    assert forall p :: 0 <= p < |rows| ==> p in ord;
    assert SortedByLastUpdate(rows, ord);
  }

  lemma ArrivalListing()
    ensures Admissible(ArrivalRows(), Some("1"), [0, 2, 1])
    ensures NoTies(ArrivalRows(), Some("1"))
  {
    var rows, e := ArrivalRows(), Some("1");
    assert InGroup(rows[0], e) && InGroup(rows[1], e) && InGroup(rows[2], e);
    assert LastUpdate(rows[0]) == Some(1) && LastUpdate(rows[1]) == Some(3) && LastUpdate(rows[2]) == Some(2);
    ThreeRowListing(rows, e);
  }

  /** Two revisions of event "7" with the same `last_update`. */
  function TiedRows(): Rows {
    [Revision(1, "7", 5), Revision(2, "7", 5)]
  }

  /** Two rows of the group with equal last_update may be listed either way. */
  lemma TwoRowTie(rows: Rows, e: EventId)
    requires |rows| == 2 && InGroup(rows[0], e) && InGroup(rows[1], e)
    requires LastUpdate(rows[0]) == LastUpdate(rows[1])
    ensures Admissible(rows, e, [0, 1]) && Admissible(rows, e, [1, 0])
  {
    NotAfterTotal(LastUpdate(rows[0]), LastUpdate(rows[1]));
    assert forall p :: 0 <= p < |rows| ==> p in [0, 1] && p in [1, 0];
  }

  lemma TiedListings()
    ensures Admissible(TiedRows(), Some("7"), [0, 1])
    ensures Admissible(TiedRows(), Some("7"), [1, 0])
  {
    var rows, e := TiedRows(), Some("7");
    assert InGroup(rows[0], e) && InGroup(rows[1], e);
    assert LastUpdate(rows[0]) == Some(5) && LastUpdate(rows[1]) == Some(5);
    TwoRowTie(rows, e);
  }

  /**
   * With a tie, ORDER BY last_update may list the rows one way on the
   * first run and the other way on the second, and the second run then
   * swaps their numbers: renumbering is idempotent only without ties.
   */
  lemma TiesMayChangeNumbering()
    ensures Admissible(TiedRows(), Some("7"), [0, 1])
    ensures Admissible(Renumbered(TiedRows(), [0, 1]), Some("7"), [1, 0])
    ensures Renumbered(Renumbered(TiedRows(), [0, 1]), [1, 0]) != Renumbered(TiedRows(), [0, 1])
  {
    var once := Renumbered(TiedRows(), [0, 1]);
    TiedListings();
    AdmissibleIgnoresVersions(TiedRows(), once, Some("7"), [1, 0]);
    RenumberedAt(TiedRows(), [0, 1], 0);
    RenumberedAt(once, [1, 0], 1);
    assert Renumbered(once, [1, 0])[0] != once[0];
  }
}
