/**
 * What the two tables of the backend mean: the activities of one CRA, the
 * aggregate a reader sees, the derived total, the list filter, the listing
 * order (date descending, then creation time descending) and LIMIT/OFFSET
 * paging. The store's methods are specified with these functions.
 */
module CraTables {
  import opened Common
  import opened Text
  import opened CraTypes

  // ---------------------------------------------------------------- totals

  /** `activities.reduce((sum, act) => sum + act.hours, 0)`. */
  function SumHours(acts: seq<ActivityInput>): real {
    if acts == [] then 0.0 else SumHours(acts[..|acts| - 1]) + acts[|acts| - 1].hours
  }

  /** The hours of stored activity rows, added up the same way. */
  function SumRowHours(rows: seq<ActivityRow>): real {
    if rows == [] then 0.0 else SumRowHours(rows[..|rows| - 1]) + rows[|rows| - 1].hours
  }

  lemma {:induction false} SumRowHoursAppend(a: seq<ActivityRow>, b: seq<ActivityRow>)
    ensures SumRowHours(a + b) == SumRowHours(a) + SumRowHours(b)
  {
    if b != [] {
      var ab := a + b;
      assert ab[..|ab| - 1] == a + b[..|b| - 1];
      SumRowHoursAppend(a, b[..|b| - 1]);
    } else {
      assert a + b == a;
    }
  }

  /**
   * `rows` are the activity rows inserted for `inputs`, one per input and in
   * input order, each tied to the CRA `craId`.
   */
  predicate RowsFromInputs(rows: seq<ActivityRow>, inputs: seq<ActivityInput>, craId: Id) {
    && |rows| == |inputs|
    && forall i :: 0 <= i < |rows| ==>
         && rows[i].craId == craId
         && rows[i].description == inputs[i].description
         && rows[i].hours == inputs[i].hours
         && rows[i].category == inputs[i].category
  }

  /** Rows carrying the inputs' hours add up to the inputs' total. */
  lemma {:induction false} SumOfRowsFromInputs(rows: seq<ActivityRow>, inputs: seq<ActivityInput>, craId: Id)
    requires RowsFromInputs(rows, inputs, craId)
    ensures SumRowHours(rows) == SumHours(inputs)
  {
    if rows != [] {
      SumOfRowsFromInputs(rows[..|rows| - 1], inputs[..|inputs| - 1], craId);
    }
  }

  // ------------------------------------------------- the activities of a CRA

  /** The activities whose `cra_id` is `id`, in table order. */
  function ActivitiesOf(rows: seq<ActivityRow>, id: Id): (r: seq<ActivityRow>)
    ensures |r| <= |rows|
    ensures forall a :: a in r <==> a in rows && a.craId == id
  {
    if rows == [] then []
    else if rows[0].craId == id then [rows[0]] + ActivitiesOf(rows[1..], id)
    else ActivitiesOf(rows[1..], id)
  }

  /** `DELETE FROM activities WHERE cra_id = id`: the rows that survive, in table order. */
  function WithoutCra(rows: seq<ActivityRow>, id: Id): (r: seq<ActivityRow>)
    ensures |r| <= |rows|
    ensures forall a :: a in r <==> a in rows && a.craId != id
  {
    if rows == [] then []
    else if rows[0].craId != id then [rows[0]] + WithoutCra(rows[1..], id)
    else WithoutCra(rows[1..], id)
  }

  lemma {:induction false} ActivitiesOfAppend(a: seq<ActivityRow>, b: seq<ActivityRow>, id: Id)
    ensures ActivitiesOf(a + b, id) == ActivitiesOf(a, id) + ActivitiesOf(b, id)
  {
    if a != [] {
      assert (a + b)[1..] == a[1..] + b;
      ActivitiesOfAppend(a[1..], b, id);
    } else {
      assert a + b == b;
    }
  }

  lemma {:induction false} ActivitiesOfNone(rows: seq<ActivityRow>, id: Id)
    requires forall a :: a in rows ==> a.craId != id
    ensures ActivitiesOf(rows, id) == []
  {
    if rows != [] {
      ActivitiesOfNone(rows[1..], id);
    }
  }

  lemma {:induction false} ActivitiesOfOnly(rows: seq<ActivityRow>, id: Id)
    requires forall a :: a in rows ==> a.craId == id
    ensures ActivitiesOf(rows, id) == rows
  {
    if rows != [] {
      ActivitiesOfOnly(rows[1..], id);
      assert [rows[0]] + rows[1..] == rows;
    }
  }

  /** Deleting the activities of one CRA leaves those of every other CRA as they were. */
  lemma {:induction false} WithoutCraKeepsOthers(rows: seq<ActivityRow>, id: Id, other: Id)
    requires other != id
    ensures ActivitiesOf(WithoutCra(rows, id), other) == ActivitiesOf(rows, other)
  {
    if rows != [] {
      WithoutCraKeepsOthers(rows[1..], id, other);
    }
  }

  // ------------------------------------------------------------ the CRA rows

  function CraIds(cras: seq<CraRow>): (ids: set<Id>)
    ensures forall i :: 0 <= i < |cras| ==> cras[i].id in ids
    ensures forall id :: id in ids ==> exists i :: 0 <= i < |cras| && cras[i].id == id
  {
    set i | 0 <= i < |cras| :: cras[i].id
  }

  /** No two rows of the `cras` table share an id. */
  predicate UniqueIds(cras: seq<CraRow>) {
    forall i, j :: 0 <= i < j < |cras| ==> cras[i].id != cras[j].id
  }

  /** No two rows of the `activities` table share an id. */
  predicate UniqueActivityIds(acts: seq<ActivityRow>) {
    forall i, j :: 0 <= i < j < |acts| ==> acts[i].id != acts[j].id
  }

  /** `rows` carry the ids `lo`, `lo + 1`, ... in order: what a run of INSERTs draws from the id counter. */
  predicate IdsFrom(rows: seq<ActivityRow>, lo: nat) {
    forall i :: 0 <= i < |rows| ==> rows[i].id == lo + i
  }

  /** New rows whose ids are pairwise distinct and distinct from every id in `acts`. */
  predicate FreshActivityIds(acts: seq<ActivityRow>, inserted: seq<ActivityRow>) {
    && UniqueActivityIds(inserted)
    && forall a, b :: a in acts && b in inserted ==> a.id != b.id
  }

  /** The row of the `cras` table whose id is `id`, if any. */
  function Lookup(cras: seq<CraRow>, id: Id): (r: Option<CraRow>)
    ensures r.Some? <==> id in CraIds(cras)
    ensures r.Some? ==> r.value in cras && r.value.id == id
  {
    if cras == [] then None
    else if cras[0].id == id then Some(cras[0])
    else Lookup(cras[1..], id)
  }

  lemma {:induction false} LookupAt(cras: seq<CraRow>, k: nat)
    requires UniqueIds(cras) && k < |cras|
    ensures Lookup(cras, cras[k].id) == Some(cras[k])
  {
    if k > 0 {
      LookupAt(cras[1..], k - 1);
    }
  }

  /** `DELETE FROM cras WHERE id = id`. */
  function RemoveCra(cras: seq<CraRow>, id: Id): (r: seq<CraRow>)
    ensures forall c :: c in r <==> c in cras && c.id != id
  {
    if cras == [] then []
    else if cras[0].id != id then [cras[0]] + RemoveCra(cras[1..], id)
    else RemoveCra(cras[1..], id)
  }

  /** The aggregate `findById(id)` reads: the row with its activities joined in, or null. */
  function View(cras: seq<CraRow>, acts: seq<ActivityRow>, id: Id): (r: Option<Cra>)
    ensures r.Some? <==> id in CraIds(cras)
    ensures r.Some? ==> r.value.header.id == id && r.value.activities == ActivitiesOf(acts, id)
  {
    match Lookup(cras, id)
    case None => None
    case Some(row) => Some(Cra(row, ActivitiesOf(acts, id)))
  }

  /** Invariant 1 of the aggregate: every CRA's total is the sum of its activities' hours. */
  predicate TotalsConsistent(cras: seq<CraRow>, acts: seq<ActivityRow>) {
    forall i :: 0 <= i < |cras| ==> cras[i].totalHours == SumRowHours(ActivitiesOf(acts, cras[i].id))
  }

  /** Every activity row points at an existing CRA (the foreign key on `cra_id`). */
  predicate NoOrphans(cras: seq<CraRow>, acts: seq<ActivityRow>) {
    forall a :: a in acts ==> a.craId in CraIds(cras)
  }

  /** What a reader sees through `findById` honours the total invariant. */
  lemma ViewTotal(cras: seq<CraRow>, acts: seq<ActivityRow>, id: Id)
    requires TotalsConsistent(cras, acts)
    requires View(cras, acts, id).Some?
    ensures View(cras, acts, id).value.header.totalHours == SumRowHours(View(cras, acts, id).value.activities)
  {
    var row := Lookup(cras, id).value;
    var i :| 0 <= i < |cras| && cras[i] == row;
  }

  // ----------------------------------------------------------------- filters

  /** A filter value counts only when it is present and not the empty string (`if (status)`). */
  predicate Active(v: Option<string>) {
    v.Some? && v.value != ""
  }

  /**
   * The WHERE clause shared by findAll and count: every active filter must hold.
   * `status` is equality, `client` a case-insensitive substring (`ILIKE '%x%'`),
   * `startDate`/`endDate` inclusive bounds on the date.
   */
  predicate MatchesFilters(row: CraRow, f: Filters) {
    && (Active(f.status) ==> row.status == f.status.value)
    && (Active(f.client) ==> Contains(Lower(row.client), Lower(f.client.value)))
    && (Active(f.startDate) ==> LexLe(f.startDate.value, row.date))
    && (Active(f.endDate) ==> LexLe(row.date, f.endDate.value))
  }

  /** The rows that pass the filters, in table order. */
  function Select(cras: seq<CraRow>, f: Filters): (r: seq<CraRow>)
    ensures |r| <= |cras|
    ensures forall c :: c in r <==> c in cras && MatchesFilters(c, f)
  {
    if cras == [] then []
    else if MatchesFilters(cras[0], f) then [cras[0]] + Select(cras[1..], f)
    else Select(cras[1..], f)
  }

  lemma {:induction false} SelectAppend(a: seq<CraRow>, b: seq<CraRow>, f: Filters)
    ensures Select(a + b, f) == Select(a, f) + Select(b, f)
  {
    if a == [] {
      assert a + b == b;
    } else {
      var ab := a + b;
      assert ab[0] == a[0] && ab[1..] == a[1..] + b;
      SelectAppend(a[1..], b, f);
      if MatchesFilters(a[0], f) {
        assert Select(ab, f) == [a[0]] + Select(a[1..], f) + Select(b, f);
        assert Select(a, f) == [a[0]] + Select(a[1..], f);
      } else {
        assert Select(ab, f) == Select(a[1..], f) + Select(b, f);
        assert Select(a, f) == Select(a[1..], f);
      }
    }
  }

  /** With no filter at all, every CRA is selected. */
  lemma {:induction false} SelectNoFilters(cras: seq<CraRow>)
    ensures Select(cras, NoFilters) == cras
  {
    if cras != [] {
      SelectNoFilters(cras[1..]);
      assert [cras[0]] + cras[1..] == cras;
    }
  }

  // ---------------------------------------------------------------- ordering

  /** `ORDER BY c.date DESC, c.created_at DESC`: `a` may be listed before `b`. */
  predicate ListedBefore(a: CraRow, b: CraRow) {
    if a.date == b.date then a.createdAt >= b.createdAt else LexLe(b.date, a.date)
  }

  lemma ListedBeforeTotal(a: CraRow, b: CraRow)
    ensures ListedBefore(a, b) || ListedBefore(b, a)
  {
    LexLeTotal(a.date, b.date);
  }

  lemma ListedBeforeTransitive(a: CraRow, b: CraRow, c: CraRow)
    requires ListedBefore(a, b) && ListedBefore(b, c)
    ensures ListedBefore(a, c)
  {
    if a.date != b.date && b.date != c.date {
      LexLeTransitive(c.date, b.date, a.date);
      if a.date == c.date {
        LexLeAntisymmetric(a.date, b.date);
      }
    }
  }

  predicate SortedForListing(s: seq<CraRow>) {
    forall i, j :: 0 <= i < j < |s| ==> ListedBefore(s[i], s[j])
  }

  /** Insert `x` into a list already in listing order. */
  function Insert(x: CraRow, s: seq<CraRow>): (r: seq<CraRow>)
    requires SortedForListing(s)
    ensures SortedForListing(r)
    ensures multiset(r) == multiset(s) + multiset{x}
  {
    if s == [] then [x]
    else if ListedBefore(x, s[0]) then
      InsertFront(x, s);
      [x] + s
    else
      ListedBeforeTotal(x, s[0]);
      var rest := Insert(x, s[1..]);
      assert s == [s[0]] + s[1..];
      InsertBehind(s[0], rest, s[1..], x);
      [s[0]] + rest
  }

  lemma InsertFront(x: CraRow, s: seq<CraRow>)
    requires SortedForListing(s) && s != [] && ListedBefore(x, s[0])
    ensures SortedForListing([x] + s)
  {
    forall j | 1 <= j < |s| ensures ListedBefore(x, s[j]) {
      ListedBeforeTransitive(x, s[0], s[j]);
    }
  }

  lemma InsertBehind(h: CraRow, rest: seq<CraRow>, tail: seq<CraRow>, x: CraRow)
    requires SortedForListing(rest) && multiset(rest) == multiset(tail) + multiset{x}
    requires ListedBefore(h, x)
    requires forall j :: 0 <= j < |tail| ==> ListedBefore(h, tail[j])
    ensures SortedForListing([h] + rest)
  {
    forall j | 0 <= j < |rest| ensures ListedBefore(h, rest[j]) {
      assert rest[j] in multiset(rest);
      if rest[j] != x {
        assert rest[j] in multiset(tail);
        var k :| 0 <= k < |tail| && tail[k] == rest[j];
      }
    }
  }

  /** The selected rows put in listing order (an insertion sort). */
  function SortForListing(s: seq<CraRow>): (r: seq<CraRow>)
    ensures SortedForListing(r)
    ensures multiset(r) == multiset(s)
  {
    if s == [] then []
    else
      assert s == [s[0]] + s[1..];
      Insert(s[0], SortForListing(s[1..]))
  }

  // ------------------------------------------------------------------ paging

  /** `LIMIT limit OFFSET offset` applied to an ordered result. */
  function Page<T>(s: seq<T>, offset: nat, limit: nat): (r: seq<T>)
    ensures |r| == if offset >= |s| then 0 else if offset + limit <= |s| then limit else |s| - offset
    ensures forall i :: 0 <= i < |r| ==> r[i] == s[offset + i]
  {
    var lo := if offset <= |s| then offset else |s|;
    var hi := if offset + limit <= |s| then offset + limit else |s|;
    s[lo..hi]
  }

  /** Two consecutive pages together are the page that spans both. */
  lemma PagesConcatenate<T>(s: seq<T>, offset: nat, l1: nat, l2: nat)
    ensures Page(s, offset, l1) + Page(s, offset + l1, l2) == Page(s, offset, l1 + l2)
  {
    var left, right, whole := Page(s, offset, l1), Page(s, offset + l1, l2), Page(s, offset, l1 + l2);
    assert |left + right| == |whole|;
    forall i | 0 <= i < |whole| ensures (left + right)[i] == whole[i] {
      if i >= |left| {
        assert (left + right)[i] == right[i - |left|];
      }
    }
  }

  /** Attach every listed row's activities (the LEFT JOIN ... GROUP BY). */
  function Attach(rows: seq<CraRow>, acts: seq<ActivityRow>): (r: seq<Cra>)
    ensures |r| == |rows|
    ensures forall i :: 0 <= i < |rows| ==> r[i] == Cra(rows[i], ActivitiesOf(acts, rows[i].id))
  {
    seq(|rows|, i requires 0 <= i < |rows| => Cra(rows[i], ActivitiesOf(acts, rows[i].id)))
  }

  /** What findAll returns: filtered, ordered, paged, with activities attached. */
  function Listing(cras: seq<CraRow>, acts: seq<ActivityRow>, f: Filters, offset: nat, limit: nat): seq<Cra> {
    Attach(Page(SortForListing(Select(cras, f)), offset, limit), acts)
  }

  /**
   * Every listed CRA is a stored CRA that passes the filters, carries exactly
   * its own activities, and shows a total equal to their hours.
   */
  lemma ListingSound(cras: seq<CraRow>, acts: seq<ActivityRow>, f: Filters, offset: nat, limit: nat, i: nat)
    requires TotalsConsistent(cras, acts)
    requires i < |Listing(cras, acts, f, offset, limit)|
    ensures var c := Listing(cras, acts, f, offset, limit)[i];
      && c.header in cras
      && MatchesFilters(c.header, f)
      && c.activities == ActivitiesOf(acts, c.header.id)
      && c.header.totalHours == SumRowHours(c.activities)
  {
    var sorted := SortForListing(Select(cras, f));
    var row := sorted[offset + i];
    assert row in multiset(sorted);
    assert row in Select(cras, f);
    var k :| 0 <= k < |cras| && cras[k] == row;
  }

  /** The listing is in `date DESC, created_at DESC` order. */
  lemma ListingOrdered(cras: seq<CraRow>, acts: seq<ActivityRow>, f: Filters, offset: nat, limit: nat, i: nat, j: nat)
    requires i < j < |Listing(cras, acts, f, offset, limit)|
    ensures ListedBefore(Listing(cras, acts, f, offset, limit)[i].header, Listing(cras, acts, f, offset, limit)[j].header)
  {
  }

  /** A page that reaches past the end, starting at 0, lists every selected CRA: what count counts. */
  lemma ListingCoversCount(cras: seq<CraRow>, acts: seq<ActivityRow>, f: Filters, limit: nat)
    requires limit >= |Select(cras, f)|
    ensures |Listing(cras, acts, f, 0, limit)| == |Select(cras, f)|
  {
    var sel := Select(cras, f);
    assert |SortForListing(sel)| == |multiset(SortForListing(sel))| == |multiset(sel)| == |sel|;
  }
}
