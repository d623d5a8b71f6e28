/**
 * `CRAModel`: the aggregate store over the two tables `cras` and `activities`.
 *
 * Every write runs as one transaction (BEGIN ... COMMIT, ROLLBACK on any
 * failure). The backing database is represented by the two table fields; a
 * failure of the database is injected through a `Fault` that names the data
 * statement of the transaction that fails. Ids and timestamps come from two
 * counters which, like a database sequence and the wall clock, a rollback
 * does not rewind. The foreign key `activities.cra_id -> cras.id` is taken to
 * be enforced: inserting an activity for a missing CRA fails.
 */
module CraModel {
  import opened Common
  import opened CraTypes
  import opened CraTables

  /** The data statement of a transaction (numbered from 0) at which the database fails, if any. */
  datatype Fault = Never | AtStatement(index: nat)

  predicate Hits(fault: Fault, statement: nat) {
    fault.AtStatement? && fault.index == statement
  }

  /** The fault as the statements after the first `n` see it: their statement k is statement n + k of the whole. */
  function Shift(fault: Fault, n: nat): (r: Fault)
    ensures forall k :: Hits(r, k) <==> Hits(fault, n + k)
  {
    match fault
    case Never => Never
    case AtStatement(i) => if i >= n then AtStatement(i - n) else Never
  }

  /** The largest value of a `bigint` column or parameter, such as `LIMIT` and `OFFSET`. */
  const MaxBigint: int := 0x7FFF_FFFF_FFFF_FFFF

  /** Why a store operation failed; a failure inside a transaction rolls it back. */
  datatype StoreError =
    | StatementFailed(index: nat)
    | ForeignKeyViolation
    | NegativePaging
    | PagingOutOfRange

  // ------------------------------------------------- the SET list of update

  /** One entry of the `updates` list that update builds for its UPDATE statement. */
  datatype SetClause =
    | SetDate(date: string)
    | SetClient(client: string)
    | SetStatus(status: string)
    | SetTotal(total: real)
    | SetUpdatedAt

  function ApplyClause(row: CraRow, c: SetClause, now: Timestamp): CraRow {
    match c
    case SetDate(d) => row.(date := d)
    case SetClient(cl) => row.(client := cl)
    case SetStatus(s) => row.(status := s)
    case SetTotal(t) => row.(totalHours := t)
    case SetUpdatedAt => row.(updatedAt := now)
  }

  /** `UPDATE cras SET <clauses>` on one row. */
  function ApplyClauses(row: CraRow, cs: seq<SetClause>, now: Timestamp): CraRow
    decreases |cs|
  {
    if cs == [] then row else ApplyClauses(ApplyClause(row, cs[0], now), cs[1..], now)
  }

  /** The SET list update builds for `data`: one clause per supplied field, then `updated_at`. */
  function Clauses(data: UpdateInput): (cs: seq<SetClause>)
    ensures |cs| == 1 <==> NoFields(data)
  {
    (if data.date.Some? then [SetDate(data.date.value)] else [])
    + (if data.client.Some? then [SetClient(data.client.value)] else [])
    + (if data.status.Some? then [SetStatus(data.status.value)] else [])
    + (if data.activities.Some? then [SetTotal(SumHours(data.activities.value))] else [])
    + [SetUpdatedAt]
  }

  predicate NoFields(data: UpdateInput) {
    data.date.None? && data.client.None? && data.status.None? && data.activities.None?
  }

  /** The row as update leaves it: supplied fields replaced, the others kept, `updated_at` refreshed. */
  function UpdatedRow(row: CraRow, data: UpdateInput, now: Timestamp): CraRow {
    CraRow(
      row.id,
      data.date.GetOr(row.date),
      data.client.GetOr(row.client),
      if data.activities.Some? then SumHours(data.activities.value) else row.totalHours,
      data.status.GetOr(row.status),
      row.createdAt,
      now)
  }

  lemma ApplyClausesAppend(row: CraRow, a: seq<SetClause>, b: seq<SetClause>, now: Timestamp)
    ensures ApplyClauses(row, a + b, now) == ApplyClauses(ApplyClauses(row, a, now), b, now)
    decreases |a|
  {
    if a != [] {
      assert (a + b)[1..] == a[1..] + b;
      ApplyClausesAppend(ApplyClause(row, a[0], now), a[1..], b, now);
    } else {
      assert a + b == b;
    }
  }

  /** Running the SET list of `data` on a row gives exactly `UpdatedRow`. */
  lemma ClausesEffect(row: CraRow, data: UpdateInput, now: Timestamp)
    ensures ApplyClauses(row, Clauses(data), now) == UpdatedRow(row, data, now)
  {
    var c1 := if data.date.Some? then [SetDate(data.date.value)] else [];
    var c2 := if data.client.Some? then [SetClient(data.client.value)] else [];
    var c3 := if data.status.Some? then [SetStatus(data.status.value)] else [];
    var c4 := if data.activities.Some? then [SetTotal(SumHours(data.activities.value))] else [];
    var c5 := [SetUpdatedAt];
    assert Clauses(data) == c1 + c2 + c3 + c4 + c5;
    ApplyClausesAppend(row, c1 + c2 + c3 + c4, c5, now);
    ApplyClausesAppend(row, c1 + c2 + c3, c4, now);
    ApplyClausesAppend(row, c1 + c2, c3, now);
    ApplyClausesAppend(row, c1, c2, now);
  }

  // ------------------------------------------------------ the table invariant

  /**
   * What holds of the tables between transactions: CRA ids and activity ids
   * are unique and below the id counter, no activity is orphaned, every total is the sum of its
   * activities, and timestamps do not run ahead of the clock.
   */
  predicate TablesValid(cras: seq<CraRow>, acts: seq<ActivityRow>, nextId: nat, clock: nat) {
    && UniqueIds(cras)
    && UniqueActivityIds(acts)
    && (forall i :: 0 <= i < |cras| ==> cras[i].id < nextId)
    && (forall a :: a in acts ==> a.id < nextId)
    && NoOrphans(cras, acts)
    && TotalsConsistent(cras, acts)
    && (forall i :: 0 <= i < |cras| ==> cras[i].createdAt <= cras[i].updatedAt <= clock)
  }

  /** The invariant survives the counters moving forward. */
  lemma TablesValidLater(cras: seq<CraRow>, acts: seq<ActivityRow>, nextId: nat, clock: nat, nextId': nat, clock': nat)
    requires TablesValid(cras, acts, nextId, clock) && nextId <= nextId' && clock <= clock'
    ensures TablesValid(cras, acts, nextId', clock')
  {
  }

  lemma {:induction false} RemoveCraUnique(cras: seq<CraRow>, id: Id)
    requires UniqueIds(cras)
    ensures UniqueIds(RemoveCra(cras, id))
  {
    if cras != [] {
      RemoveCraUnique(cras[1..], id);
      var rest := RemoveCra(cras[1..], id);
      forall j | 0 <= j < |rest| ensures cras[0].id != rest[j].id {
        assert rest[j] in cras[1..];
      }
    }
  }

  lemma {:induction false} LookupRemoveOther(cras: seq<CraRow>, id: Id, other: Id)
    requires other != id
    ensures Lookup(RemoveCra(cras, id), other) == Lookup(cras, other)
  {
    if cras != [] {
      LookupRemoveOther(cras[1..], id, other);
    }
  }

  lemma {:induction false} LookupReplaceOther(cras: seq<CraRow>, k: nat, row: CraRow, other: Id)
    requires k < |cras| && row.id == cras[k].id && other != row.id
    ensures Lookup(cras[k := row], other) == Lookup(cras, other)
  {
    if k > 0 {
      assert cras[k := row][1..] == cras[1..][k - 1 := row];
      LookupReplaceOther(cras[1..], k - 1, row, other);
    }
  }

  lemma {:induction false} WithoutCraOfAbsent(acts: seq<ActivityRow>, id: Id)
    requires forall a :: a in acts ==> a.craId != id
    ensures WithoutCra(acts, id) == acts
  {
    if acts != [] {
      WithoutCraOfAbsent(acts[1..], id);
      assert [acts[0]] + acts[1..] == acts;
    }
  }

  /** Deleting the activities of one CRA keeps the remaining activity ids unique. */
  lemma {:induction false} WithoutCraUniqueActivityIds(acts: seq<ActivityRow>, id: Id)
    requires UniqueActivityIds(acts)
    ensures UniqueActivityIds(WithoutCra(acts, id))
  {
    if acts != [] {
      var tail := acts[1..];
      assert UniqueActivityIds(tail) by {
        forall i, j | 0 <= i < j < |tail| ensures tail[i].id != tail[j].id {
          assert tail[i] == acts[i + 1] && tail[j] == acts[j + 1];
        }
      }
      WithoutCraUniqueActivityIds(tail, id);
      if acts[0].craId != id {
        var rest := WithoutCra(tail, id);
        forall b | b in rest ensures acts[0].id != b.id {
          var m :| 0 <= m < |tail| && tail[m] == b;
          assert acts[m + 1] == b;
        }
        ConsUniqueActivityIds(acts[0], rest);
      }
    }
  }

  /** A row whose id differs from every id of unique rows can go in front of them. */
  lemma ConsUniqueActivityIds(x: ActivityRow, rest: seq<ActivityRow>)
    requires UniqueActivityIds(rest) && forall b :: b in rest ==> x.id != b.id
    ensures UniqueActivityIds([x] + rest)
  {
    var w := [x] + rest;
    forall i, j | 0 <= i < j < |w| ensures w[i].id != w[j].id {
      assert w[j] == rest[j - 1];
      if i > 0 { assert w[i] == rest[i - 1]; }
    }
  }

  /** Appending rows with fresh ids keeps activity ids unique. */
  lemma AppendFreshActivities(acts: seq<ActivityRow>, inserted: seq<ActivityRow>)
    requires UniqueActivityIds(acts) && FreshActivityIds(acts, inserted)
    ensures UniqueActivityIds(acts + inserted)
  {
    var w := acts + inserted;
    forall i, j | 0 <= i < j < |w| ensures w[i].id != w[j].id {
      if j < |acts| {
        assert w[i] == acts[i] && w[j] == acts[j];
      } else if i >= |acts| {
        assert w[i] == inserted[i - |acts|] && w[j] == inserted[j - |acts|];
      } else {
        assert w[i] == acts[i] && w[j] == inserted[j - |acts|];
        assert w[i] in acts && w[j] in inserted;
      }
    }
  }

  /** Ids drawn from the counter upwards are fresh against rows whose ids all lie below it. */
  lemma CountedIdsFresh(acts: seq<ActivityRow>, inserted: seq<ActivityRow>, lo: nat)
    requires (forall a :: a in acts ==> a.id < lo) && IdsFrom(inserted, lo)
    ensures FreshActivityIds(acts, inserted)
  {
    forall a, b | a in acts && b in inserted ensures a.id != b.id {
      var i :| 0 <= i < |inserted| && inserted[i] == b;
    }
  }

  /**
   * Replacing a CRA's activities by rows with fresh ids keeps activity ids
   * unique, and no id of a deleted row is found in the table afterwards.
   */
  lemma ReplacedDropsOldIds(acts: seq<ActivityRow>, id: Id, inserted: seq<ActivityRow>)
    requires UniqueActivityIds(acts) && FreshActivityIds(acts, inserted)
    ensures UniqueActivityIds(Replaced(acts, id, inserted))
    ensures forall a, b :: a in acts && a.craId == id && b in Replaced(acts, id, inserted) ==> a.id != b.id
  {
    var kept := WithoutCra(acts, id);
    forall a, b | a in acts && a.craId == id && b in Replaced(acts, id, inserted) ensures a.id != b.id {
      if b in kept {
        var i :| 0 <= i < |acts| && acts[i] == a;
        var j :| 0 <= j < |acts| && acts[j] == b;
        assert i != j;
      }
    }
    WithoutCraUniqueActivityIds(acts, id);
    assert FreshActivityIds(kept, inserted);
    AppendFreshActivities(kept, inserted);
  }

  /** A CRA appended under a fresh id keeps the ids unique. */
  lemma AppendFreshUnique(cras: seq<CraRow>, header: CraRow)
    requires UniqueIds(cras) && forall i :: 0 <= i < |cras| ==> cras[i].id < header.id
    ensures UniqueIds(cras + [header])
  {
    var cras' := cras + [header];
    forall i, j | 0 <= i < j < |cras'| ensures cras'[i].id != cras'[j].id {
      if j == |cras| {
        assert cras'[i] == cras[i];
      } else {
        assert cras'[i] == cras[i] && cras'[j] == cras[j];
      }
    }
  }

  /** No stored activity belongs to an id above every CRA id. */
  lemma NoActivitiesOfFresh(cras: seq<CraRow>, acts: seq<ActivityRow>, id: Id)
    requires NoOrphans(cras, acts) && forall i :: 0 <= i < |cras| ==> cras[i].id < id
    ensures ActivitiesOf(acts, id) == []
  {
    forall a | a in acts ensures a.craId != id {
      var i :| 0 <= i < |cras| && cras[i].id == a.craId;
    }
    ActivitiesOfNone(acts, id);
  }

  /** Rows inserted for one CRA are exactly that CRA's share of them and none of another's. */
  lemma InsertedActivitiesOf(inserted: seq<ActivityRow>, inputs: seq<ActivityInput>, craId: Id, id: Id)
    requires RowsFromInputs(inserted, inputs, craId)
    ensures ActivitiesOf(inserted, id) == if id == craId then inserted else []
  {
    forall a | a in inserted ensures a.craId == craId {
      var i :| 0 <= i < |inserted| && inserted[i] == a;
    }
    if id == craId {
      ActivitiesOfOnly(inserted, craId);
    } else {
      ActivitiesOfNone(inserted, id);
    }
  }

  /** Appending a new CRA with its inserted activities keeps every total, the new one included. */
  lemma AppendKeepsTotals(cras: seq<CraRow>, acts: seq<ActivityRow>, header: CraRow, inserted: seq<ActivityRow>, inputs: seq<ActivityInput>)
    requires TotalsConsistent(cras, acts) && NoOrphans(cras, acts)
    requires forall i :: 0 <= i < |cras| ==> cras[i].id < header.id
    requires header.totalHours == SumHours(inputs) && RowsFromInputs(inserted, inputs, header.id)
    ensures TotalsConsistent(cras + [header], acts + inserted)
    ensures ActivitiesOf(acts + inserted, header.id) == inserted
  {
    var cras', acts' := cras + [header], acts + inserted;
    ActivitiesOfAppend(acts, inserted, header.id);
    NoActivitiesOfFresh(cras, acts, header.id);
    InsertedActivitiesOf(inserted, inputs, header.id, header.id);
    SumOfRowsFromInputs(inserted, inputs, header.id);
    assert [] + inserted == inserted;
    assert ActivitiesOf(acts', header.id) == inserted;
    forall i | 0 <= i < |cras'|
      ensures cras'[i].totalHours == SumRowHours(ActivitiesOf(acts', cras'[i].id))
    {
      if i < |cras| {
        var id := cras[i].id;
        assert cras'[i] == cras[i];
        assert id != header.id;
        ActivitiesOfAppend(acts, inserted, id);
        InsertedActivitiesOf(inserted, inputs, header.id, id);
        assert ActivitiesOf(acts, id) + [] == ActivitiesOf(acts, id);
        assert ActivitiesOf(acts', id) == ActivitiesOf(acts, id);
        assert cras[i].totalHours == SumRowHours(ActivitiesOf(acts, id));
      } else {
        assert cras'[i] == header;
      }
    }
  }

  /** Appending a new CRA whose activities all point at it leaves no orphan. */
  lemma AppendKeepsNoOrphans(cras: seq<CraRow>, acts: seq<ActivityRow>, header: CraRow, inserted: seq<ActivityRow>, inputs: seq<ActivityInput>)
    requires NoOrphans(cras, acts) && RowsFromInputs(inserted, inputs, header.id)
    ensures NoOrphans(cras + [header], acts + inserted)
  {
    var cras', acts' := cras + [header], acts + inserted;
    forall a | a in acts' ensures a.craId in CraIds(cras') {
      if a in acts {
        var i :| 0 <= i < |cras| && cras[i].id == a.craId;
        assert cras'[i] == cras[i];
      } else {
        var i :| 0 <= i < |inserted| && inserted[i] == a;
        assert cras'[|cras|] == header;
      }
    }
  }

  /** Appending a new CRA and its freshly inserted activities keeps the invariant. */
  lemma CreateKeepsValid(
    cras: seq<CraRow>, acts: seq<ActivityRow>, nextId: nat, clock: nat,
    header: CraRow, inserted: seq<ActivityRow>, inputs: seq<ActivityInput>, nextId': nat, clock': nat)
    requires TablesValid(cras, acts, nextId, clock)
    requires header.id == nextId && header.totalHours == SumHours(inputs)
    requires header.createdAt == header.updatedAt == clock' && clock <= clock'
    requires RowsFromInputs(inserted, inputs, header.id)
    requires nextId < nextId' && forall a :: a in inserted ==> a.id < nextId'
    requires IdsFrom(inserted, nextId + 1)
    ensures TablesValid(cras + [header], acts + inserted, nextId', clock')
    ensures View(cras + [header], acts + inserted, header.id) == Some(Cra(header, inserted))
  {
    var cras', acts' := cras + [header], acts + inserted;
    AppendFreshUnique(cras, header);
    AppendInsertedIds(acts, inserted, nextId, nextId');
    AppendKeepsTotals(cras, acts, header, inserted, inputs);
    AppendKeepsNoOrphans(cras, acts, header, inserted, inputs);
    AppendHeaderBounds(cras, header, nextId, clock, nextId', clock');
    LookupAt(cras', |cras|);
    assert cras'[|cras|] == header;
  }

  /** Activity rows inserted under counter ids keep activity ids unique and below the counter. */
  lemma AppendInsertedIds(acts: seq<ActivityRow>, inserted: seq<ActivityRow>, nextId: nat, nextId': nat)
    requires UniqueActivityIds(acts) && forall a :: a in acts ==> a.id < nextId
    requires nextId < nextId' && forall a :: a in inserted ==> a.id < nextId'
    requires IdsFrom(inserted, nextId + 1)
    ensures UniqueActivityIds(acts + inserted)
    ensures forall a :: a in acts + inserted ==> a.id < nextId'
  {
    CountedIdsFresh(acts, inserted, nextId + 1);
    AppendFreshActivities(acts, inserted);
  }

  /** A header with the counter's id and the current time keeps the header bounds. */
  lemma AppendHeaderBounds(cras: seq<CraRow>, header: CraRow, nextId: nat, clock: nat, nextId': nat, clock': nat)
    requires forall i :: 0 <= i < |cras| ==> cras[i].id < nextId
    requires forall i :: 0 <= i < |cras| ==> cras[i].createdAt <= cras[i].updatedAt <= clock
    requires header.id == nextId < nextId' && header.createdAt == header.updatedAt == clock' && clock <= clock'
    ensures forall i :: 0 <= i < |cras + [header]| ==> (cras + [header])[i].id < nextId'
    ensures forall i :: 0 <= i < |cras + [header]| ==>
      (cras + [header])[i].createdAt <= (cras + [header])[i].updatedAt <= clock'
  {
    var cras' := cras + [header];
    forall i | 0 <= i < |cras'| ensures cras'[i].id < nextId' && cras'[i].createdAt <= cras'[i].updatedAt <= clock' {
      if i < |cras| { assert cras'[i] == cras[i]; }
    }
  }

  /** Deleting one CRA with its activities keeps the invariant and every other aggregate. */
  lemma DeleteKeepsValid(cras: seq<CraRow>, acts: seq<ActivityRow>, nextId: nat, clock: nat, id: Id)
    requires TablesValid(cras, acts, nextId, clock)
    ensures TablesValid(RemoveCra(cras, id), WithoutCra(acts, id), nextId, clock)
    ensures View(RemoveCra(cras, id), WithoutCra(acts, id), id) == None
    ensures forall other :: other != id ==>
      View(RemoveCra(cras, id), WithoutCra(acts, id), other) == View(cras, acts, other)
  {
    var cras', acts' := RemoveCra(cras, id), WithoutCra(acts, id);
    RemoveCraUnique(cras, id);
    WithoutCraUniqueActivityIds(acts, id);
    forall i | 0 <= i < |cras'|
      ensures cras'[i].id < nextId && cras'[i].createdAt <= cras'[i].updatedAt <= clock
      ensures cras'[i].totalHours == SumRowHours(ActivitiesOf(acts', cras'[i].id))
    {
      assert cras'[i] in cras;
      var k :| 0 <= k < |cras| && cras[k] == cras'[i];
      WithoutCraKeepsOthers(acts, id, cras'[i].id);
    }
    forall a | a in acts' ensures a.craId in CraIds(cras') {
      var k :| 0 <= k < |cras| && cras[k].id == a.craId;
      assert cras[k] in cras';
    }
    forall other | other != id
      ensures View(cras', acts', other) == View(cras, acts, other)
    {
      LookupRemoveOther(cras, id, other);
      WithoutCraKeepsOthers(acts, id, other);
    }
  }

  /** The activities after a replacement: the CRA's old ones deleted, the new ones appended. */
  function Replaced(acts: seq<ActivityRow>, id: Id, inserted: seq<ActivityRow>): seq<ActivityRow> {
    WithoutCra(acts, id) + inserted
  }

  /** Replacing one CRA's activities leaves every other CRA's activities as they were. */
  lemma ReplacedOthers(acts: seq<ActivityRow>, id: Id, inserted: seq<ActivityRow>, inputs: seq<ActivityInput>, other: Id)
    requires RowsFromInputs(inserted, inputs, id) && other != id
    ensures ActivitiesOf(Replaced(acts, id, inserted), other) == ActivitiesOf(acts, other)
  {
    ActivitiesOfAppend(WithoutCra(acts, id), inserted, other);
    InsertedActivitiesOf(inserted, inputs, id, other);
    WithoutCraKeepsOthers(acts, id, other);
    assert ActivitiesOf(acts, other) + [] == ActivitiesOf(acts, other);
  }

  /** After the replacement the CRA's activities are exactly the inserted rows. */
  lemma ReplacedOwn(acts: seq<ActivityRow>, id: Id, inserted: seq<ActivityRow>, inputs: seq<ActivityInput>)
    requires RowsFromInputs(inserted, inputs, id)
    ensures ActivitiesOf(Replaced(acts, id, inserted), id) == inserted
  {
    ActivitiesOfAppend(WithoutCra(acts, id), inserted, id);
    ActivitiesOfNone(WithoutCra(acts, id), id);
    InsertedActivitiesOf(inserted, inputs, id, id);
    assert [] + inserted == inserted;
  }

  /** The activity table as update leaves it. */
  function ActivitiesAfterUpdate(acts: seq<ActivityRow>, id: Id, data: UpdateInput, inserted: seq<ActivityRow>): seq<ActivityRow> {
    if data.activities.Some? then Replaced(acts, id, inserted) else acts
  }

  /** Update changes the activities of its own CRA only, and to the inserted rows. */
  lemma UpdateActivitiesOf(acts: seq<ActivityRow>, id: Id, data: UpdateInput, inserted: seq<ActivityRow>, other: Id)
    requires data.activities.Some? ==> RowsFromInputs(inserted, data.activities.value, id)
    ensures ActivitiesOf(ActivitiesAfterUpdate(acts, id, data, inserted), other) ==
      if other == id && data.activities.Some? then inserted else ActivitiesOf(acts, other)
  {
    if data.activities.Some? {
      if other == id {
        ReplacedOwn(acts, id, inserted, data.activities.value);
      } else {
        ReplacedOthers(acts, id, inserted, data.activities.value, other);
      }
    }
  }

  lemma UpdateKeepsTotals(cras: seq<CraRow>, acts: seq<ActivityRow>, k: nat, data: UpdateInput, now: Timestamp, inserted: seq<ActivityRow>)
    requires TotalsConsistent(cras, acts) && UniqueIds(cras) && k < |cras|
    requires data.activities.Some? ==> RowsFromInputs(inserted, data.activities.value, cras[k].id)
    ensures TotalsConsistent(cras[k := UpdatedRow(cras[k], data, now)], ActivitiesAfterUpdate(acts, cras[k].id, data, inserted))
  {
    var id := cras[k].id;
    var cras' := cras[k := UpdatedRow(cras[k], data, now)];
    var acts' := ActivitiesAfterUpdate(acts, id, data, inserted);
    forall i | 0 <= i < |cras'|
      ensures cras'[i].totalHours == SumRowHours(ActivitiesOf(acts', cras'[i].id))
    {
      UpdateActivitiesOf(acts, id, data, inserted, cras'[i].id);
      if i == k {
        if data.activities.Some? {
          SumOfRowsFromInputs(inserted, data.activities.value, id);
        }
      } else {
        assert cras'[i] == cras[i] && cras[i].id != id;
      }
    }
  }

  lemma UpdateKeepsNoOrphans(cras: seq<CraRow>, acts: seq<ActivityRow>, k: nat, data: UpdateInput, now: Timestamp, inserted: seq<ActivityRow>)
    requires NoOrphans(cras, acts) && k < |cras|
    requires data.activities.Some? ==> RowsFromInputs(inserted, data.activities.value, cras[k].id)
    ensures NoOrphans(cras[k := UpdatedRow(cras[k], data, now)], ActivitiesAfterUpdate(acts, cras[k].id, data, inserted))
  {
    var id := cras[k].id;
    var cras' := cras[k := UpdatedRow(cras[k], data, now)];
    var acts' := ActivitiesAfterUpdate(acts, id, data, inserted);
    forall a | a in acts' ensures a.craId in CraIds(cras') {
      if a in acts {
        var j :| 0 <= j < |cras| && cras[j].id == a.craId;
        assert cras'[j].id == a.craId;
      } else {
        var i :| 0 <= i < |inserted| && inserted[i] == a;
        assert cras'[k].id == a.craId;
      }
    }
  }

  /** Rewriting a row without changing its id keeps the ids unique. */
  lemma ReplaceRowUnique(cras: seq<CraRow>, k: nat, row: CraRow)
    requires UniqueIds(cras) && k < |cras| && row.id == cras[k].id
    ensures UniqueIds(cras[k := row])
  {
    var cras' := cras[k := row];
    forall i, j | 0 <= i < j < |cras'| ensures cras'[i].id != cras'[j].id {
      assert cras'[i].id == cras[i].id && cras'[j].id == cras[j].id;
    }
  }

  lemma UpdateKeepsRows(cras: seq<CraRow>, nextId: nat, clock: nat, k: nat, data: UpdateInput, now: Timestamp, nextId': nat)
    requires UniqueIds(cras) && k < |cras| && clock <= now && nextId <= nextId'
    requires forall i :: 0 <= i < |cras| ==> cras[i].id < nextId
    requires forall i :: 0 <= i < |cras| ==> cras[i].createdAt <= cras[i].updatedAt <= clock
    ensures var cras' := cras[k := UpdatedRow(cras[k], data, now)];
      && UniqueIds(cras')
      && (forall i :: 0 <= i < |cras'| ==> cras'[i].id < nextId')
      && (forall i :: 0 <= i < |cras'| ==> cras'[i].createdAt <= cras'[i].updatedAt <= now)
  {
    var cras' := cras[k := UpdatedRow(cras[k], data, now)];
    ReplaceRowUnique(cras, k, cras'[k]);
    forall i | 0 <= i < |cras'| ensures cras'[i].id < nextId' && cras'[i].createdAt <= cras'[i].updatedAt <= now {
      if i != k { assert cras'[i] == cras[i]; }
    }
  }

  lemma UpdateKeepsActivityIds(acts: seq<ActivityRow>, id: Id, data: UpdateInput, inserted: seq<ActivityRow>, nextId: nat, nextId': nat)
    requires nextId <= nextId'
    requires forall a :: a in acts ==> a.id < nextId
    requires forall a :: a in inserted ==> a.id < nextId'
    ensures forall a :: a in ActivitiesAfterUpdate(acts, id, data, inserted) ==> a.id < nextId'
  {
    forall a | a in ActivitiesAfterUpdate(acts, id, data, inserted) ensures a.id < nextId' {
      if a !in inserted { assert a in acts; }
    }
  }

  /**
   * Rewriting the row at `k` and, when activities were supplied, replacing its
   * activities by `inserted` keeps the invariant.
   */
  lemma UpdateKeepsValid(
    cras: seq<CraRow>, acts: seq<ActivityRow>, nextId: nat, clock: nat,
    k: nat, data: UpdateInput, now: Timestamp, inserted: seq<ActivityRow>, nextId': nat)
    requires TablesValid(cras, acts, nextId, clock)
    requires k < |cras| && clock <= now && nextId <= nextId'
    requires data.activities.Some? ==> RowsFromInputs(inserted, data.activities.value, cras[k].id)
    requires forall a :: a in inserted ==> a.id < nextId'
    requires FreshActivityIds(acts, inserted)
    ensures TablesValid(cras[k := UpdatedRow(cras[k], data, now)], ActivitiesAfterUpdate(acts, cras[k].id, data, inserted), nextId', now)
  {
    if data.activities.Some? {
      ReplacedDropsOldIds(acts, cras[k].id, inserted);
    }
    UpdateKeepsRows(cras, nextId, clock, k, data, now, nextId');
    UpdateKeepsActivityIds(acts, cras[k].id, data, inserted, nextId, nextId');
    UpdateKeepsTotals(cras, acts, k, data, now, inserted);
    UpdateKeepsNoOrphans(cras, acts, k, data, now, inserted);
  }

  /** After update the CRA reads as its rewritten row with its new activities; other CRAs read as before. */
  lemma UpdateViews(cras: seq<CraRow>, acts: seq<ActivityRow>, k: nat, data: UpdateInput, now: Timestamp, inserted: seq<ActivityRow>)
    requires UniqueIds(cras) && k < |cras|
    requires data.activities.Some? ==> RowsFromInputs(inserted, data.activities.value, cras[k].id)
    ensures var cras' := cras[k := UpdatedRow(cras[k], data, now)];
      var acts' := ActivitiesAfterUpdate(acts, cras[k].id, data, inserted);
      && View(cras', acts', cras[k].id) == Some(Cra(UpdatedRow(cras[k], data, now), if data.activities.Some? then inserted else ActivitiesOf(acts, cras[k].id)))
      && forall other :: other != cras[k].id ==> View(cras', acts', other) == View(cras, acts, other)
  {
    var id := cras[k].id;
    var row := UpdatedRow(cras[k], data, now);
    var cras' := cras[k := row];
    var acts' := ActivitiesAfterUpdate(acts, id, data, inserted);
    ReplaceRowUnique(cras, k, row);
    LookupAt(cras', k);
    UpdateActivitiesOf(acts, id, data, inserted, id);
    forall other | other != id ensures View(cras', acts', other) == View(cras, acts, other) {
      LookupReplaceOther(cras, k, row, other);
      UpdateActivitiesOf(acts, id, data, inserted, other);
    }
  }

  /**
   * The position of update's UPDATE statement: after the DELETE and the
   * INSERTs when an activity list was supplied, first otherwise.
   */
  function UpdateStatementIndex(data: UpdateInput): nat {
    if data.activities.Some? then |data.activities.value| + 1 else 0
  }

  /**
   * The position of update's read-back `findById`: right after the UPDATE when
   * a field was supplied, the only statement otherwise.
   */
  function ReadBackStatement(data: UpdateInput): nat {
    if NoFields(data) then 0 else UpdateStatementIndex(data) + 1
  }

  /**
   * Whether update fails, for a CRA that is stored (`present`) or not: a
   * non-empty activity list for a missing CRA breaks the foreign key, and
   * otherwise any statement the transaction runs may fail. A stored CRA runs
   * every statement up to the read-back; for a missing one the UPDATE matches
   * no row and nothing is read back.
   */
  predicate UpdateFails(data: UpdateInput, present: bool, fault: Fault) {
    || (!present && data.activities.Some? && |data.activities.value| > 0)
    || (fault.AtStatement? && fault.index <= (if present then ReadBackStatement(data) else UpdateStatementIndex(data)))
  }

  /**
   * Whether update's outcome `r` comes after the COMMIT of a rewritten row:
   * the CRA read back, or a read-back that failed once the changes were kept.
   */
  predicate RowRewritten(data: UpdateInput, r: Result<Option<Cra>, StoreError>) {
    && !NoFields(data)
    && (r == Err(StatementFailed(ReadBackStatement(data))) || (r.Ok? && r.value.Some?))
  }

  /**
   * The tables `cras` and `acts` once update's transaction committed for the
   * stored CRA `id`: its row rewritten by the SET list, its activities
   * replaced by rows with new ids when a list was supplied, and every other
   * CRA as it was.
   */
  ghost predicate UpdateApplied(
    cras0: seq<CraRow>, acts0: seq<ActivityRow>, nextId0: nat,
    cras: seq<CraRow>, acts: seq<ActivityRow>, id: Id, data: UpdateInput, now: Timestamp)
  {
    && Lookup(cras0, id).Some?
    && View(cras, acts, id).Some?
    && View(cras, acts, id).value.header == UpdatedRow(Lookup(cras0, id).value, data, now)
    && (data.activities.Some? ==>
          var rows := View(cras, acts, id).value.activities;
          && RowsFromInputs(rows, data.activities.value, id)
          && acts == WithoutCra(acts0, id) + rows
          && (forall a :: a in rows ==> nextId0 <= a.id)
          && (forall a, b :: a in acts0 && a.craId == id && b in acts ==> a.id != b.id))
    && (data.activities.None? ==> acts == acts0)
    && forall other :: other != id ==> View(cras, acts, other) == View(cras0, acts0, other)
  }

  /** The rewrite of a stored CRA with fresh activity rows is the committed update. */
  lemma RewriteApplied(
    cras0: seq<CraRow>, acts0: seq<ActivityRow>, nextId0: nat,
    cras: seq<CraRow>, acts: seq<ActivityRow>, id: Id, data: UpdateInput, now: Timestamp, inserted: seq<ActivityRow>)
    requires UniqueActivityIds(acts0) && FreshActivityIds(acts0, inserted)
    requires acts == ActivitiesAfterUpdate(acts0, id, data, inserted)
    requires data.activities.Some? ==>
      RowsFromInputs(inserted, data.activities.value, id) && forall a :: a in inserted ==> nextId0 <= a.id
    requires Lookup(cras0, id).Some?
    requires View(cras, acts, id) == Some(Cra(
      UpdatedRow(Lookup(cras0, id).value, data, now),
      if data.activities.Some? then inserted else ActivitiesOf(acts0, id)))
    requires forall other :: other != id ==> View(cras, acts, other) == View(cras0, acts0, other)
    ensures UpdateApplied(cras0, acts0, nextId0, cras, acts, id, data, now)
  {
    if data.activities.Some? {
      ReplacedDropsOldIds(acts0, id, inserted);
    }
  }

  // --------------------------------------------------------------- the store

  class CraStore {
    var cras: seq<CraRow>
    var activities: seq<ActivityRow>
    var nextId: nat
    var clock: nat

    ghost predicate Valid()
      reads this
    {
      TablesValid(cras, activities, nextId, clock)
    }

    constructor ()
      ensures Valid() && cras == [] && activities == []
    {
      cras, activities := [], [];
      nextId, clock := 1, 0;
    }

    /** The position of the CRA `id` in the `cras` table, or -1 (`WHERE c.id = $1`). */
    method Locate(id: Id) returns (k: int)
      requires UniqueIds(cras)
      ensures -1 <= k < |cras|
      ensures k == -1 <==> id !in CraIds(cras)
      ensures k >= 0 ==> cras[k].id == id && Lookup(cras, id) == Some(cras[k])
    {
      k := 0;
      while k < |cras|
        invariant 0 <= k <= |cras|
        invariant forall j :: 0 <= j < k ==> cras[j].id != id
      {
        if cras[k].id == id {
          LookupAt(cras, k);
          return;
        }
        k := k + 1;
      }
      k := -1;
    }

    /** `findById`: one SELECT (statement 0); the aggregate with its activities, or null when no CRA has that id. */
    method FindById(id: Id, fault: Fault) returns (r: Result<Option<Cra>, StoreError>)
      requires Valid()
      ensures r.Err? <==> Hits(fault, 0)
      ensures r.Err? ==> r.error == StatementFailed(0)
      ensures r.Ok? ==> r.value == View(cras, activities, id)
      ensures r.Ok? ==> (r.value.Some? <==> id in CraIds(cras))
      ensures r.Ok? && r.value.Some? ==> r.value.value.header.id == id
      ensures r.Ok? && r.value.Some? ==>
        forall a :: a in r.value.value.activities <==> a in activities && a.craId == id
      ensures r.Ok? && r.value.Some? ==> r.value.value.header.totalHours == SumRowHours(r.value.value.activities)
    {
      if Hits(fault, 0) {
        return Err(StatementFailed(0));
      }
      var k := Locate(id);
      if k < 0 {
        r := Ok(None);
      } else {
        r := Ok(Some(Cra(cras[k], ActivitiesOf(activities, id))));
        ViewTotal(cras, activities, id);
      }
    }

    /**
     * `create`: one transaction inserting the CRA row (statement 0) with the
     * sum of the activities' hours as its total and the given status or
     * 'draft', then one activity row per input (statements 1..n), in order.
     */
    method Create(data: CreateInput, fault: Fault) returns (r: Result<Cra, StoreError>)
      requires Valid()
      modifies this
      ensures Valid()
      ensures r.Err? <==> fault.AtStatement? && fault.index <= |data.activities|
      ensures r.Err? ==> cras == old(cras) && activities == old(activities)
      ensures r.Ok? ==>
        var c := r.value;
        && c.header.id !in CraIds(old(cras))
        && c.header.date == data.date
        && c.header.client == data.client
        && c.header.status == (if Active(data.status) then data.status.value else DefaultStatus)
        && c.header.totalHours == SumHours(data.activities)
        && c.header.createdAt == c.header.updatedAt == clock > old(clock)
        && RowsFromInputs(c.activities, data.activities, c.header.id)
        && (forall a :: a in c.activities ==> old(nextId) <= a.id)
        && cras == old(cras) + [c.header]
        && activities == old(activities) + c.activities
        && View(cras, activities, c.header.id) == Some(c)
    {
      // BEGIN
      var savedCras, savedActivities := cras, activities;
      clock := clock + 1;
      var now := clock;
      var totalHours := SumHours(data.activities);
      var status := if Active(data.status) then data.status.value else DefaultStatus;
      if Hits(fault, 0) {
        TablesValidLater(savedCras, savedActivities, nextId, old(clock), nextId, clock);
        return Err(StatementFailed(0));  // ROLLBACK: nothing written yet
      }
      var header := CraRow(nextId, data.date, data.client, totalHours, status, now, now);
      nextId := nextId + 1;
      cras := cras + [header];
      assert header.id in CraIds(cras) by {
        assert cras[|cras| - 1] == header;
      }
      var failure, inserted := InsertRows(header.id, data.activities, fault, now);
      if failure.Some? {
        cras, activities := savedCras, savedActivities;  // ROLLBACK
        TablesValidLater(savedCras, savedActivities, old(nextId), old(clock), nextId, clock);
        return Err(failure.value);
      }
      // COMMIT
      CreateKeepsValid(savedCras, savedActivities, old(nextId), old(clock), header, inserted, data.activities, nextId, clock);
      r := Ok(Cra(header, inserted));
    }

    /**
     * The SET list of update's UPDATE statement, one clause per supplied field
     * in the order date, client, status, total, and `updated_at` last.
     */
    static method BuildClauses(data: UpdateInput) returns (updates: seq<SetClause>)
      ensures updates == Clauses(data)
    {
      updates := [];
      if data.date.Some? {
        updates := updates + [SetDate(data.date.value)];
      }
      if data.client.Some? {
        updates := updates + [SetClient(data.client.value)];
      }
      if data.status.Some? {
        updates := updates + [SetStatus(data.status.value)];
      }
      if data.activities.Some? {
        updates := updates + [SetTotal(SumHours(data.activities.value))];
      }
      updates := updates + [SetUpdatedAt];
    }

    /**
     * The activity part of update's transaction: DELETE the CRA's activities
     * (statement 0), then INSERT each new one (statements 1..n), each insert
     * checked against the foreign key to `cras`. On a failure the activity
     * table is rolled back and the failure returned.
     */
    method ReplaceActivities(id: Id, acts: seq<ActivityInput>, fault: Fault, now: Timestamp)
      returns (failure: Option<StoreError>, inserted: seq<ActivityRow>)
      requires Valid() && clock == now
      modifies this
      ensures cras == old(cras) && clock == old(clock) && old(nextId) <= nextId
      ensures failure.Some? ==> activities == old(activities)
      ensures failure.Some? <==>
        (fault.AtStatement? && fault.index <= |acts|) || (id !in CraIds(cras) && |acts| > 0)
      ensures failure.Some? && failure.value.StatementFailed? ==>
        Hits(fault, failure.value.index) && failure.value.index <= |acts|
      ensures failure.None? ==>
        && activities == Replaced(old(activities), id, inserted)
        && RowsFromInputs(inserted, acts, id)
        && IdsFrom(inserted, old(nextId))
        && (forall a :: a in inserted ==> old(nextId) <= a.id < nextId)
      ensures failure.None? && id !in CraIds(cras) ==> inserted == [] && activities == old(activities)
    {
      inserted := [];
      // DELETE FROM activities WHERE cra_id = id
      if Hits(fault, 0) {
        return Some(StatementFailed(0)), [];
      }
      var savedActivities := activities;
      activities := WithoutCra(activities, id);
      failure, inserted := InsertRows(id, acts, fault, now);
      if failure.Some? {
        activities := savedActivities;  // ROLLBACK
        inserted := [];
      } else if id !in CraIds(cras) {
        // no row of the CRA, hence none of its activities either
        forall a | a in savedActivities ensures a.craId != id {
          var j :| 0 <= j < |cras| && cras[j].id == a.craId;
        }
        WithoutCraOfAbsent(savedActivities, id);
        assert inserted == [];
        assert activities == savedActivities + [];
      }
    }

    /**
     * The activity INSERTs of create and update (statements 1..n): one row per
     * input, in order, with a fresh id, each checked against the foreign key
     * to `cras`. On a failure the rows inserted so far are undone.
     */
    method InsertRows(id: Id, acts: seq<ActivityInput>, fault: Fault, now: Timestamp)
      returns (failure: Option<StoreError>, inserted: seq<ActivityRow>)
      modifies this
      ensures cras == old(cras) && clock == old(clock) && old(nextId) <= nextId
      ensures failure.Some? ==> activities == old(activities)
      ensures failure.Some? <==>
        (fault.AtStatement? && 1 <= fault.index <= |acts|) || (id !in CraIds(cras) && |acts| > 0)
      ensures failure.Some? && failure.value.StatementFailed? ==>
        Hits(fault, failure.value.index) && failure.value.index <= |acts|
      ensures failure.None? ==>
        && activities == old(activities) + inserted
        && RowsFromInputs(inserted, acts, id)
        && IdsFrom(inserted, old(nextId))
        && (forall a :: a in inserted ==> old(nextId) <= a.id < nextId)
    {
      var saved := activities;
      inserted := [];
      var i := 0;
      while i < |acts|
        invariant 0 <= i <= |acts|
        invariant cras == old(cras) && clock == old(clock) && old(nextId) <= nextId
        invariant activities == saved + inserted
        invariant RowsFromInputs(inserted, acts[..i], id)
        invariant forall a :: a in inserted ==> old(nextId) <= a.id < nextId
        invariant IdsFrom(inserted, old(nextId)) && nextId == old(nextId) + |inserted|
        invariant !(fault.AtStatement? && 1 <= fault.index <= i)
        invariant i > 0 ==> id in CraIds(cras)
      {
        // INSERT INTO activities (cra_id, ...) VALUES (id, ...)
        if Hits(fault, i + 1) {
          activities := saved;
          return Some(StatementFailed(i + 1)), [];
        }
        if Lookup(cras, id).None? {
          activities := saved;
          return Some(ForeignKeyViolation), [];
        }
        var a := acts[i];
        var row := ActivityRow(nextId, id, a.description, a.hours, a.category, now);
        nextId := nextId + 1;
        activities := activities + [row];
        inserted := inserted + [row];
        i := i + 1;
      }
      assert acts[..i] == acts;
      failure := None;
    }

    /**
     * `update`: one transaction. With `activities` supplied it deletes the
     * CRA's activities (a statement) and inserts the new ones (one statement
     * each); then, unless no field was supplied, it runs the UPDATE (a
     * statement), commits, and reads the aggregate back (the next statement,
     * whose failure keeps the committed changes). With no field at all nothing
     * is written and the aggregate is read as it is.
     */
    method Update(id: Id, data: UpdateInput, fault: Fault) returns (r: Result<Option<Cra>, StoreError>)
      requires Valid()
      modifies this
      ensures Valid()
      ensures !RowRewritten(data, r) ==> cras == old(cras) && activities == old(activities)
      ensures r.Err? && r.error.StatementFailed? ==> Hits(fault, r.error.index)
      ensures NoFields(data) ==>
        r == if Hits(fault, 0) then Err(StatementFailed(0)) else Ok(View(old(cras), old(activities), id))
      ensures id !in CraIds(old(cras)) ==>
        cras == old(cras) && activities == old(activities) && (r.Ok? ==> r.value == None)
      ensures r.Ok? ==> (r.value.Some? <==> id in CraIds(old(cras)))
      ensures r.Err? <==> UpdateFails(data, id in CraIds(old(cras)), fault)
      ensures fault == Never ==>
        (r.Err? <==> id !in CraIds(old(cras)) && data.activities.Some? && |data.activities.value| > 0)
      ensures !NoFields(data) && id in CraIds(old(cras)) && Hits(fault, ReadBackStatement(data)) ==>
        r == Err(StatementFailed(ReadBackStatement(data)))
      ensures RowRewritten(data, r) ==>
        clock > old(clock) && UpdateApplied(old(cras), old(activities), old(nextId), cras, activities, id, data, clock)
      ensures r.Ok? && r.value.Some? ==> r.value == View(cras, activities, id)
    {
      // BEGIN
      var savedCras, savedActivities := cras, activities;
      clock := clock + 1;
      var now := clock;
      var statement := 0;
      var updates := BuildClauses(data);
      var inserted: seq<ActivityRow> := [];
      if data.activities.Some? {
        var acts := data.activities.value;
        var failure;
        failure, inserted := ReplaceActivities(id, acts, fault, now);
        if failure.Some? {
          TablesValidLater(savedCras, savedActivities, old(nextId), old(clock), nextId, clock);
          r := Err(failure.value);
          assert !RowRewritten(data, r) by {
            assert ReadBackStatement(data) == |acts| + 2;
          }
          return;
        }
        statement := |acts| + 1;
      }
      assert activities == ActivitiesAfterUpdate(savedActivities, id, data, inserted);
      TablesValidLater(savedCras, savedActivities, old(nextId), old(clock), nextId, clock);
      assert FreshActivityIds(savedActivities, inserted) by {
        if data.activities.Some? {
          CountedIdsFresh(savedActivities, inserted, old(nextId));
        }
      }

      if |updates| == 1 {
        // COMMIT, then `this.findById(id)`
        assert NoFields(data) && cras == savedCras && activities == savedActivities;
        r := FindById(id, fault);
        return;
      }

      assert statement == UpdateStatementIndex(data);
      r := UpdateStatement(id, data, updates, statement, fault, savedCras, savedActivities, old(nextId), inserted);
    }

    /**
     * The UPDATE statement of update (`UPDATE cras SET <updates> WHERE id = $n`),
     * run when at least one field was supplied, then the COMMIT and the
     * read-back. The activity statements, if any, have already run. A failing
     * UPDATE rolls the whole transaction back to `priorCras` and
     * `priorActivities`; the read-back runs after the COMMIT, outside the
     * `try`, so its failure keeps the changes.
     */
    method UpdateStatement(
      id: Id, data: UpdateInput, updates: seq<SetClause>, statement: nat, fault: Fault,
      priorCras: seq<CraRow>, priorActivities: seq<ActivityRow>, ghost priorNextId: nat, ghost inserted: seq<ActivityRow>)
      returns (r: Result<Option<Cra>, StoreError>)
      requires updates == Clauses(data) && !NoFields(data) && statement == UpdateStatementIndex(data)
      requires cras == priorCras && TablesValid(priorCras, priorActivities, nextId, clock)
      requires activities == ActivitiesAfterUpdate(priorActivities, id, data, inserted)
      requires id !in CraIds(priorCras) ==> activities == priorActivities
      requires data.activities.Some? ==> RowsFromInputs(inserted, data.activities.value, id)
      requires forall a :: a in inserted ==> a.id < nextId
      requires FreshActivityIds(priorActivities, inserted)
      requires data.activities.Some? ==> forall a :: a in inserted ==> priorNextId <= a.id
      modifies this
      ensures Valid() && clock == old(clock) && nextId == old(nextId)
      ensures r.Err? <==> Hits(fault, statement) || (id in CraIds(priorCras) && Hits(fault, statement + 1))
      ensures r.Err? ==> r.error == StatementFailed(if Hits(fault, statement) then statement else statement + 1)
      ensures r.Err? ==> r.error.StatementFailed? && Hits(fault, r.error.index)
      ensures id in CraIds(priorCras) && Hits(fault, ReadBackStatement(data)) ==>
        r == Err(StatementFailed(ReadBackStatement(data)))
      ensures !RowRewritten(data, r) ==> cras == priorCras && activities == priorActivities
      ensures r.Ok? ==> (r.value.Some? <==> id in CraIds(priorCras))
      ensures RowRewritten(data, r) ==>
        activities == old(activities) && UpdateApplied(priorCras, priorActivities, priorNextId, cras, activities, id, data, clock)
      ensures r.Ok? && r.value.Some? ==> r.value == View(cras, activities, id)
    {
      assert ReadBackStatement(data) == statement + 1;
      if Hits(fault, statement) {
        cras, activities := priorCras, priorActivities;  // ROLLBACK
        return Err(StatementFailed(statement));
      }
      var k := Locate(id);
      if k < 0 {
        // COMMIT; no row matched
        return Ok(None);
      }
      WriteRow(k, data, updates, priorActivities, inserted, nextId, clock);
      RewriteApplied(priorCras, priorActivities, priorNextId, cras, activities, id, data, clock, inserted);
      // COMMIT, then `this.findById(id)`, the statement after the UPDATE
      var found := FindById(id, Shift(fault, statement + 1));
      if found.Err? {
        return Err(StatementFailed(statement + 1));
      }
      r := found;
    }

    /**
     * The UPDATE statement of update, once the row `k` is known to match: the
     * row is rewritten by the SET clauses, and the CRA then reads as that row
     * with the activity table as it now stands.
     */
    method WriteRow(
      k: nat, data: UpdateInput, updates: seq<SetClause>,
      ghost priorActivities: seq<ActivityRow>, ghost inserted: seq<ActivityRow>,
      ghost priorNextId: nat, ghost priorClock: nat)
      requires k < |cras| && updates == Clauses(data)
      requires TablesValid(cras, priorActivities, priorNextId, priorClock)
      requires priorClock <= clock && priorNextId <= nextId
      requires activities == ActivitiesAfterUpdate(priorActivities, cras[k].id, data, inserted)
      requires data.activities.Some? ==> RowsFromInputs(inserted, data.activities.value, cras[k].id)
      requires forall a :: a in inserted ==> a.id < nextId
      requires FreshActivityIds(priorActivities, inserted)
      modifies this
      ensures Valid()
      ensures activities == old(activities) && clock == old(clock) && nextId == old(nextId)
      ensures cras == old(cras)[k := UpdatedRow(old(cras)[k], data, clock)]
      ensures View(cras, activities, old(cras)[k].id) == Some(Cra(
        UpdatedRow(old(cras)[k], data, clock),
        if data.activities.Some? then inserted else ActivitiesOf(priorActivities, old(cras)[k].id)))
      ensures forall other :: other != old(cras)[k].id ==> View(cras, activities, other) == View(old(cras), priorActivities, other)
    {
      var now := clock;
      var id := cras[k].id;
      ClausesEffect(cras[k], data, now);
      UpdateKeepsValid(cras, priorActivities, priorNextId, priorClock, k, data, now, inserted, nextId);
      UpdateViews(cras, priorActivities, k, data, now, inserted);
      cras := cras[k := ApplyClauses(cras[k], updates, now)];
    }

    /**
     * `delete`: one transaction deleting the CRA's activities (statement 0),
     * then the CRA row (statement 1); the answer is whether a CRA row was deleted.
     */
    method Delete(id: Id, fault: Fault) returns (r: Result<bool, StoreError>)
      requires Valid()
      modifies this
      ensures Valid()
      ensures r.Err? <==> Hits(fault, 0) || Hits(fault, 1)
      ensures r.Err? ==> cras == old(cras) && activities == old(activities)
      ensures r.Ok? ==>
        && r.value == (id in CraIds(old(cras)))
        && cras == RemoveCra(old(cras), id)
        && activities == WithoutCra(old(activities), id)
        && id !in CraIds(cras)
        && View(cras, activities, id) == None
        && forall other :: other != id ==> View(cras, activities, other) == View(old(cras), old(activities), other)
    {
      // BEGIN
      var savedCras, savedActivities := cras, activities;
      if Hits(fault, 0) {
        return Err(StatementFailed(0));  // ROLLBACK: nothing written yet
      }
      activities := WithoutCra(activities, id);
      if Hits(fault, 1) {
        cras, activities := savedCras, savedActivities;  // ROLLBACK
        return Err(StatementFailed(1));
      }
      var k := Locate(id);
      cras := RemoveCra(cras, id);
      // COMMIT
      DeleteKeepsValid(savedCras, savedActivities, nextId, clock, id);
      r := Ok(k >= 0);
    }

    /**
     * `findAll`: the CRAs passing every active filter, in `date DESC,
     * created_at DESC` order, the page `[offset, offset + limit)` of them
     * (50 and 0 when absent), each with its activities, by one query
     * (statement 0). The database refuses a negative LIMIT or OFFSET, and one
     * that does not fit in a `bigint`.
     */
    method FindAll(f: Filters, limit: Option<int>, offset: Option<int>, fault: Fault) returns (r: Result<seq<Cra>, StoreError>)
      requires Valid()
      ensures var lim, off := limit.GetOr(DefaultLimit), offset.GetOr(DefaultOffset);
        if Hits(fault, 0) then r == Err(StatementFailed(0))
        else if lim < 0 || off < 0 then r == Err(NegativePaging)
        else if lim > MaxBigint || off > MaxBigint then r == Err(PagingOutOfRange)
        else r == Ok(Listing(cras, activities, f, off, lim))
    {
      var lim, off := limit.GetOr(DefaultLimit), offset.GetOr(DefaultOffset);
      if Hits(fault, 0) {
        return Err(StatementFailed(0));
      }
      if lim < 0 || off < 0 {
        return Err(NegativePaging);
      }
      if lim > MaxBigint || off > MaxBigint {
        return Err(PagingOutOfRange);
      }
      var selected := SelectRows(f);
      r := Ok(Attach(Page(SortForListing(selected), off, lim), activities));
    }

    /** The `WHERE` clause of findAll: the rows passing every active filter, in table order. */
    method SelectRows(f: Filters) returns (selected: seq<CraRow>)
      ensures selected == Select(cras, f)
    {
      selected := [];
      var i := 0;
      while i < |cras|
        invariant 0 <= i <= |cras|
        invariant selected == Select(cras[..i], f)
      {
        SelectAppend(cras[..i], [cras[i]], f);
        assert cras[..i + 1] == cras[..i] + [cras[i]];
        if MatchesFilters(cras[i], f) {
          selected := selected + [cras[i]];
        }
        i := i + 1;
      }
      assert cras[..i] == cras;
    }

    /** `count`: one query (statement 0); how many CRAs pass the same filters as findAll, paging ignored. */
    method Count(f: Filters, fault: Fault) returns (r: Result<nat, StoreError>)
      requires Valid()
      ensures r.Err? <==> Hits(fault, 0)
      ensures r.Err? ==> r.error == StatementFailed(0)
      ensures r.Ok? ==> r.value == |Select(cras, f)| && r.value <= |cras|
    {
      if Hits(fault, 0) {
        return Err(StatementFailed(0));
      }
      var n := CountRows(f);
      r := Ok(n);
    }

    /** The `COUNT(*)` of count's query: one pass over the table. */
    method CountRows(f: Filters) returns (n: nat)
      ensures n == |Select(cras, f)|
    {
      n := 0;
      var i := 0;
      while i < |cras|
        invariant 0 <= i <= |cras|
        invariant n == |Select(cras[..i], f)|
      {
        SelectAppend(cras[..i], [cras[i]], f);
        assert cras[..i + 1] == cras[..i] + [cras[i]];
        if MatchesFilters(cras[i], f) {
          n := n + 1;
        }
        i := i + 1;
      }
      assert cras[..i] == cras;
    }
  }

  /** Deleting the same CRA twice: the first answer says whether it existed, the second is false. */
  method DeleteTwice(store: CraStore, id: Id) returns (first: Result<bool, StoreError>, second: Result<bool, StoreError>)
    requires store.Valid()
    modifies store
    ensures first == Ok(id in CraIds(old(store.cras)))
    ensures second == Ok(false)
    ensures id !in CraIds(store.cras)
  {
    first := store.Delete(id, Never);
    second := store.Delete(id, Never);
  }
}
