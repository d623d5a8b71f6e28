/**
 * The HTTP controller of the CRA API: it checks request bodies, turns query
 * strings into filters and paging, calls the store and maps its answers to
 * status codes (200, 201, 400, 404, 500) and response bodies.
 */
module CraController {
  import opened Common
  import opened Text
  import opened CraTypes
  import opened CraTables
  import opened CraModel

  // ------------------------------------------------------------------ JSON

  /** A parsed JSON request body. JSON has no `undefined` and no NaN. */
  datatype Json =
    | JNull
    | JBool(b: bool)
    | JNum(n: real)
    | JStr(s: string)
    | JArr(items: seq<Json>)
    | JObj(fields: map<string, Json>)

  /** JavaScript truthiness: `null`, `false`, `0` and `""` are falsy, everything else truthy. */
  predicate Truthy(j: Json) {
    match j
    case JNull => false
    case JBool(b) => b
    case JNum(n) => n != 0.0
    case JStr(s) => s != []
    case _ => true
  }

  /**
   * `j[key]` on a value that is not null: only objects carry the keys read
   * here; on any other value the property is `undefined`, here `None`.
   */
  function Get(j: Json, key: string): (r: Option<Json>)
    ensures r.Some? <==> j.JObj? && key in j.fields
  {
    if j.JObj? && key in j.fields then Some(j.fields[key]) else None
  }

  /** `!!j[key]`: an absent property is `undefined`, which is falsy. */
  predicate TruthyAt(j: Json, key: string) {
    Get(j, key).Some? && Truthy(Get(j, key).value)
  }

  /**
   * The text a JSON value gives a text column. Only strings are read as text:
   * the driver's conversion of numbers, booleans and objects to text is not
   * modelled, and such a value is answered 500 instead.
   */
  function AsText(j: Json): (r: Option<string>)
    ensures r.Some? <==> j.JStr?
  {
    if j.JStr? then Some(j.s) else None
  }

  // ------------------------------------------------------------- responses

  /** A refusal: status code, `error` title and `message` of the JSON body. */
  datatype Failure = Failure(status: nat, error: string, message: string)

  const InvalidInput := Failure(400, "Invalid input", "date, client, and activities (array) are required")
  const NoActivity := Failure(400, "Invalid input", "At least one activity is required")
  const NotAnArray := Failure(400, "Invalid input", "activities must be an array")
  const InvalidActivity := Failure(400, "Invalid activity", "Each activity must have description, hours (number), and category")
  const InvalidHours := Failure(400, "Invalid hours", "Hours must be between 0 and 24")

  /** Why a request body is not passed to the store: a 400 answer, or an exception thrown on the way. */
  datatype Problem = Rejected(failure: Failure) | Thrown(message: string)

  /** The exception `activity.description` raises on a `null` activity. */
  const NullActivityMessage := "Cannot read properties of null (reading 'description')"

  /** The model's own message for a non-string value bound to a text column (see `AsText`). */
  const NonTextMessage := "non-string value for a text column"

  datatype Response =
    | Listed(page: seq<Cra>, total: nat, limit: int, offset: int, hasMore: bool)
    | Found(data: Cra)
    | Created(data: Cra)
    | Updated(data: Cra)
    | Deleted
    | Failed(failure: Failure)
  {
    function Status(): (code: nat)
      ensures Failed? ==> code == failure.status
      ensures Created? ==> code == 201
      ensures !Failed? && !Created? ==> code == 200
    {
      match this
      case Failed(f) => f.status
      case Created(_) => 201
      case _ => 200
    }
  }

  function StoreMessage(e: StoreError): string {
    match e
    case StatementFailed(i) => "statement " + NatToString(i) + " of the transaction failed"
    case ForeignKeyViolation => "insert or update on table \"activities\" violates foreign key constraint"
    case NegativePaging => "LIMIT and OFFSET must not be negative"
    case PagingOutOfRange => "LIMIT and OFFSET must fit in a bigint"
  }

  /** The 500 answer of a handler whose `try` block threw `message`. */
  function ServerError(title: string, message: string): (r: Response)
    ensures r.Status() == 500
  {
    Failed(Failure(500, title, message))
  }

  /** The answer to a body that did not reach the store. */
  function Refusal(p: Problem, title: string): (r: Response)
    ensures p.Rejected? ==> r == Failed(p.failure)
    ensures p.Thrown? ==> r.Status() == 500
  {
    match p
    case Rejected(f) => Failed(f)
    case Thrown(m) => ServerError(title, m)
  }

  function NotFound(id: Id): (r: Response)
    ensures r.Status() == 404
  {
    Failed(Failure(404, "CRA not found", "No CRA found with ID: " + NatToString(id)))
  }

  // ------------------------------------------------------------ activities

  /** What the controller finds wrong with one element of `activities`, checked in source order. */
  function ActivityProblem(a: Json): Option<Problem> {
    if a.JNull? then Some(Thrown(NullActivityMessage))
    else if !TruthyAt(a, "description") || !(Get(a, "hours").Some? && Get(a, "hours").value.JNum?) || !TruthyAt(a, "category") then
      Some(Rejected(InvalidActivity))
    else
      var h := Get(a, "hours").value.n;
      if h <= 0.0 || h > 24.0 then Some(Rejected(InvalidHours)) else None
  }

  /** The problem of the first faulty element; the loop stops there. */
  function FirstActivityProblem(items: seq<Json>): Option<Problem> {
    if items == [] then None
    else if ActivityProblem(items[0]).Some? then ActivityProblem(items[0])
    else FirstActivityProblem(items[1..])
  }

  /** No problem is reported exactly when every element passes the check. */
  lemma {:induction false} FirstActivityProblemNone(items: seq<Json>)
    ensures FirstActivityProblem(items).None? <==> forall i :: 0 <= i < |items| ==> ActivityProblem(items[i]).None?
  {
    if items != [] {
      FirstActivityProblemNone(items[1..]);
      assert forall i :: 1 <= i < |items| ==> items[i] == items[1..][i - 1];
    }
  }

  /** A reported problem is the problem of some element, and every element before it passed. */
  lemma {:induction false} FirstActivityProblemIsFirst(items: seq<Json>)
    requires FirstActivityProblem(items).Some?
    ensures exists k ::
      && 0 <= k < |items|
      && ActivityProblem(items[k]) == FirstActivityProblem(items)
      && (forall j :: 0 <= j < k ==> ActivityProblem(items[j]).None?)
  {
    if ActivityProblem(items[0]).None? {
      FirstActivityProblemIsFirst(items[1..]);
      var k :| 0 <= k < |items[1..]| && ActivityProblem(items[1..][k]) == FirstActivityProblem(items[1..])
        && (forall j :: 0 <= j < k ==> ActivityProblem(items[1..][j]).None?);
      assert ActivityProblem(items[k + 1]) == FirstActivityProblem(items);
      forall j | 0 <= j < k + 1 ensures ActivityProblem(items[j]).None? {
        if j > 0 { assert items[j] == items[1..][j - 1]; }
      }
    }
  }

  /** `for (const activity of activities)`: the validation loop of create and update. */
  method CheckActivities(items: seq<Json>) returns (p: Option<Problem>)
    ensures p == FirstActivityProblem(items)
  {
    var i := 0;
    while i < |items|
      invariant 0 <= i <= |items|
      invariant FirstActivityProblem(items[i..]) == FirstActivityProblem(items)
    {
      assert items[i..][1..] == items[i + 1..];
      var problem := ActivityProblem(items[i]);
      if problem.Some? {
        return problem;
      }
      i := i + 1;
    }
    return None;
  }

  /** One checked element as the store receives it. */
  function ActivityValue(a: Json): Option<ActivityInput> {
    var d, h, c := Get(a, "description"), Get(a, "hours"), Get(a, "category");
    if d.Some? && d.value.JStr? && h.Some? && h.value.JNum? && c.Some? && c.value.JStr? then
      Some(ActivityInput(d.value.s, h.value.n, c.value.s))
    else None
  }

  /** The activities as the store receives them, or `None` when one carries non-text. */
  function ActivityValues(items: seq<Json>): (r: Option<seq<ActivityInput>>)
    ensures r.Some? ==> |r.value| == |items|
    ensures r.Some? ==> forall i :: 0 <= i < |items| ==> ActivityValue(items[i]) == Some(r.value[i])
  {
    if items == [] then Some([])
    else
      var first, rest := ActivityValue(items[0]), ActivityValues(items[1..]);
      if first.Some? && rest.Some? then Some([first.value] + rest.value) else None
  }

  /**
   * The activities the controller passes on are non-empty in description and
   * category and have hours in the interval (0, 24].
   */
  lemma CheckedActivities(items: seq<Json>)
    requires FirstActivityProblem(items).None? && ActivityValues(items).Some?
    ensures var xs := ActivityValues(items).value;
      forall i :: 0 <= i < |xs| ==> 0.0 < xs[i].hours <= 24.0 && xs[i].description != "" && xs[i].category != ""
  {
    FirstActivityProblemNone(items);
    var xs := ActivityValues(items).value;
    forall i | 0 <= i < |xs| ensures 0.0 < xs[i].hours <= 24.0 && xs[i].description != "" && xs[i].category != "" {
      assert ActivityProblem(items[i]).None?;
      assert ActivityValue(items[i]) == Some(xs[i]);
    }
  }

  // ---------------------------------------------------------------- create

  /** `req.body.status || 'draft'`. */
  function CreateStatus(body: Json): Json {
    if TruthyAt(body, "status") then Get(body, "status").value else JStr(DefaultStatus)
  }

  /** The validation of create, in the order the handler performs it, and the input it builds. */
  function CreateRequest(body: Json): Result<CreateInput, Problem> {
    if !TruthyAt(body, "date") || !TruthyAt(body, "client") || !TruthyAt(body, "activities")
      || !Get(body, "activities").value.JArr? then
      Err(Rejected(InvalidInput))
    else
      var items := Get(body, "activities").value.items;
      if items == [] then Err(Rejected(NoActivity))
      else if FirstActivityProblem(items).Some? then Err(FirstActivityProblem(items).value)
      else
        var date, client, status := AsText(Get(body, "date").value), AsText(Get(body, "client").value), AsText(CreateStatus(body));
        var acts := ActivityValues(items);
        if date.Some? && client.Some? && status.Some? && acts.Some? then
          Ok(CreateInput(date.value, client.value, acts.value, Some(status.value)))
        else Err(Thrown(NonTextMessage))
  }

  /**
   * A create the controller lets through has a non-empty date and client, at
   * least one activity, every activity valid, and an explicit status that is
   * the one sent or `draft`.
   */
  lemma CreateRequestAccepted(body: Json)
    requires CreateRequest(body).Ok?
    ensures var input := CreateRequest(body).value;
      && input.date != "" && input.client != ""
      && |input.activities| > 0
      && (forall i :: 0 <= i < |input.activities| ==>
            0.0 < input.activities[i].hours <= 24.0 && input.activities[i].description != "" && input.activities[i].category != "")
      && input.status.Some? && input.status.value != ""
      && (!TruthyAt(body, "status") ==> input.status.value == DefaultStatus)
      && (TruthyAt(body, "status") ==> Get(body, "status").value == JStr(input.status.value))
  {
    CheckedActivities(Get(body, "activities").value.items);
  }

  /** An empty activity list is refused with 400 before anything else about the activities. */
  lemma CreateRefusesEmptyActivities(body: Json)
    requires TruthyAt(body, "date") && TruthyAt(body, "client")
    requires Get(body, "activities") == Some(JArr([]))
    ensures CreateRequest(body) == Err(Rejected(NoActivity))
    ensures Refusal(CreateRequest(body).error, "Failed to create CRA").Status() == 400
  {
  }

  /** A missing or non-array `activities`, date or client is refused with 400. */
  lemma CreateRefusesMissingFields(body: Json)
    requires !TruthyAt(body, "date") || !TruthyAt(body, "client") || !(Get(body, "activities").Some? && Get(body, "activities").value.JArr?)
    ensures CreateRequest(body) == Err(Rejected(InvalidInput))
  {
    if Get(body, "activities").Some? && Get(body, "activities").value.JArr? {
      assert Truthy(Get(body, "activities").value);
    }
  }

  /** Reads the body the way the handler does, with the validation loop. */
  method ParseCreate(body: Json) returns (r: Result<CreateInput, Problem>)
    ensures r == CreateRequest(body)
  {
    if !TruthyAt(body, "date") || !TruthyAt(body, "client") || !TruthyAt(body, "activities")
      || !Get(body, "activities").value.JArr? {
      return Err(Rejected(InvalidInput));
    }
    var items := Get(body, "activities").value.items;
    if |items| == 0 {
      return Err(Rejected(NoActivity));
    }
    var problem := CheckActivities(items);
    if problem.Some? {
      return Err(problem.value);
    }
    var date, client, status := AsText(Get(body, "date").value), AsText(Get(body, "client").value), AsText(CreateStatus(body));
    var acts := ActivityValues(items);
    if date.Some? && client.Some? && status.Some? && acts.Some? {
      r := Ok(CreateInput(date.value, client.value, acts.value, Some(status.value)));
    } else {
      r := Err(Thrown(NonTextMessage));
    }
  }

  /** POST /api/cras. */
  method HandleCreate(store: CraStore, body: Json, fault: Fault) returns (resp: Response)
    requires store.Valid()
    modifies store
    ensures store.Valid()
    ensures CreateRequest(body).Err? ==>
      resp == Refusal(CreateRequest(body).error, "Failed to create CRA")
      && store.cras == old(store.cras) && store.activities == old(store.activities)
    ensures CreateRequest(body).Ok? ==>
      var input := CreateRequest(body).value;
      && (resp.Created? || resp.Status() == 500)
      && (fault == Never ==> resp.Created?)
      && (resp.Status() == 500 <==> fault.AtStatement? && fault.index <= |input.activities|)
      && (resp.Created? ==>
            && resp.data.header.date == input.date && resp.data.header.client == input.client
            && resp.data.header.status == input.status.value
            && resp.data.header.totalHours == SumHours(input.activities)
            && RowsFromInputs(resp.data.activities, input.activities, resp.data.header.id)
            && View(store.cras, store.activities, resp.data.header.id) == Some(resp.data)
            && resp.data.header.id !in CraIds(old(store.cras)))
      && (!resp.Created? ==> store.cras == old(store.cras) && store.activities == old(store.activities))
  {
    var request := ParseCreate(body);
    if request.Err? {
      return Refusal(request.error, "Failed to create CRA");
    }
    CreateRequestAccepted(body);
    var created := store.Create(request.value, fault);
    if created.Err? {
      return ServerError("Failed to create CRA", StoreMessage(created.error));
    }
    resp := Created(created.value);
  }

  // ---------------------------------------------------------------- update

  /** A field of update: absent is `None`; present, it must be text for the store. */
  function UpdateField(body: Json, key: string): Result<Option<string>, Problem> {
    if Get(body, key).None? then Ok(None)
    else if Get(body, key).value.JStr? then Ok(Some(Get(body, key).value.s))
    else Err(Thrown(NonTextMessage))
  }

  /**
   * The validation of update: only `activities` is checked by the handler
   * (an array whose elements pass the same check as create's, possibly
   * empty); fields that are present are passed on whatever they hold.
   */
  function UpdateRequest(body: Json): Result<UpdateInput, Problem> {
    var acts := Get(body, "activities");
    if acts.Some? && !acts.value.JArr? then Err(Rejected(NotAnArray))
    else if acts.Some? && FirstActivityProblem(acts.value.items).Some? then Err(FirstActivityProblem(acts.value.items).value)
    else
      var date, client, status := UpdateField(body, "date"), UpdateField(body, "client"), UpdateField(body, "status");
      var values := if acts.Some? then ActivityValues(acts.value.items) else Some([]);
      if date.Ok? && client.Ok? && status.Ok? && values.Some? then
        Ok(UpdateInput(date.value, client.value, if acts.Some? then Some(values.value) else None, status.value))
      else Err(Thrown(NonTextMessage))
  }

  /**
   * An update the controller lets through carries exactly the fields present
   * in the body, and every activity it carries is valid; unlike create, an
   * empty activity list is let through.
   */
  lemma UpdateRequestAccepted(body: Json)
    requires UpdateRequest(body).Ok?
    ensures var input := UpdateRequest(body).value;
      && (input.date.Some? <==> Get(body, "date").Some?)
      && (input.client.Some? <==> Get(body, "client").Some?)
      && (input.status.Some? <==> Get(body, "status").Some?)
      && (input.activities.Some? <==> Get(body, "activities").Some?)
      && (input.activities.Some? ==> forall i :: 0 <= i < |input.activities.value| ==>
            0.0 < input.activities.value[i].hours <= 24.0)
  {
    var acts := Get(body, "activities");
    if acts.Some? {
      CheckedActivities(acts.value.items);
    }
  }

  lemma UpdateAcceptsEmptyActivities(body: Json)
    requires body == JObj(map["activities" := JArr([])])
    ensures UpdateRequest(body) == Ok(UpdateInput(None, None, Some([]), None))
  {
    assert Get(body, "date").None? && Get(body, "client").None? && Get(body, "status").None?;
  }

  method ParseUpdate(body: Json) returns (r: Result<UpdateInput, Problem>)
    ensures r == UpdateRequest(body)
  {
    var acts := Get(body, "activities");
    var values: Option<seq<ActivityInput>> := Some([]);
    if acts.Some? {
      if !acts.value.JArr? {
        return Err(Rejected(NotAnArray));
      }
      var problem := CheckActivities(acts.value.items);
      if problem.Some? {
        return Err(problem.value);
      }
      values := ActivityValues(acts.value.items);
    }
    var date, client, status := UpdateField(body, "date"), UpdateField(body, "client"), UpdateField(body, "status");
    if date.Ok? && client.Ok? && status.Ok? && values.Some? {
      r := Ok(UpdateInput(date.value, client.value, if acts.Some? then Some(values.value) else None, status.value));
    } else {
      r := Err(Thrown(NonTextMessage));
    }
  }

  /**
   * The one failure of PUT that keeps its changes: the read-back `findById`
   * after the COMMIT of a rewritten row.
   */
  predicate ReadBackFails(data: UpdateInput, id: Id, cras: seq<CraRow>, fault: Fault) {
    !NoFields(data) && id in CraIds(cras) && Hits(fault, ReadBackStatement(data))
  }

  /**
   * PUT /api/cras/:id: a `null` from the store becomes 404, a failure of the
   * store becomes 500.
   */
  method HandleUpdate(store: CraStore, id: Id, body: Json, fault: Fault) returns (resp: Response)
    requires store.Valid()
    modifies store
    ensures store.Valid()
    ensures UpdateRequest(body).Err? ==>
      resp == Refusal(UpdateRequest(body).error, "Failed to update CRA")
      && store.cras == old(store.cras) && store.activities == old(store.activities)
    ensures UpdateRequest(body).Ok? ==>
      && (resp.Updated? || resp.Status() == 404 || resp.Status() == 500)
      && (resp.Updated? ==> id in CraIds(old(store.cras)) && View(store.cras, store.activities, id) == Some(resp.data))
      && (resp.Status() == 404 ==> id !in CraIds(old(store.cras)))
      && (resp.Status() == 500 <==> UpdateFails(UpdateRequest(body).value, id in CraIds(old(store.cras)), fault))
      && (resp.Status() == 404 <==>
            id !in CraIds(old(store.cras)) && !UpdateFails(UpdateRequest(body).value, false, fault))
      && (fault == Never ==>
            var acts := UpdateRequest(body).value.activities;
            && (resp.Status() == 404 <==> id !in CraIds(old(store.cras)) && !(acts.Some? && |acts.value| > 0))
            && (resp.Status() == 500 <==> id !in CraIds(old(store.cras)) && acts.Some? && |acts.value| > 0))
      && (fault == Never && id in CraIds(old(store.cras)) ==> resp.Updated?)
      && (id !in CraIds(old(store.cras)) ==> store.cras == old(store.cras) && store.activities == old(store.activities))
      && (resp.Updated? && NoFields(UpdateRequest(body).value) ==>
            resp.data == View(old(store.cras), old(store.activities), id).value
            && store.cras == old(store.cras) && store.activities == old(store.activities))
      && (resp.Updated? && !NoFields(UpdateRequest(body).value) ==>
            UpdateApplied(old(store.cras), old(store.activities), old(store.nextId),
              store.cras, store.activities, id, UpdateRequest(body).value, store.clock))
      && (ReadBackFails(UpdateRequest(body).value, id, old(store.cras), fault) ==>
            && resp.Status() == 500
            && UpdateApplied(old(store.cras), old(store.activities), old(store.nextId),
                 store.cras, store.activities, id, UpdateRequest(body).value, store.clock))
      && (resp.Status() == 500 && !ReadBackFails(UpdateRequest(body).value, id, old(store.cras), fault) ==>
            store.cras == old(store.cras) && store.activities == old(store.activities))
      && (resp.Updated? ==>
            forall other :: other != id ==> View(store.cras, store.activities, other) == View(old(store.cras), old(store.activities), other))
  {
    var request := ParseUpdate(body);
    if request.Err? {
      return Refusal(request.error, "Failed to update CRA");
    }
    ghost var present := id in CraIds(store.cras);
    var updated := store.Update(id, request.value, fault);
    match updated {
      case Err(e) =>
        resp := ServerError("Failed to update CRA", StoreMessage(e));
        assert UpdateFails(request.value, present, fault);
      case Ok(None) =>
        resp := NotFound(id);
        assert !present && !UpdateFails(request.value, false, fault);
      case Ok(Some(c)) =>
        resp := Updated(c);
        assert present && !UpdateFails(request.value, present, fault);
    }
  }

  // ---------------------------------------------------------- read, delete

  /** GET /api/cras/:id. */
  method HandleGetById(store: CraStore, id: Id, fault: Fault) returns (resp: Response)
    requires store.Valid()
    ensures resp.Status() == 500 <==> Hits(fault, 0)
    ensures resp.Found? <==> id in CraIds(store.cras) && !Hits(fault, 0)
    ensures resp.Found? ==> Some(resp.data) == View(store.cras, store.activities, id)
    ensures !resp.Found? && !Hits(fault, 0) ==> resp == NotFound(id)
  {
    var cra := store.FindById(id, fault);
    if cra.Err? {
      return ServerError("Failed to fetch CRA", StoreMessage(cra.error));
    }
    if cra.value.None? {
      return NotFound(id);
    }
    resp := Found(cra.value.value);
  }

  /** DELETE /api/cras/:id: `false` from the store becomes 404. */
  method HandleDelete(store: CraStore, id: Id, fault: Fault) returns (resp: Response)
    requires store.Valid()
    modifies store
    ensures store.Valid()
    ensures resp.Deleted? || resp.Status() == 404 || resp.Status() == 500
    ensures resp.Deleted? <==> id in CraIds(old(store.cras)) && !Hits(fault, 0) && !Hits(fault, 1)
    ensures resp.Status() == 404 <==> id !in CraIds(old(store.cras)) && !Hits(fault, 0) && !Hits(fault, 1)
    ensures resp.Status() == 500 ==> store.cras == old(store.cras) && store.activities == old(store.activities)
    ensures resp.Status() != 500 ==>
      && store.cras == RemoveCra(old(store.cras), id)
      && store.activities == WithoutCra(old(store.activities), id)
      && View(store.cras, store.activities, id) == None
  {
    var deleted := store.Delete(id, fault);
    match deleted {
      case Err(e) =>
        resp := ServerError("Failed to delete CRA", StoreMessage(e));
      case Ok(false) =>
        resp := NotFound(id);
      case Ok(true) =>
        resp := Deleted;
    }
  }

  // ---------------------------------------------------------------- listing

  /** The query string of GET /api/cras; every parameter is optional text. */
  datatype Query = Query(
    status: Option<string>,
    client: Option<string>,
    startDate: Option<string>,
    endDate: Option<string>,
    limit: Option<string>,
    offset: Option<string>)

  /**
   * `q ? parseInt(q) : fallback`: an absent or empty parameter gives the
   * fallback, anything else what `parseInt` with no radix reads, `None`
   * standing for NaN.
   */
  function PagingArg(q: Option<string>, fallback: int): (r: Option<int>)
    ensures !Active(q) ==> r == Some(fallback)
    ensures Active(q) ==> r == ParseInt(q.value)
  {
    if Active(q) then ParseInt(q.value) else Some(fallback)
  }

  /** A parameter written in plain decimal digits is read as that number. */
  lemma PagingArgOfDigits(q: string, fallback: int)
    requires q != [] && AllDigits(q)
    ensures PagingArg(Some(q), fallback) == Some(DigitsValue(q))
  {
    ParseIntOfDigits(q);
  }

  /** A parameter behind a `0x` prefix is read in base 16: `?limit=0x10` asks for 16 rows. */
  lemma PagingArgHex()
    ensures PagingArg(Some("0x10"), DefaultLimit) == Some(16)
  {
    assert "0x10" == ['0', 'x'] + "10";
    assert HexValue("10") == 16 by {
      assert "10"[..1] == "1";
    }
    ParseIntOfHex("10", 'x');
  }

  /** A minus sign in front of a hexadecimal parameter makes it negative, which the database refuses. */
  lemma PagingArgNegativeHex()
    ensures PagingArg(Some("-0x10"), DefaultLimit) == Some(-16)
  {
    PagingArgHex();
    assert "-0x10" == "-" + "0x10";
    ParseIntNegative("0x10");
  }

  /** A bare `0x` is NaN. */
  lemma PagingArgBareHexPrefix()
    ensures PagingArg(Some("0x"), DefaultOffset) == None
  {
    assert "0x" == ['0', 'x'] + [];
    ParseIntOfBareHexPrefix('x', []);
  }

  /** Leading white space such as a vertical tab is skipped. */
  lemma PagingArgSkipsSpace()
    ensures PagingArg(Some("\U{B}5"), DefaultLimit) == Some(5)
  {
    assert "\U{B}5" == ['\U{B}'] + "5";
    ParseIntSkipsSpace('\U{B}', "5");
    ParseIntOfDigits("5");
  }

  /** `hasMore`: the page ends before the last matching CRA. */
  function HasMore(offset: int, returned: nat, total: nat): bool {
    offset + returned < total
  }

  /**
   * For a page of the listing, `hasMore` holds exactly when the requested
   * window `[offset, offset + limit)` stops short of the number of matching CRAs.
   */
  lemma HasMoreMeansMoreRows(cras: seq<CraRow>, acts: seq<ActivityRow>, f: Filters, offset: nat, limit: nat)
    ensures HasMore(offset, |Listing(cras, acts, f, offset, limit)|, |Select(cras, f)|) <==> offset + limit < |Select(cras, f)|
  {
    var sel := Select(cras, f);
    assert |SortForListing(sel)| == |multiset(SortForListing(sel))| == |multiset(sel)| == |sel|;
  }

  function QueryFilters(q: Query): Filters {
    Filters(q.status, q.client, q.startDate, q.endDate)
  }

  /** GET /api/cras: the page, the count of all matches and whether more follow. */
  method HandleGetAll(store: CraStore, q: Query, fault: Fault) returns (resp: Response)
    requires store.Valid()
    ensures var lim, off := PagingArg(q.limit, DefaultLimit), PagingArg(q.offset, DefaultOffset);
      if && lim.Some? && off.Some? && 0 <= lim.value <= MaxBigint && 0 <= off.value <= MaxBigint
         && !Hits(fault, 0) && !Hits(fault, 1)
      then
        var total := |Select(store.cras, QueryFilters(q))|;
        && resp.Listed?
        && resp.page == Listing(store.cras, store.activities, QueryFilters(q), off.value, lim.value)
        && resp.total == total
        && resp.limit == lim.value && resp.offset == off.value
        && resp.hasMore == (off.value + lim.value < total)
      else resp.Status() == 500
  {
    var f := QueryFilters(q);
    var lim, off := PagingArg(q.limit, DefaultLimit), PagingArg(q.offset, DefaultOffset);
    if lim.None? || off.None? {
      // LIMIT or OFFSET NaN: the database refuses the query
      return ServerError("Failed to fetch CRAs", "invalid input syntax for type bigint: \"NaN\"");
    }
    var cras := store.FindAll(f, lim, off, fault);
    if cras.Err? {
      return ServerError("Failed to fetch CRAs", StoreMessage(cras.error));
    }
    // count is the statement after findAll
    var total := store.Count(f, Shift(fault, 1));
    if total.Err? {
      return ServerError("Failed to fetch CRAs", StoreMessage(StatementFailed(1)));
    }
    HasMoreMeansMoreRows(store.cras, store.activities, f, off.value, lim.value);
    resp := Listed(cras.value, total.value, lim.value, off.value, HasMore(off.value, |cras.value|, total.value));
  }
}
