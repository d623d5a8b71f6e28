# Crafter: CRA store, API handlers, form rules and UI store

Crafter records CRAs (*comptes rendus d'activité*, monthly activity reports).
A CRA has a date, a client, a status and a total number of hours, and it owns
a list of activities, each with a description, a number of hours and a
category. This project models the core of the application in Dafny and
proves properties of that model.

- **`CraModel.CraStore`** (`cra_model.dfy`) is the backend's aggregate store
  over the two tables `cras` and `activities`. It offers `findAll`, `findById`,
  `create`, `update`, `delete` and `count`. Every write runs as one
  transaction, and a failure inside it rolls the whole transaction back;
  only `update`'s read-back runs after its `COMMIT`. The database's failures
  are injected through a `Fault` parameter that names the statement that
  fails, reads included. A class invariant (`TablesValid`) holds
  between transactions:
  - CRA ids are unique, and activity ids are unique;
  - no activity is orphaned;
  - every CRA's `total_hours` is the sum of its activities' hours;
  - timestamps do not run ahead of the clock.
- **`CraTables`** (`cra_tables.dfy`) gives what the SQL of the store means as
  functions on the two tables:
  - the activities of one CRA;
  - the filter predicate;
  - the `date DESC, created_at DESC` order (an insertion sort proved
    sorted and a permutation);
  - `LIMIT`/`OFFSET` paging;
  - the listing built from these.
- **`CraController`** (`cra_controller.dfy`) models the HTTP handlers. The
  request body is a small JSON datatype. Each handler validates the body in
  the order the code does and answers with the code's status: 200, 201, 400,
  404 or 500.
- **`CraSchema`** (`cra_schema.dfy`) gives the client-side form rules:
  - the activity rules (date pattern and date parse, description length,
    quarter hours);
  - the rules on the activity list (non-empty, distinct dates, at most 24
    hours per date);
  - the month, year, name and days fields;
  - the status enumeration with its default;
  - the draft variant of the form;
  - the rule that a period must not lie in the future.
- **`AppStore.Store`** (`app_store.dfy`) is the UI store: sidebar, theme (with
  the `dark` class of the document root), the global loading flag, the
  notifications, and the slice persisted to local storage.
- **`ThemeToggle`** (`theme_toggle.dfy`) models the theme button's
  light → dark → system cycle.
- **`DatePicker`** (`date_picker.dfy`) models `formatDate` and `getToday`.
- **`Text`** (`text.dfy`) models the JavaScript string operations these rely
  on: `String(n)`, `padStart`, `parseInt`, `split`, case folding, substring
  search and string order.

Inputs that are not data become parameters:

- the current date and time;
- `Math.random()`;
- the `prefers-color-scheme` media query;
- the statement at which the database fails.

The statements of each transaction are numbered from 0:

- **create**: the CRA `INSERT` is statement 0. The activity `INSERT`s are
  statements 1..n.
- **update**: if activities are supplied, the `DELETE` of the old ones is
  statement 0 and the `INSERT`s are 1..n. The `UPDATE cras` statement comes
  after them, and the read-back `findById` after that. The read-back runs
  after the `COMMIT` and outside the `try`, so when it fails the changes are
  kept and the handler answers 500. With no field at all, the read-back is
  statement 0.
- **delete**: the activity `DELETE` is statement 0. The CRA `DELETE` is
  statement 1.
- **reads**: the `SELECT` of `findById` is statement 0. In a listing, the
  `findAll` query is statement 0 and the `count` query is statement 1.

Ids and timestamps come from two counters. Like a database sequence and the
wall clock, a rollback does not rewind them.

The database schema is not part of the source. The model takes the foreign
key `activities.cra_id → cras.id` to be enforced without cascade. The order
of `delete`, which removes the activities first, points that way. One
consequence is that an `update` of a missing id with a non-empty activity
list fails on its first `INSERT` and answers 500. The same update with no
activities, or with an empty list, answers 404.

## Model

| member | source | states |
|---|---|---|
| CraTables.SumOfRowsFromInputs | backend/src/models/cra.model.ts:131 | activity rows that carry the inputs' hours add up to the total `create` computes from the inputs |
| CraTables.ActivitiesOf | backend/src/models/cra.model.ts:98-113 | the activities joined to a CRA are exactly the rows whose `cra_id` is its id, and no more than the table holds |
| CraTables.ActivitiesOfAppend | backend/src/models/cra.model.ts:148-163 | the activities of a CRA in a table that grew by appended rows are the old ones followed by the new ones |
| CraTables.WithoutCraKeepsOthers | backend/src/models/cra.model.ts:278 | deleting one CRA's activities leaves the activities of every other CRA unchanged |
| CraTables.Lookup | backend/src/models/cra.model.ts:113-118 | `WHERE c.id = $1` finds a row exactly when the id is in the table, and the row found has that id |
| CraTables.LookupAt | backend/src/models/cra.model.ts:113-118 | with unique ids, looking up a row's id finds that very row |
| CraTables.RemoveCra | backend/src/models/cra.model.ts:281 | `DELETE FROM cras WHERE id` keeps exactly the rows with another id |
| CraTables.View | backend/src/models/cra.model.ts:88-119 | `findById` returns a CRA exactly when its id is stored, and then it returns the row with exactly its own activities (null otherwise) |
| CraTables.ViewTotal | backend/src/models/cra.model.ts:88-119 | under the total invariant, the CRA a reader gets shows a total equal to the sum of its activities' hours |
| CraTables.Select | backend/src/models/cra.model.ts:50-72 | the rows kept are exactly the stored rows passing every active filter (status equality, case-insensitive client substring, inclusive date bounds) |
| CraTables.SelectAppend | backend/src/models/cra.model.ts:50-72 | filtering distributes over concatenation, so filtered rows keep their table order |
| CraTables.SelectNoFilters | backend/src/models/cra.model.ts:50-72 | with every filter absent or empty, all CRAs are selected |
| CraTables.ListedBeforeTotal | backend/src/models/cra.model.ts:76 | any two CRAs are comparable in `date DESC, created_at DESC` order |
| CraTables.ListedBeforeTransitive | backend/src/models/cra.model.ts:76 | the listing order is transitive |
| CraTables.Insert | backend/src/models/cra.model.ts:76 | inserting into a list in listing order keeps it in order and adds exactly that one CRA |
| CraTables.SortForListing | backend/src/models/cra.model.ts:76 | the result is in listing order and is a permutation of the selected rows |
| CraTables.Page | backend/src/models/cra.model.ts:77 | `LIMIT l OFFSET o` yields the elements from `o` onwards, as many as `l` allows and the input holds |
| CraTables.PagesConcatenate | backend/src/models/cra.model.ts:77 | two consecutive pages joined are the page spanning both |
| CraTables.Attach | backend/src/models/cra.model.ts:29-43 | each listed row carries exactly its own activities |
| CraTables.ListingSound | backend/src/models/cra.model.ts:17-83 | every CRA `findAll` lists is stored, passes the filters, carries exactly its activities and shows their total |
| CraTables.ListingOrdered | backend/src/models/cra.model.ts:74-79 | the listing is in `date DESC, created_at DESC` order |
| CraTables.ListingCoversCount | backend/src/models/cra.model.ts:297-330 | a first page whose limit reaches past the matches lists as many CRAs as `count` counts |
| CraTables.SumRowHoursAppend | backend/src/models/cra.model.ts:131 | the hours of two runs of rows add up |
| CraTables.CraIds | backend/src/models/cra.model.ts:113 | the ids of the `cras` table are exactly those of its rows |
| CraModel.Clauses | backend/src/models/cra.model.ts:189-241 | the SET list has only `updated_at` exactly when no field was supplied |
| CraModel.ApplyClausesAppend | backend/src/models/cra.model.ts:243-246 | running a SET list in two parts is running it whole |
| CraModel.ClausesEffect | backend/src/models/cra.model.ts:193-246 | the SET list replaces exactly the supplied fields, sets the total to the new activities' sum, keeps the rest and refreshes `updated_at` |
| CraModel.TablesValidLater | backend/src/models/cra.model.ts:171-176 | the table invariant survives a rollback that leaves the id and clock counters advanced |
| CraModel.RemoveCraUnique | backend/src/models/cra.model.ts:281 | deleting a CRA row keeps ids unique |
| CraModel.LookupRemoveOther | backend/src/models/cra.model.ts:281 | deleting one CRA does not change the lookup of any other id |
| CraModel.LookupReplaceOther | backend/src/models/cra.model.ts:243-250 | rewriting one row does not change the lookup of any other id |
| CraModel.WithoutCraOfAbsent | backend/src/models/cra.model.ts:278 | deleting the activities of an id no activity carries changes nothing |
| CraModel.AppendFreshUnique | backend/src/models/cra.model.ts:134-146 | a new CRA row with a fresh id keeps ids unique |
| CraModel.NoActivitiesOfFresh | backend/src/models/cra.model.ts:134-146 | a fresh CRA id owns no activities yet |
| CraModel.InsertedActivitiesOf | backend/src/models/cra.model.ts:148-163 | the rows inserted for one CRA belong to it and to no other CRA |
| CraModel.AppendKeepsTotals | backend/src/models/cra.model.ts:124-165 | a new CRA with its total and its activities keeps every total equal to its activities' sum |
| CraModel.AppendKeepsNoOrphans | backend/src/models/cra.model.ts:124-165 | creating a CRA with its activities leaves no activity orphaned |
| CraModel.CreateKeepsValid | backend/src/models/cra.model.ts:124-170 | a committed `create` keeps the table invariant |
| CraModel.WithoutCraUniqueActivityIds | backend/src/models/cra.model.ts:219-220 | deleting one CRA's activities keeps activity ids unique |
| CraModel.AppendFreshActivities | backend/src/models/cra.model.ts:148-163 | inserting rows with fresh ids keeps activity ids unique |
| CraModel.CountedIdsFresh | backend/src/models/cra.model.ts:148-163 | ids drawn from the counter are fresh against every row below it |
| CraModel.AppendInsertedIds | backend/src/models/cra.model.ts:148-163 | activity rows inserted by `create` keep activity ids unique and below the counter |
| CraModel.ReplacedDropsOldIds | backend/src/models/cra.model.ts:219-228 | replacing a CRA's activities keeps activity ids unique, and no id of a deleted row is found in the table afterwards |
| CraModel.DeleteKeepsValid | backend/src/models/cra.model.ts:271-285 | a committed `delete` keeps the table invariant |
| CraModel.ReplacedOthers | backend/src/models/cra.model.ts:219-228 | replacing one CRA's activities leaves the other CRAs' activities as they were |
| CraModel.ReplacedOwn | backend/src/models/cra.model.ts:219-228 | after the replacement, the CRA's activities are exactly the inserted rows |
| CraModel.UpdateActivitiesOf | backend/src/models/cra.model.ts:211-229 | an update touches no other CRA's activities |
| CraModel.UpdateKeepsTotals | backend/src/models/cra.model.ts:211-259 | the new total is set to the new activities' sum in the same transaction that replaces them, so every total stays consistent |
| CraModel.UpdateKeepsNoOrphans | backend/src/models/cra.model.ts:211-259 | an update leaves no activity orphaned |
| CraModel.ReplaceRowUnique | backend/src/models/cra.model.ts:243-250 | rewriting a row in place with its own id keeps ids unique |
| CraModel.UpdateKeepsRows | backend/src/models/cra.model.ts:243-250 | a rewritten row keeps its id and `created_at`, and the timestamps stay ordered and bounded by the clock |
| CraModel.UpdateKeepsActivityIds | backend/src/models/cra.model.ts:219-228 | every activity id stays below the id counter |
| CraModel.UpdateKeepsValid | backend/src/models/cra.model.ts:182-259 | a committed `update` keeps the table invariant |
| CraModel.UpdateViews | backend/src/models/cra.model.ts:250-259 | after an update, the updated CRA reads back as the new row with its new activities, and every other CRA reads back unchanged |
| CraModel.CraStore.Locate | backend/src/models/cra.model.ts:113 | gives the position of the row with the id, or -1 exactly when no row has it |
| CraModel.CraStore.FindById | backend/src/models/cra.model.ts:88-119 | fails exactly when its SELECT fails. Otherwise returns the CRA with exactly its activities and a consistent total, or null exactly when the id is not stored |
| CraModel.CraStore.Create | backend/src/models/cra.model.ts:124-177 | fails exactly when one of its 1+n statements fails, and then rolls both tables back. On success it appends a row with a fresh id, the given date and client, the given status or `draft`, and the activities' hours as total, plus one activity row per input in order with ids not used before, and the new CRA reads back as returned |
| CraModel.CraStore.BuildClauses | backend/src/models/cra.model.ts:189-232 | builds the SET list that `Clauses` specifies |
| CraModel.CraStore.ReplaceActivities | backend/src/models/cra.model.ts:219-228 | fails exactly when the DELETE or an INSERT fails, or an INSERT hits the foreign key, and then restores the activity table. On success the CRA's activities are replaced by one row per input, with consecutive ids drawn from the counter |
| CraModel.CraStore.InsertRows | backend/src/models/cra.model.ts:148-163 | inserts one row per input, in order, with the consecutive ids the counter hands out (so pairwise distinct and above every earlier id). Fails exactly on an injected fault or on a missing parent with a non-empty list, and then undoes its inserts |
| CraModel.CraStore.Update | backend/src/models/cra.model.ts:182-266 | fails exactly when `UpdateFails` holds: a non-empty activity list for a missing id (the foreign key), or a fault at a statement the transaction runs (up to the read-back for a stored id, up to the UPDATE for a missing one). With no field, it reads the CRA back unchanged. A missing id gives null and changes nothing; with no fault it is an error exactly when a non-empty activity list was supplied, because the first INSERT hits the foreign key (an empty list gives null). A failure before the COMMIT rolls back; a failure of the read-back after the COMMIT is an error with the changes kept. Whenever the row was rewritten (read back or not), it is `UpdatedRow`. When activities were supplied, they are replaced by rows whose ids are new, and no id of a deleted activity row remains in the table. Every other CRA reads as before |
| CraModel.CraStore.UpdateStatement | backend/src/models/cra.model.ts:243-265 | the UPDATE fails exactly on its injected fault and then rolls back to the tables before the transaction. A missing row commits and gives null; the tables are as before the transaction, because for a missing id no activity was deleted or inserted (a non-empty list already failed on the foreign key). Otherwise the row is rewritten and committed. The read-back that follows fails exactly on its own fault, and the rewrite stays |
| CraModel.RewriteApplied | backend/src/models/cra.model.ts:243-252 | a committed rewrite of a stored CRA with fresh activity rows is the update as the source applies it: the new header, the replaced activities with new ids, every other CRA unchanged |
| CraModel.CraStore.WriteRow | backend/src/models/cra.model.ts:243-251 | rewrites row `k` by the SET list, after which the CRA reads as that row with its new activities. Every other CRA reads as before |
| CraModel.CraStore.Delete | backend/src/models/cra.model.ts:271-292 | fails exactly when one of its two statements fails, and then rolls back. Otherwise it removes the CRA and its activities, answers whether a CRA row existed, and leaves every other CRA as it was |
| CraModel.CraStore.FindAll | backend/src/models/cra.model.ts:17-83 | with limit and offset defaulting to 50 and 0, returns the listing. It is an error when the query fails, when either value is negative, or when either does not fit in a `bigint` (2^63 and above) |
| CraModel.CraStore.SelectRows | backend/src/models/cra.model.ts:44-72 | the WHERE clause selects exactly `Select` of the table |
| CraModel.CraStore.Count | backend/src/models/cra.model.ts:297-330 | fails exactly when its query fails; otherwise counts exactly the CRAs `findAll` would filter, paging ignored |
| CraModel.DeleteTwice | backend/src/models/cra.model.ts:271-292 | a first delete reports whether the CRA existed, a second reports false, and the CRA is gone |
| CraController.Get | backend/src/controllers/cra.controller.ts:86 | a field is present exactly when the body is an object holding that key |
| CraController.AsText | backend/src/controllers/cra.controller.ts:86-95 | only JSON strings read as text |
| CraController.Response.Status | backend/src/controllers/cra.controller.ts:13-254 | failures carry their own status, a creation answers 201 and every other success 200 |
| CraController.ServerError | backend/src/controllers/cra.controller.ts:141-148 | an exception becomes a 500 answer |
| CraController.Refusal | backend/src/controllers/cra.controller.ts:83-149 | a validation failure keeps its 400, and a thrown exception becomes 500 |
| CraController.NotFound | backend/src/controllers/cra.controller.ts:56-62 | a missing CRA answers 404 |
| CraController.FirstActivityProblemNone | backend/src/controllers/cra.controller.ts:107-125 | the activity loop passes exactly when every activity passes |
| CraController.FirstActivityProblemIsFirst | backend/src/controllers/cra.controller.ts:107-125 | the problem reported is that of the first failing activity, and every activity before it passes |
| CraController.CheckActivities | backend/src/controllers/cra.controller.ts:107-125 | the loop reports the first failing activity's problem |
| CraController.ActivityValues | backend/src/controllers/cra.controller.ts:107-125 | the activities handed to the store are, one for one, the values read from the body |
| CraController.CheckedActivities | backend/src/controllers/cra.controller.ts:107-125 | activities that pass the loop have a non-empty description and category and hours in (0, 24] |
| CraController.CreateRequestAccepted | backend/src/controllers/cra.controller.ts:86-132 | an accepted create has a non-empty date and client, at least one valid activity, and the status sent or `draft` |
| CraController.CreateRefusesEmptyActivities | backend/src/controllers/cra.controller.ts:97-104 | an empty activity list is refused with 400 |
| CraController.CreateRefusesMissingFields | backend/src/controllers/cra.controller.ts:86-95 | a missing date or client, or a missing or non-array activity list, is refused with 400 |
| CraController.ParseCreate | backend/src/controllers/cra.controller.ts:86-132 | the handler's validation loop computes exactly `CreateRequest` |
| CraController.HandleCreate | backend/src/controllers/cra.controller.ts:83-149 | a refused body changes nothing and answers its refusal. An accepted one answers 201 with the new CRA, and answers 500 exactly when one of its 1 + n statements fails (n activities), so 201 whenever no fault occurs |
| CraController.UpdateRequestAccepted | backend/src/controllers/cra.controller.ts:158-196 | an accepted update carries exactly the fields present in the body, and each activity has hours in (0, 24] |
| CraController.UpdateAcceptsEmptyActivities | backend/src/controllers/cra.controller.ts:166-193 | unlike create, update lets an empty activity list through |
| CraController.ParseUpdate | backend/src/controllers/cra.controller.ts:158-196 | the handler's validation computes exactly `UpdateRequest` |
| CraController.HandleUpdate | backend/src/controllers/cra.controller.ts:155-222 | a refused body changes nothing. Otherwise it answers 500 exactly when the store's update fails (`UpdateFails`) and 404 exactly when the id is missing and the update does not fail, so with no fault a missing id answers 404 unless a non-empty activity list was sent (500), and an existing id answers 200 with the CRA as it now reads. A failed read-back after a committed rewrite answers 500 with the update kept. Any other 500 leaves both tables as they were. On 200 with no field the CRA is returned unchanged. Otherwise the header is `UpdatedRow` of the request, the activities (when given) are one row per requested activity and replace the old ones, and every other CRA reads as before |
| CraController.HandleGetById | backend/src/controllers/cra.controller.ts:51-77 | answers 500 exactly when the SELECT fails. Otherwise it answers the stored CRA exactly when the id exists, and 404 when it does not |
| CraController.HandleDelete | backend/src/controllers/cra.controller.ts:228-254 | answers 200 exactly when the CRA existed and no statement failed, and 404 exactly when it did not exist and none failed. Otherwise 500, which leaves both tables as they were. On 200 or 404 the CRA row and its activities are gone from the tables and nothing else is |
| CraController.PagingArg | backend/src/controllers/cra.controller.ts:20-21 | an absent or empty parameter gives the default; any other is what `parseInt` with no radix reads |
| CraController.PagingArgOfDigits | backend/src/controllers/cra.controller.ts:20-21 | a parameter in plain digits reads as its value |
| CraController.PagingArgHex | backend/src/controllers/cra.controller.ts:20 | `?limit=0x10` asks for 16 rows |
| CraController.PagingArgNegativeHex | backend/src/controllers/cra.controller.ts:20 | `?limit=-0x10` reads as -16 |
| CraController.PagingArgBareHexPrefix | backend/src/controllers/cra.controller.ts:21 | `?offset=0x` reads as NaN |
| CraController.PagingArgSkipsSpace | backend/src/controllers/cra.controller.ts:20 | leading white space, a vertical tab included, is skipped |
| Text.ParseIntOfDigits | backend/src/controllers/cra.controller.ts:20-21 | `parseInt` reads a non-empty decimal digit string as its value |
| Text.ParseIntOfHex | backend/src/controllers/cra.controller.ts:20-21 | behind `0x` or `0X`, `parseInt` reads hexadecimal digits in base 16 |
| Text.ParseIntOfBareHexPrefix | backend/src/controllers/cra.controller.ts:20-21 | `0x` with no hexadecimal digit behind it is NaN |
| Text.ParseIntNegative | backend/src/controllers/cra.controller.ts:20-21 | a leading minus negates what the rest reads, and NaN stays NaN |
| Text.ParseIntSkipsSpace | backend/src/controllers/cra.controller.ts:20-21 | leading white space does not change what `parseInt` reads |
| CraController.HasMoreMeansMoreRows | backend/src/controllers/cra.controller.ts:34 | `hasMore` holds exactly when the requested window ends before the last matching CRA |
| CraController.HandleGetAll | backend/src/controllers/cra.controller.ts:13-45 | answers the listing page, the filtered count, the limit and offset used, and `hasMore`. It answers 500 for a NaN paging value, a negative one or one of 2^63 and above, and whenever the `findAll` or `count` query fails |
| CraSchema.QuarterHoursMeans | src/schemas/cra.schema.ts:31-36 | `hours % 0.25 === 0` means a whole number of quarter hours |
| CraSchema.ValidHoursMeans | src/schemas/cra.schema.ts:27-37 | the accepted hours are exactly 0.25, 0.5, ..., 24 |
| CraSchema.ValidActivityDateParts | src/schemas/cra.schema.ts:8-21 | an accepted date is `YYYY-MM-DD` with a month in 1..12 and a day in 1..31 |
| CraSchema.DateSetSnoc | src/schemas/cra.schema.ts:79-86 | the set of dates grows by the last activity's date |
| CraSchema.DateSetBound | src/schemas/cra.schema.ts:79-86 | there are no more distinct dates than activities |
| CraSchema.DistinctDatesMeans | src/schemas/cra.schema.ts:79-86 | the size test `dates.length === new Set(dates).size` holds exactly when no two activities share a date |
| CraSchema.RepeatedLastDate | src/schemas/cra.schema.ts:79-86 | a last date seen earlier makes the dates not distinct |
| CraSchema.PairwiseSnoc | src/schemas/cra.schema.ts:79-86 | with a new last date, the list has distinct dates exactly when its prefix has |
| CraSchema.HoursOnAbsent | src/schemas/cra.schema.ts:87-98 | a date not in the list carries no hours |
| CraSchema.PerDateTotalsOk | src/schemas/cra.schema.ts:87-98 | the check of the map's values accepts exactly when no date carries more than 24 hours |
| CraSchema.HoursByDate | src/schemas/cra.schema.ts:90-94 | the map loop books exactly the dates of the activities, each with the sum of its hours |
| CraSchema.HoursOnDistinct | src/schemas/cra.schema.ts:87-98 | with distinct dates, an activity's date carries exactly that activity's hours |
| CraSchema.PerDateCheckRedundant | src/schemas/cra.schema.ts:79-98 | behind the distinct-date rule and the 24-hour cap per activity, the per-date rule never refuses |
| CraSchema.ExampleDateValid | src/schemas/cra.schema.ts:8-21 | `2024-03-01` is an accepted activity date |
| CraSchema.PerDateCheckNeededWithoutDistinctDates | src/schemas/cra.schema.ts:87-98 | without the distinct-date rule, two 13-hour activities on one day would be refused only by the per-date rule |
| CraSchema.MonthShapeMeans | src/schemas/cra.schema.ts:44-47 | the month pattern accepts exactly the one- and two-digit spellings of 1 to 12 |
| CraSchema.ValidYearMeans | src/schemas/cra.schema.ts:48-59 | a four-digit year is accepted exactly when it lies from five years back to one year ahead |
| CraSchema.ValidDaysMeans | src/schemas/cra.schema.ts:70-75 | the accepted day counts are exactly the whole numbers 1 to 31 |
| CraSchema.ParseStatus | src/schemas/cra.schema.ts:99-102 | an absent status defaults to draft |
| CraSchema.ParseStatusNames | src/schemas/cra.schema.ts:99-102 | every status reads back from its name, and only the five names are accepted |
| CraSchema.FormIsDraft | src/schemas/cra.schema.ts:130-134 | whatever can be submitted can be saved as a draft |
| CraSchema.DraftIsLaxer | src/schemas/cra.schema.ts:130-134 | a draft may omit the activities or repeat a date, where the full form may not |
| CraSchema.MonthStart | src/schemas/cra.schema.ts:145 | a valid `new Date(y, m)` lies in the range a JavaScript date can hold |
| CraSchema.MonthNotAfterMeans | src/schemas/cra.schema.ts:144-150 | for years 100 to 9999, the date comparison is the order of (year, month) |
| CraSchema.ValidateCraPeriodMeans | src/schemas/cra.schema.ts:144-150 | for a month and year the form accepts, the period passes exactly when it is the current month or an earlier one |
| CraSchema.YearBelow10000 | src/schemas/cra.schema.ts:48-52 | a four-digit year is at most 9999 |
| CraSchema.PeriodOfDigits | src/schemas/cra.schema.ts:144-150 | on digit strings, the period check is the (year, month) order of their values |
| CraSchema.MonthStartOfPresentYear | src/schemas/cra.schema.ts:145-147 | between the years 100 and 9999, `new Date(y, m)` is month `12y + m` |
| CraSchema.ValidateCraPeriodOfParsed | src/schemas/cra.schema.ts:144-150 | the period check compares the parsed year and month, minus one, with today |
| CraSchema.PeriodBoundsYear | src/schemas/cra.schema.ts:155-161 | with the period refinement, the year window ends at the current year |
| AppStore.FilterOut | src/stores/app.store.ts:148-152 | keeps exactly the notifications with another id |
| AppStore.FilterOutAppend | src/stores/app.store.ts:148-152 | removal distributes over concatenation, so kept notifications stay in order |
| AppStore.FilterOutAbsent | src/stores/app.store.ts:148-152 | removing an id no notification carries changes nothing |
| AppStore.FilterOutIdempotent | src/stores/app.store.ts:148-152 | removing twice is removing once |
| AppStore.AddThenRemove | src/stores/app.store.ts:120-152 | adding a notification under a fresh id and then removing it restores the list |
| AppStore.NotificationId | src/stores/app.store.ts:126 | the id is the clock reading, a dash and the random text |
| AppStore.Store.constructor | src/stores/app.store.ts:57-62 | starts with the sidebar open, the system theme, no loading and no notifications |
| AppStore.Store.Rehydrated | src/stores/app.store.ts:168-175 | a reloaded store takes the persisted theme and sidebar state, and everything else initial |
| AppStore.Store.ToggleSidebar | src/stores/app.store.ts:76-78 | flips the sidebar and nothing else |
| AppStore.Store.SetSidebarOpen | src/stores/app.store.ts:83-85 | sets the sidebar and nothing else |
| AppStore.Store.SetTheme | src/stores/app.store.ts:90-108 | records the theme, and the root has the dark class for dark, not for light, and as the system prefers for system |
| AppStore.Store.SetGlobalLoading | src/stores/app.store.ts:113-115 | sets the loading flag and nothing else |
| AppStore.Store.AddNotification | src/stores/app.store.ts:120-143 | appends one notification, with level `info` and duration 5000 when omitted, and schedules its removal exactly when the duration is positive |
| AppStore.Store.RemoveNotification | src/stores/app.store.ts:148-152 | removes exactly the notifications with that id |
| AppStore.Store.ClearNotifications | src/stores/app.store.ts:157-159 | empties the list and nothing else |
| AppStore.Store.Reset | src/stores/app.store.ts:164-166 | returns to the initial state |
| AppStore.Store.Partialize | src/stores/app.store.ts:170-174 | persists the theme and the sidebar state only |
| AppStore.ToggleTwice | src/stores/app.store.ts:76-78 | toggling twice restores the sidebar |
| AppStore.ReloadKeepsPersisted | src/stores/app.store.ts:168-175 | a reload gives back the persisted slice and drops notifications and loading |
| AppStore.RemoveTwice | src/stores/app.store.ts:137-152 | a timer's removal after a manual removal changes nothing |
| ThemeToggle.NextSteps | src/components/ui/ThemeToggle.tsx:4-20 | light goes to dark, dark to system and system to light |
| ThemeToggle.NextCycles | src/components/ui/ThemeToggle.tsx:4-20 | a click always changes the theme, and three clicks come back |
| ThemeToggle.NextReachesAll | src/components/ui/ThemeToggle.tsx:4-20 | every theme is reachable by clicking |
| ThemeToggle.HandleToggle | src/components/ui/ThemeToggle.tsx:29-31 | a click sets the next theme and applies it to the document root |
| ThemeToggle.ToggleThrice | src/components/ui/ThemeToggle.tsx:29-31 | three clicks restore the theme and, under the same preference, the document |
| DatePicker.TwoDigitsOf | src/components/ui/DatePicker.tsx:137-138 | a number below 100 pads to two digits that read back as the number |
| DatePicker.GetToday | src/components/ui/DatePicker.tsx:152-154 | today's text is an activity date the form accepts, for four-digit years |
| DatePicker.FormatDateShape | src/components/ui/DatePicker.tsx:135-140 | for a four-digit year the text has ten characters, matches `YYYY-MM-DD` and is accepted as an activity date |
| DatePicker.JoinedShape | src/components/ui/DatePicker.tsx:139 | four digits, a dash, two digits, a dash and two digits have the date shape |
| DatePicker.FormatDateRoundTrip | src/components/ui/DatePicker.tsx:135-140 | for a year of 0 or more, splitting the text at its dashes gives back the year, the month number and the day (a negative year's text starts with a dash and splits into four parts) |

## Left out

- Hours are exact reals. JavaScript numbers and the `DECIMAL` column's rounding are not modelled, so `% 0.25` and the sums are exact.
- The `date` column's type and its parsing of the text are not part of this model, so dates are stored as the text given. The listing order and the date filters compare that text lexicographically, which is calendar order for `YYYY-MM-DD`.
- The database's error messages are not modelled. `StoreMessage` gives a fixed text per failure.
- A `Fault` stands for any database failure: a lost connection, a constraint or type error.
- Concurrency, isolation between transactions and the connection pool are not modelled. Each transaction runs alone.
- No schema file is part of the source. The foreign key is taken as enforced without cascade.
- `CraModel.CraStore.FindById`: activities are listed in insertion order. The source orders them by `created_at`, which ties inside one transaction and leaves their order to the database.
- `CraTables.MatchesFilters`: the client filter is ASCII case folding and substring search. `%` and `_` typed into the filter act as `ILIKE` wildcards in the source and are literal characters here. Locale-aware case folding is not modelled.
- Path ids are natural numbers. A non-numeric `:id`, which the database would refuse, is not modelled.
- `CraController.HandleUpdate`: a `null` field passes the `!== undefined` test and is bound as SQL `NULL`. The model treats it like any other non-string value and answers 500. For a missing id the source's UPDATE matches no row and it answers 404; for a stored id the outcome depends on a `NOT NULL` constraint that no file of the source shows.
- `CraController.AsText`: only JSON strings are read as text. The database driver turns a number, boolean or object bound to a text column into text, so the source accepts such a value; the model answers 500 instead. For example, a POST with `"client": 42` is 201 in the source and 500 here, and a PUT with `"client": 42` to a missing id is 404 in the source and 500 here.
- `AppStore.Store.AddNotification`: the `setTimeout` callback is not run. The method returns the time at which it would fire, and the removal it performs is `RemoveNotification`.
- Local storage I/O and the `persist` middleware's serialisation are not modelled. `Partialize` and `Rehydrated` stand for the write and the read.
- `window.matchMedia` is a parameter. `useSystemThemeListener` (src/stores/app.store.ts:182-195) is left out because it is an event subscription.
- `getRelativeDate` and `parseDate` of DatePicker.tsx, and everything rendered (icons, labels, layout), are not part of this model.
- `simpleActivitySchema` of cra.schema.ts is not part of this model.
- `DatePicker.FormatDate`: the year is read as `getFullYear()` returns it. Time zones, the `Date` range limits and years outside 1000..9999 (where the result is not a four-digit date) are not modelled beyond the stated bounds.
- `CraSchema.ValidDescription`: lengths count characters, not UTF-16 code units.
- `CraSchema.DateParses`: it accepts a day 1..31 in any month, as the ISO date parser does. Month-length rules are not applied.
- Zod's issue messages and paths are not modelled. Each rule is an accept/refuse predicate.
- The backend does not validate the status and enforces no status transition rule. The model follows the code.
- `Text.ParseInt`: the digits are read as an unbounded integer. JavaScript numbers lose precision above 2^53, and a digit string long enough to overflow reads as `Infinity`; neither is modelled. So a paging value just below 2^63 that rounds up to 2^63 is refused by the database in the source and accepted here.
- `CraController.Query`: each query parameter is one optional string. A repeated key (`?limit=1&limit=2`) gives Express an array, which `parseInt` reads through its text (`"1,2"`, so 1), and bracketed keys give an object. Neither form is modelled.
- Negative `limit`/`offset` are passed to the database, which refuses them (500). The model follows the code rather than clamping.
