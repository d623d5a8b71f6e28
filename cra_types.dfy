/**
 * The backend's records: the rows of the `cras` and `activities` tables, the
 * aggregate a reader sees (a CRA with its activities attached), and the inputs
 * of create, update and the list filters.
 */
module CraTypes {
  import opened Common

  /** Row identifiers, handed out by the store from a counter. */
  type Id = nat

  /** Timestamps, read from the store's clock counter. */
  type Timestamp = nat

  /** One activity as a caller supplies it (no id, parent or timestamp yet). */
  datatype ActivityInput = ActivityInput(description: string, hours: real, category: string)

  datatype CraRow = CraRow(
    id: Id,
    date: string,
    client: string,
    totalHours: real,
    status: string,
    createdAt: Timestamp,
    updatedAt: Timestamp)

  datatype ActivityRow = ActivityRow(
    id: Id,
    craId: Id,
    description: string,
    hours: real,
    category: string,
    createdAt: Timestamp)

  /** A CRA as the store returns it: its row with its activities joined in. */
  datatype Cra = Cra(header: CraRow, activities: seq<ActivityRow>)

  /** The input of create; `status` is `None` when the caller leaves it out. */
  datatype CreateInput = CreateInput(
    date: string,
    client: string,
    activities: seq<ActivityInput>,
    status: Option<string>)

  /** The input of update: every field is optional, `None` meaning "leave as it is". */
  datatype UpdateInput = UpdateInput(
    date: Option<string>,
    client: Option<string>,
    activities: Option<seq<ActivityInput>>,
    status: Option<string>)

  /**
   * The list filters. A filter that is absent or the empty string is not applied,
   * as every filter is guarded by JavaScript truthiness.
   */
  datatype Filters = Filters(
    status: Option<string>,
    client: Option<string>,
    startDate: Option<string>,
    endDate: Option<string>)

  const NoFilters := Filters(None, None, None, None)

  /** The status a CRA receives when create is given none. */
  const DefaultStatus := "draft"

  /** Default page size and start of findAll. */
  const DefaultLimit := 50
  const DefaultOffset := 0
}
