/** The documents of the admin workflow (admin requests and user accounts),
    the read-only upload records kept on a user, and the replies a handler sends. */
module AdminTypes {

  datatype Option<+T> = None | Some(value: T) {
    /** The wrapped value, or `default` when absent (the `x || default` of the handlers). */
    function GetOr(default: T): T {
      match this
      case Some(v) => v
      case None => default
    }
  }

  /** Document identifiers (the store's ObjectIds), ordered so that a collection
      can be listed in a deterministic order. */
  type Id = nat

  /** Timestamps, in milliseconds. */
  type Time = int

  datatype RequestStatus = Pending | Approved | Rejected

  /** An account's role: "user", "admin", or any other role name the store holds,
      which the users listing passes through unchanged. `Other` never carries "user"
      or "admin"; those are `Regular` and `Admin`. */
  datatype Role = Regular | Admin | Other(name: string)

  datatype AccountStatus = Active | Suspended

  /** One user's petition for admin rights and its resolution. */
  datatype AdminRequest = AdminRequest(
    user: Id,
    reason: string,
    experience: Option<string>,
    status: RequestStatus,
    processedBy: Option<Id>,
    processedAt: Option<Time>,
    createdAt: Time)

  /** Metadata of one uploaded spreadsheet. */
  datatype ExcelRecord = ExcelRecord(filename: string, filesize: nat, uploadedAt: Time, rows: nat, columns: nat)

  /** Metadata of one chart; its configuration is kept as serialised text. */
  datatype ChartRecord = ChartRecord(chartType: string, createdAt: Time, fromExcelFile: string, chartConfig: string)

  /** A user account; fields that a document may lack are optional. */
  datatype User = User(
    firstName: Option<string>,
    lastName: Option<string>,
    username: string,
    email: string,
    role: Role,
    status: Option<AccountStatus>,
    excelRecords: Option<seq<ExcelRecord>>,
    chartRecords: Option<seq<ChartRecord>>,
    createdAt: Time)

  /** What a handler answers: 200/201 with a body, 400, 404, or 500. */
  datatype Reply<+T> = Ok(body: T) | BadRequest | NotFound | ServerError
}
