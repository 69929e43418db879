/** Values shared by the whole model: the rows of the three tables (users,
    reports, confirmations), the caller identity carried by a bearer token,
    the loosely typed fields of a request body, and the error conditions the
    HTTP handlers answer with. Time is a whole number of seconds. */
module Types {

  type UserId = string
  type ReportId = string
  type City = string
  type Time = int

  /** A new report is a duplicate of one created less than 5 minutes ago. */
  const DuplicateWindow: int := 5 * 60
  /** Reports older than 60 minutes are swept. */
  const ExpiryAge: int := 60 * 60
  /** Half side of the axis-aligned duplicate box, in degrees. */
  const BoxHalfSide: real := 0.002
  /** The sentinel a reset city is set to ("to be decided"). */
  const UnsetCity: City := "DO_USTALENIA"
  /** City given to the owner account created at start-up. */
  const OwnerCity: City := "Warszawa"

  datatype Option<T> = None | Some(value: T)

  /** HTTP failures of the handlers, one per distinct answer. */
  datatype Error =
    | NoAuthorization   // 401: no "Bearer " header
    | InvalidToken      // 401: the token does not verify
    | AccountBanned     // 403: the token's payload says banned
    | Forbidden         // 403: the caller's role is not admitted
    | InvalidType       // 400: report type missing or unknown
    | MissingStreet     // 400: street / stop label missing
    | MissingLocation   // 400: lat or lng not a number
    | InvalidRole       // 400: role other than moderator or user
    | CityRequired      // 400: listing without a city
    | AlreadyConfirmed  // 400: (user, report) already confirmed
    | DuplicateReport   // 429: a similar report exists nearby
    | NotFound          // 404: no such report
    | StoreFailure      // the store refused the write: a foreign key in a handler (500),
                        // the owner's unique e-mail at start-up (start-up aborts)

  datatype Result<T> = Ok(value: T) | Err(error: Error)

  /** The role column, checked to be one of three values. */
  datatype Role = Owner | Moderator | Member

  /** The report type column: "policja" or "kontrola". */
  datatype ReportKind = Police | TicketInspection

  /** A field of a JSON request body before any check. */
  datatype Value = Absent | Null | Bool(b: bool) | Num(n: real) | Str(s: string) | Composite

  /** JavaScript truthiness of a JSON value (JSON has no NaN). */
  predicate Truthy(v: Value)
  {
    match v
    case Absent => false
    case Null => false
    case Bool(b) => b
    case Num(n) => n != 0.0
    case Str(s) => s != ""
    case Composite => true
  }

  /** The identity a verified token carries: the payload signed at login. */
  datatype Caller = Caller(id: UserId, role: Role, city: City, banned: bool)

  /** What the Authorization header resolves to. */
  datatype Credential =
    | NoBearer                  // header absent or not "Bearer ..."
    | Unverifiable              // bad signature or expired
    | Verified(payload: Caller)

  /** A row of the users table (password hash and created_at left out).
      `email` is the nullable, unique e-mail column: anonymous users have
      none. */
  datatype User = User(role: Role, email: Option<string>, city: City, rating: int, banned: bool)

  /** A row of the reports table. `confirmationsCount` is the stored column;
      `author` is the nullable user_id. */
  datatype Report = Report(
    city: City,
    kind: ReportKind,
    street: string,
    busNumber: Option<Value>,
    direction: Option<Value>,
    lat: real,
    lng: real,
    createdAt: Time,
    confirmationsCount: int,
    author: Option<UserId>)

  /** The confirmations table: composite key (user_id, report_id) to confirmed_at. */
  type ConfirmationKey = (UserId, ReportId)

  function Abs(x: real): real
  {
    if x < 0.0 then -x else x
  }
}
