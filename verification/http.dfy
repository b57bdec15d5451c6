/** What a request handler sees and produces besides the store: the
    server-side session record and the JSON response. A handler is modelled
    as a function from (store, session, request fields) to a Reply. */
module Http {
  import opened Common
  import opened Store
  import opened Query

  datatype Role = StudentRole | AdminRole

  /** The express-session payload. Login assigns some of these fields and
      leaves the others as they were; a destroyed session has none. */
  datatype Session = Session(
    role: Option<Role>,
    userId: Option<int>,
    userName: Option<string>,
    studentCode: Option<string>)

  const Anonymous := Session(None, None, None, None)

  /** `req.session.userId` is truthy: present and not 0. */
  predicate HasUser(s: Session) {
    s.userId.Some? && s.userId.value != 0
  }

  /** The kinds of error response, each with its own message. */
  datatype ErrorKind =
    | MissingRequiredFields   // registration without a required field
    | DuplicateStudentCode    // UNIQUE violation on student_code
    | StudentNotFound         // login: no student with that code
    | WrongStudentPassword    // login: the student's digest does not verify
    | AdminNotFound           // login: no admin with that username
    | WrongAdminPassword      // login: the admin's digest does not verify
    | Unauthorized            // a role gate refused the session
    | RecordNotFound          // a lookup by id found no row
    | PasswordTooShort        // change-password with fewer than 4 characters
    | NoImageSelected         // image upload without a file
    | NotNullViolation        // a NOT NULL column would receive NULL
    | HashArgumentMissing     // bcrypt.compare called without a password
    | NoRoute                 // no route of the router matches the request

  function StatusOf(kind: ErrorKind): nat
  {
    match kind
    case MissingRequiredFields => 400
    case DuplicateStudentCode => 400
    case PasswordTooShort => 400
    case NoImageSelected => 400
    case StudentNotFound => 401
    case WrongStudentPassword => 401
    case AdminNotFound => 401
    case WrongAdminPassword => 401
    case Unauthorized => 401
    case RecordNotFound => 404
    case NoRoute => 404
    case NotNullViolation => 500
    case HashArgumentMissing => 500
  }

  /** The body of /api/student/info: the student's columns without the
      password, with the joined department name and code. */
  datatype StudentInfo = StudentInfo(
    id: nat,
    prefix: Option<string>,
    firstName: string,
    lastName: string,
    dob: string,
    phone: Option<string>,
    departmentId: Option<SqlValue>,
    code: string,
    level: Option<string>,
    bloodGroup: Option<string>,
    image: Option<string>,
    fatherName: Option<string>,
    motherName: Option<string>,
    parentPhone: Option<string>,
    departmentName: Option<string>,
    departmentCode: Option<string>)

  datatype Body =
    | ErrorBody(kind: ErrorKind)
    | Redirect(location: string)
    | Registered(studentCode: string)
    | Done
    | Created(id: nat)
    | ImageStored(path: string)
    | StudentList(students: seq<StudentRow>)
    | OneStudent(row: StudentRow)
    | DepartmentList(departments: seq<Department>)
    | AnnouncementList(announcements: seq<AnnouncementRow>)
    | Statistics(studentTotal: nat, departmentTotal: Option<nat>, breakdown: seq<DepartmentCount>)
    | Info(info: StudentInfo)

  datatype Response = Response(status: nat, body: Body)

  function Fail(kind: ErrorKind): (r: Response)
    ensures r.status >= 400 && r.body == ErrorBody(kind)
  {
    Response(StatusOf(kind), ErrorBody(kind))
  }

  function Ok(body: Body): Response
  {
    Response(200, body)
  }

  /** The store and session after a request, and the response sent. */
  datatype Reply = Reply(db: Db, session: Session, response: Response)
}
