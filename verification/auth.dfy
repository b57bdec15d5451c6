/** The handlers of routes/auth.js: student registration, student and admin
    login, logout, and the two public read endpoints. */
module Auth {
  import opened Common
  import opened Rows
  import opened Password
  import opened Store
  import opened Query
  import opened Http

  // ---------------------------------------------------------------------------
  // Registration (routes/auth.js:64-97)
  // ---------------------------------------------------------------------------

  /** The registration form fields; an absent field is None. */
  datatype RegistrationForm = RegistrationForm(
    prefix: Option<string>,
    firstName: Option<string>,
    lastName: Option<string>,
    dob: Option<string>,
    phone: Option<string>,
    departmentId: Option<string>,
    studentCode: Option<string>,
    level: Option<string>,
    bloodGroup: Option<string>,
    fatherName: Option<string>,
    motherName: Option<string>,
    parentPhone: Option<string>)

  /** first_name, last_name, dob, department_id, student_code and level are all truthy. */
  predicate HasRequiredFields(f: RegistrationForm) {
    && Truthy(f.firstName) && Truthy(f.lastName) && Truthy(f.dob)
    && Truthy(f.departmentId) && Truthy(f.studentCode) && Truthy(f.level)
  }

  /** WHERE student_code = code; an absent code (NULL) matches no row. */
  function CodeIs(code: Option<string>): Student -> bool {
    (s: Student) => code == Some(s.code)
  }

  /** Some student already holds this code. */
  predicate CodeTaken(db: Db, code: string) {
    exists s :: s in db.students.rows && s.code == code
  }

  /** The row registration inserts: the next id, the digest of the secret
      derived from the date of birth, and an optional uploaded image path. */
  function NewStudent(db: Db, f: RegistrationForm, image: Option<string>): Student
    requires HasRequiredFields(f)
  {
    Student(
      db.students.lastId + 1, f.prefix, f.firstName.value, f.lastName.value, f.dob.value,
      f.phone, Some(IntegerAffinity(f.departmentId.value)), f.studentCode.value,
      Hash(RegistrationSecret(f.dob.value)), f.level, f.bloodGroup, image,
      f.fatherName, f.motherName, f.parentPhone)
  }

  /** POST /register. */
  function Register(db: Db, session: Session, f: RegistrationForm, image: Option<string>): (r: Reply)
    ensures r.session == session
    ensures !HasRequiredFields(f) ==> r.response == Fail(MissingRequiredFields) && r.db == db
    ensures HasRequiredFields(f) && CodeTaken(db, f.studentCode.value) ==>
      r.response == Fail(DuplicateStudentCode) && r.db == db
    ensures r.response.status == 200 <==> HasRequiredFields(f) && !CodeTaken(db, f.studentCode.value)
    ensures r.response.status == 200 ==>
      && r.response.body == Registered(f.studentCode.value)
      && r.db.departments == db.departments && r.db.admins == db.admins
      && r.db.announcements == db.announcements
      && |r.db.students.rows| == |db.students.rows| + 1
      && r.db.students.rows[..|db.students.rows|] == db.students.rows
      && var added := r.db.students.rows[|db.students.rows|];
         && added.id == db.students.lastId + 1 && r.db.students.lastId == added.id
         && added.code == f.studentCode.value
         && added.dob == f.dob.value
         && Verify(RegistrationSecret(f.dob.value), added.password)
         && Some(added.firstName) == f.firstName && Some(added.lastName) == f.lastName
         && added.departmentId == Some(IntegerAffinity(f.departmentId.value))
         && added.prefix == f.prefix && added.phone == f.phone && added.level == f.level
         && added.bloodGroup == f.bloodGroup && added.image == image
         && added.fatherName == f.fatherName && added.motherName == f.motherName
         && added.parentPhone == f.parentPhone
  {
    if !HasRequiredFields(f) then Reply(db, session, Fail(MissingRequiredFields))
    else if FindFirst(db.students.rows, CodeIs(f.studentCode)).Some? then
      Reply(db, session, Fail(DuplicateStudentCode))
    else
      var row := NewStudent(db, f, image);
      var students := Insert(db.students, row);
      assert students.rows[..|db.students.rows|] == db.students.rows;
      Reply(db.(students := students), session, Ok(Registered(f.studentCode.value)))
  }

  /** Registration keeps the table constraints, student_code uniqueness included. */
  lemma RegisterKeepsValid(db: Db, session: Session, f: RegistrationForm, image: Option<string>)
    requires Valid(db)
    ensures Valid(Register(db, session, f, image).db)
  {
    var r := Register(db, session, f, image);
    if r.response.status == 200 {
      var row := NewStudent(db, f, image);
      InsertKeepsValid(db.students, row, StudentKey);
      var rows := r.db.students.rows;
      assert rows == db.students.rows + [row];
      forall i, j | 0 <= i < j < |rows|
        ensures StudentCodeOf(rows[i]) != StudentCodeOf(rows[j])
      {
        if j < |db.students.rows| {
          assert rows[i] == db.students.rows[i] && rows[j] == db.students.rows[j];
        } else {
          assert rows[i] in db.students.rows;
        }
      }
    }
  }

  // ---------------------------------------------------------------------------
  // Login (routes/auth.js:100-169) and logout (routes/auth.js:172-177)
  // ---------------------------------------------------------------------------

  const StudentHome := "/student_dashboard.html"
  const AdminHome := "/admin_dashboard.html"
  const LoggedOutHome := "/index.html"

  /** The session after a student logs in: id, role, display name and code set. */
  function StudentLoginSession(session: Session, s: Student): Session
  {
    session.(userId := Some(s.id), role := Some(StudentRole),
             userName := Some(s.firstName + " " + s.lastName), studentCode := Some(s.code))
  }

  /** POST /login/student: the password is normalised, the student looked up by
      code, and the normalised password checked against the stored digest. */
  function LoginStudent(db: Db, session: Session, code: Option<string>, password: Option<string>): (r: Reply)
    ensures r.db == db
    ensures r.response.status != 200 ==> r.session == session
    ensures r.response == Fail(StudentNotFound) <==> forall s :: s in db.students.rows ==> code != Some(s.code)
    ensures r.response.status != 200 && r.response != Fail(StudentNotFound) ==>
      r.response == Fail(if password.None? then HashArgumentMissing else WrongStudentPassword)
    ensures r.response.status == 200 ==>
      && password.Some?
      && r.response.body == Redirect(StudentHome)
      && exists s :: s in db.students.rows && code == Some(s.code)
           && Verify(Normalize(password.value), s.password)
           && r.session == StudentLoginSession(session, s)
  {
    match FindFirst(db.students.rows, CodeIs(code))
    case None => Reply(db, session, Fail(StudentNotFound))
    case Some(row) =>
      match NormalizeInput(password)
      case None => Reply(db, session, Fail(HashArgumentMissing))
      case Some(secret) =>
        if Verify(secret, row.password) then
          Reply(db, StudentLoginSession(session, row), Ok(Redirect(StudentHome)))
        else
          Reply(db, session, Fail(WrongStudentPassword))
  }

  /** With unique student codes, a student login succeeds exactly when some
      student has the code and the normalised password verifies against that
      student's digest. */
  lemma LoginStudentSucceedsIff(db: Db, session: Session, code: Option<string>, password: Option<string>)
    requires Valid(db)
    ensures LoginStudent(db, session, code, password).response.status == 200 <==>
      && password.Some?
      && exists s :: s in db.students.rows && code == Some(s.code) && Verify(Normalize(password.value), s.password)
  {
    if password.Some? && exists s :: s in db.students.rows && code == Some(s.code) && Verify(Normalize(password.value), s.password) {
      var s :| s in db.students.rows && code == Some(s.code) && Verify(Normalize(password.value), s.password);
      var found := FindFirst(db.students.rows, CodeIs(code));
      DistinctKeyIdentifies(db.students.rows, StudentCodeOf, found.value, s);
    }
  }

  /** The session after an admin logs in: id, role and display name set; a
      student code left by an earlier login stays. */
  function AdminLoginSession(session: Session, a: AdminUser): Session
  {
    session.(userId := Some(a.id), role := Some(AdminRole), userName := Some(a.username))
  }

  function UsernameIs(username: Option<string>): AdminUser -> bool {
    (a: AdminUser) => username == Some(a.username)
  }

  /** POST /login/admin: no normalisation; the password is checked as typed. */
  function LoginAdmin(db: Db, session: Session, username: Option<string>, password: Option<string>): (r: Reply)
    ensures r.db == db
    ensures r.response.status != 200 ==> r.session == session
    ensures r.response == Fail(AdminNotFound) <==> forall a :: a in db.admins.rows ==> username != Some(a.username)
    ensures r.response.status != 200 && r.response != Fail(AdminNotFound) ==>
      r.response == Fail(if password.None? then HashArgumentMissing else WrongAdminPassword)
    ensures r.response.status == 200 ==>
      && password.Some?
      && r.response.body == Redirect(AdminHome)
      && exists a :: a in db.admins.rows && username == Some(a.username)
           && Verify(password.value, a.password)
           && r.session == AdminLoginSession(session, a)
  {
    match FindFirst(db.admins.rows, UsernameIs(username))
    case None => Reply(db, session, Fail(AdminNotFound))
    case Some(row) =>
      match password
      case None => Reply(db, session, Fail(HashArgumentMissing))
      case Some(secret) =>
        if Verify(secret, row.password) then
          Reply(db, AdminLoginSession(session, row), Ok(Redirect(AdminHome)))
        else
          Reply(db, session, Fail(WrongAdminPassword))
  }

  /** With unique usernames, an admin login succeeds exactly when the password
      verifies against that admin's digest. */
  lemma LoginAdminSucceedsIff(db: Db, session: Session, username: Option<string>, password: Option<string>)
    requires Valid(db)
    ensures LoginAdmin(db, session, username, password).response.status == 200 <==>
      && password.Some?
      && exists a :: a in db.admins.rows && username == Some(a.username) && Verify(password.value, a.password)
  {
    if password.Some? && exists a :: a in db.admins.rows && username == Some(a.username) && Verify(password.value, a.password) {
      var a :| a in db.admins.rows && username == Some(a.username) && Verify(password.value, a.password);
      var found := FindFirst(db.admins.rows, UsernameIs(username));
      DistinctKeyIdentifies(db.admins.rows, UsernameOf, found.value, a);
    }
  }

  /** POST /logout: the session is destroyed whatever it held. */
  function Logout(db: Db, session: Session): (r: Reply)
    ensures r.db == db && r.session == Anonymous
    ensures !HasUser(r.session) && r.session.role.None?
    ensures r.response == Ok(Redirect(LoggedOutHome))
  {
    Reply(db, Anonymous, Ok(Redirect(LoggedOutHome)))
  }

  /** Logging out twice is logging out once. */
  lemma LogoutIdempotent(db: Db, session: Session)
    ensures Logout(db, Logout(db, session).session) == Logout(db, session)
  {
  }

  // ---------------------------------------------------------------------------
  // Registration followed by login
  // ---------------------------------------------------------------------------

  /** A student registered with date of birth YYYY-MM-DD logs in with
      DD/MM/(YYYY+543), and with D/M/(YYYY+543) when the day and month have a
      leading zero dropped. */
  lemma RegisterThenLogin(db: Db, session: Session, f: RegistrationForm, image: Option<string>, later: Session)
    requires Valid(db)
    requires Register(db, session, f, image).response.status == 200
    requires IsIsoDate(f.dob.value)
    ensures var db' := Register(db, session, f, image).db;
      var secret := RegistrationSecret(f.dob.value);
      LoginStudent(db', later, f.studentCode, Some(secret)).response.status == 200
  {
    var db' := Register(db, session, f, image).db;
    var added := db'.students.rows[|db.students.rows|];
    RegistrationSecretIsFixedPoint(f.dob.value);
    RegisterKeepsValid(db, session, f, image);
    LoginStudentSucceedsIff(db', later, f.studentCode, Some(RegistrationSecret(f.dob.value)));
    assert added in db'.students.rows;
  }

  /** The same student also logs in with the eight-digit form DDMM(YYYY+543)
      when the Buddhist-era year has four digits. */
  lemma RegisterThenLoginWithEightDigits(db: Db, session: Session, f: RegistrationForm, image: Option<string>, later: Session)
    requires Valid(db)
    requires Register(db, session, f, image).response.status == 200
    requires IsIsoDate(f.dob.value)
    requires 457 <= DecimalValue(f.dob.value[..4]) <= 9456
    ensures var db' := Register(db, session, f, image).db;
      var dob := f.dob.value;
      LoginStudent(db', later, f.studentCode, Some(dob[8..] + dob[5..7] + BuddhistYear(dob))).response.status == 200
  {
    var db' := Register(db, session, f, image).db;
    var dob := f.dob.value;
    var added := db'.students.rows[|db.students.rows|];
    EightDigitFormLogsIn(dob);
    RegisterKeepsValid(db, session, f, image);
    LoginStudentSucceedsIff(db', later, f.studentCode, Some(dob[8..] + dob[5..7] + BuddhistYear(dob)));
    assert added in db'.students.rows;
  }

  // ---------------------------------------------------------------------------
  // Public read endpoints (routes/auth.js:33-61)
  // ---------------------------------------------------------------------------

  /** GET /departments: every department. The registration form reads it
      without a session; the admin router's GET /departments
      (routes/admin.js:172-177) runs the same query and is dispatched here. */
  function ListDepartments(db: Db, session: Session): (r: Reply)
    ensures r.db == db && r.session == session
    ensures r.response == Ok(DepartmentList(db.departments.rows))
  {
    Reply(db, session, Ok(DepartmentList(db.departments.rows)))
  }

  /** GET /public-stats: the number of students and the per-department breakdown. */
  function PublicStats(db: Db, session: Session): (r: Reply)
    ensures r.db == db && r.session == session
    ensures r.response.status == 200 && r.response.body.Statistics?
    ensures r.response.body.studentTotal == |db.students.rows| && r.response.body.departmentTotal.None?
    ensures r.response.body.breakdown == Breakdown(db.departments.rows, db.students.rows)
  {
    Reply(db, session, Ok(Statistics(|db.students.rows|, None, Breakdown(db.departments.rows, db.students.rows))))
  }

  /** In a valid store the public breakdown plus the students without a listed
      department add up to the student total. */
  lemma PublicStatsAccountsForEveryStudent(db: Db, session: Session)
    requires Valid(db)
    ensures var body := PublicStats(db, session).response.body;
      SumCounts(body.breakdown) + Count(db.students.rows, InNoneOf(db.departments.rows)) == body.studentTotal
  {
    IncreasingIsDistinct(db.departments.rows, DepartmentKey);
    BreakdownAccountsForEveryStudent(db.departments.rows, db.students.rows);
  }
}
