/** The handlers of routes/admin.js, the isAdmin gate, and the router's
    dispatch of a request through its layers in declaration order. */
module Admin {
  import opened Common
  import opened Rows
  import opened Text
  import opened Password
  import opened Store
  import opened Query
  import opened Http
  import opened Auth

  /** isAdmin: the session's role is admin and its user id is truthy. */
  predicate IsAdmin(s: Session) {
    s.role == Some(AdminRole) && HasUser(s)
  }

  /** Only the students table changes, and it keeps its length and counter. */
  predicate OnlyStudentsChange(db: Db, db': Db) {
    && db'.departments == db.departments && db'.admins == db.admins
    && db'.announcements == db.announcements
    && db'.students.lastId == db.students.lastId
    && |db'.students.rows| == |db.students.rows|
  }

  function HasId(id: int): Student -> bool {
    (s: Student) => s.id == id
  }

  /** Applies f to the rows whose id is id and leaves the others alone. */
  function Touch(id: int, f: Student -> Student): Student -> Student {
    (s: Student) => if s.id == id then f(s) else s
  }

  /** UPDATE students SET ... WHERE student_id = id. */
  function UpdateStudents(t: Table<Student>, id: int, f: Student -> Student): (r: Table<Student>)
    ensures r.lastId == t.lastId && |r.rows| == |t.rows|
    ensures forall i :: 0 <= i < |t.rows| && t.rows[i].id != id ==> r.rows[i] == t.rows[i]
    ensures forall i :: 0 <= i < |t.rows| && t.rows[i].id == id ==> r.rows[i] == f(t.rows[i])
  {
    Table(MapRows(t.rows, Touch(id, f)), t.lastId)
  }

  /** An update that keeps id and student_code keeps the store valid. */
  lemma UpdateStudentsKeepsValid(db: Db, id: int, f: Student -> Student)
    requires Valid(db)
    requires forall s :: f(s).id == s.id && f(s).code == s.code
    ensures Valid(db.(students := UpdateStudents(db.students, id, f)))
  {
    UpdateKeepsValid(db.students, Touch(id, f), StudentKey);
    MapKeepsDistinct(db.students.rows, Touch(id, f), StudentCodeOf);
  }

  // ---------------------------------------------------------------------------
  // Students (routes/admin.js:29-167)
  // ---------------------------------------------------------------------------

  function SetImage(path: string): Student -> Student {
    (s: Student) => s.(image := Some(path))
  }

  /** POST /students/:id/upload-image: a missing file is refused; otherwise the
      image path of the student with that id is replaced. */
  function UploadImage(db: Db, session: Session, id: int, image: Option<string>): (r: Reply)
    ensures r.session == session
    ensures image.None? ==> r.response == Fail(NoImageSelected) && r.db == db
    ensures image.Some? ==> r.response == Ok(ImageStored(image.value)) && OnlyStudentsChange(db, r.db)
    ensures image.Some? ==> forall i :: 0 <= i < |db.students.rows| ==>
      && r.db.students.rows[i].(image := db.students.rows[i].image) == db.students.rows[i]
      && (db.students.rows[i].id == id ==> r.db.students.rows[i].image == image)
      && (db.students.rows[i].id != id ==> r.db.students.rows[i] == db.students.rows[i])
  {
    match image
    case None => Reply(db, session, Fail(NoImageSelected))
    case Some(path) =>
      Reply(db.(students := UpdateStudents(db.students, id, SetImage(path))), session, Ok(ImageStored(path)))
  }

  /** GET /students: every student with its department name, ORDER BY student_id DESC. */
  function ListStudents(db: Db, session: Session): (r: Reply)
    ensures r.db == db && r.session == session
    ensures r.response.status == 200 && r.response.body.StudentList?
    ensures var listed := r.response.body.students;
      && |listed| == |db.students.rows|
      && forall i :: 0 <= i < |listed| ==>
           && listed[i].student == db.students.rows[|listed| - 1 - i]
           && listed[i].departmentName == DepartmentNameOf(db.departments.rows, listed[i].student.departmentId)
  {
    Reply(db, session, Ok(StudentList(JoinStudents(Reverse(db.students.rows), db.departments.rows))))
  }

  /** In a valid store the listing holds every student once, ids strictly
      decreasing. */
  lemma ListStudentsByIdDescending(db: Db, session: Session)
    requires Valid(db)
    ensures var listed := ListStudents(db, session).response.body.students;
      && (forall i, j :: 0 <= i < j < |listed| ==> listed[i].student.id > listed[j].student.id)
      && (forall s :: s in db.students.rows <==> exists i :: 0 <= i < |listed| && listed[i].student == s)
  {
    var rows := db.students.rows;
    var listed := ListStudents(db, session).response.body.students;
    forall s | s in rows
      ensures exists i :: 0 <= i < |listed| && listed[i].student == s
    {
      var k :| 0 <= k < |rows| && rows[k] == s;
      assert listed[|rows| - 1 - k].student == s;
    }
  }

  /** GET /students/:id: the student with that id and its department name, or 404. */
  function ShowStudent(db: Db, session: Session, id: int): (r: Reply)
    ensures r.db == db && r.session == session
    ensures r.response.status == 200 || r.response == Fail(RecordNotFound)
    ensures r.response == Fail(RecordNotFound) <==> forall s :: s in db.students.rows ==> s.id != id
    ensures r.response.status == 200 ==>
      && r.response.body.OneStudent?
      && r.response.body.row.student in db.students.rows
      && r.response.body.row.student.id == id
      && r.response.body.row.departmentName == DepartmentNameOf(db.departments.rows, r.response.body.row.student.departmentId)
  {
    match FindFirst(db.students.rows, HasId(id))
    case None => Reply(db, session, Fail(RecordNotFound))
    case Some(s) =>
      Reply(db, session, Ok(OneStudent(StudentRow(s, DepartmentNameOf(db.departments.rows, s.departmentId)))))
  }

  /** DELETE /students/:id: the rows with that id go, nothing else changes. */
  function RemoveStudent(db: Db, session: Session, id: int): (r: Reply)
    ensures r.session == session && r.response == Ok(Done)
    ensures r.db.departments == db.departments && r.db.admins == db.admins
    ensures r.db.announcements == db.announcements && r.db.students.lastId == db.students.lastId
    ensures forall s :: s in r.db.students.rows <==> s in db.students.rows && s.id != id
  {
    Reply(db.(students := DeleteWhere(db.students, HasId(id))), session, Ok(Done))
  }

  function SetPassword(d: Digest): Student -> Student {
    (s: Student) => s.(password := d)
  }

  /** UPDATE students SET password = d WHERE student_id = id. */
  function StorePassword(db: Db, session: Session, id: int, d: Digest): Reply
  {
    Reply(db.(students := UpdateStudents(db.students, id, SetPassword(d))), session, Ok(Done))
  }

  /** Resetting a student's password: 404 for an unknown id, otherwise the
      password of that id becomes the digest of the secret derived from the
      date of birth read for it. */
  function ResetTo(db: Db, session: Session, id: int, secretOf: string -> string): Reply
  {
    match FindFirst(db.students.rows, HasId(id))
    case None => Reply(db, session, Fail(RecordNotFound))
    case Some(row) => StorePassword(db, session, id, Hash(secretOf(row.dob)))
  }

  /** POST /students/:id/reset-password as written: the secret is the date of
      birth with its dash-separated parts reversed, DDMMYYYY. */
  function ResetPasswordAsWritten(db: Db, session: Session, id: int): (r: Reply)
    ensures r.session == session
    ensures r.response == Fail(RecordNotFound) <==> forall s :: s in db.students.rows ==> s.id != id
    ensures r.response.status != 200 ==> r.db == db
    ensures r.response.status == 200 ==> r.response.body == Done && OnlyStudentsChange(db, r.db)
    ensures r.response.status == 200 ==> forall i :: 0 <= i < |db.students.rows| ==>
      && r.db.students.rows[i].(password := db.students.rows[i].password) == db.students.rows[i]
      && (db.students.rows[i].id != id ==> r.db.students.rows[i] == db.students.rows[i])
      && (db.students.rows[i].id == id ==>
            exists s :: s in db.students.rows && s.id == id && Verify(ResetSecretAsWritten(s.dob), r.db.students.rows[i].password))
  {
    ResetTo(db, session, id, ResetSecretAsWritten)
  }

  /** POST /students/:id/reset-password, corrected: the password goes back to
      the secret registration gave it, DD/MM/(YYYY+543). */
  function ResetPassword(db: Db, session: Session, id: int): (r: Reply)
    ensures r.session == session
    ensures r.response == Fail(RecordNotFound) <==> forall s :: s in db.students.rows ==> s.id != id
    ensures r.response.status != 200 ==> r.db == db
    ensures r.response.status == 200 ==> r.response.body == Done && OnlyStudentsChange(db, r.db)
    ensures r.response.status == 200 ==> forall i :: 0 <= i < |db.students.rows| ==>
      && r.db.students.rows[i].(password := db.students.rows[i].password) == db.students.rows[i]
      && (db.students.rows[i].id != id ==> r.db.students.rows[i] == db.students.rows[i])
      && (db.students.rows[i].id == id ==>
            exists s :: s in db.students.rows && s.id == id && Verify(RegistrationSecret(s.dob), r.db.students.rows[i].password))
  {
    ResetTo(db, session, id, RegistrationSecret)
  }

  /** With unique ids, the row a password update touches is the row with that id. */
  lemma StoredPasswordOf(db: Db, session: Session, id: int, d: Digest, s: Student)
    requires Valid(db) && s in db.students.rows && s.id == id
    ensures var db' := StorePassword(db, session, id, d).db;
      && Valid(db')
      && s.(password := d) in db'.students.rows
      && forall t :: t in db'.students.rows && t.code == s.code ==> t == s.(password := d)
  {
    var rows := db.students.rows;
    var db' := StorePassword(db, session, id, d).db;
    UpdateStudentsKeepsValid(db, id, SetPassword(d));
    var k :| 0 <= k < |rows| && rows[k] == s;
    assert db'.students.rows[k] == s.(password := d);
    forall t | t in db'.students.rows && t.code == s.code
      ensures t == s.(password := d)
    {
      var j :| 0 <= j < |db'.students.rows| && db'.students.rows[j] == t;
      assert rows[j].code == s.code;
      DistinctKeyIdentifies(rows, StudentCodeOf, rows[j], s);
    }
  }

  /** The student the reset found is the student with that id. */
  lemma ResetFinds(db: Db, id: int, s: Student)
    requires Valid(db) && s in db.students.rows && s.id == id
    ensures FindFirst(db.students.rows, HasId(id)) == Some(s)
  {
    var found := FindFirst(db.students.rows, HasId(id));
    IncreasingIsDistinct(db.students.rows, StudentKey);
    DistinctKeyIdentifies(db.students.rows, StudentKey, found.value, s);
  }

  /** After the corrected reset the student logs in with the registration
      secret again. */
  lemma ResetThenLogin(db: Db, session: Session, s: Student, later: Session)
    requires Valid(db) && s in db.students.rows && IsIsoDate(s.dob)
    ensures var db' := ResetPassword(db, session, s.id).db;
      LoginStudent(db', later, Some(s.code), Some(RegistrationSecret(s.dob))).response.status == 200
  {
    ResetFinds(db, s.id, s);
    var d := Hash(RegistrationSecret(s.dob));
    StoredPasswordOf(db, session, s.id, d, s);
    RegistrationSecretIsFixedPoint(s.dob);
    var db' := ResetPassword(db, session, s.id).db;
    LoginStudentSucceedsIff(db', later, Some(s.code), Some(RegistrationSecret(s.dob)));
  }

  /** After the reset as written no login input whatever lets the student in:
      the normaliser never yields eight bare digits. */
  lemma ResetAsWrittenLocksOut(db: Db, session: Session, s: Student, later: Session, raw: string)
    requires Valid(db) && s in db.students.rows && IsIsoDate(s.dob)
    ensures var db' := ResetPasswordAsWritten(db, session, s.id).db;
      LoginStudent(db', later, Some(s.code), Some(raw)).response.status != 200
  {
    ResetFinds(db, s.id, s);
    var d := Hash(ResetSecretAsWritten(s.dob));
    StoredPasswordOf(db, session, s.id, d, s);
    ResetSecretUnreachable(s.dob, raw);
    var db' := ResetPasswordAsWritten(db, session, s.id).db;
    LoginStudentSucceedsIff(db', later, Some(s.code), Some(raw));
  }

  /** The body of PUT /students/:id: the eleven columns it overwrites. */
  datatype StudentUpdate = StudentUpdate(
    prefix: Option<string>,
    firstName: Option<string>,
    lastName: Option<string>,
    level: Option<string>,
    departmentId: Option<string>,
    dob: Option<string>,
    bloodGroup: Option<string>,
    phone: Option<string>,
    fatherName: Option<string>,
    motherName: Option<string>,
    parentPhone: Option<string>)

  /** A text parameter bound to an INTEGER column; an absent one binds NULL. */
  function StoredInteger(v: Option<string>): (r: Option<SqlValue>)
    ensures r.None? <==> v.None?
    ensures r.Some? ==> r.value == IntegerAffinity(v.value)
  {
    match v
    case None => None
    case Some(t) => Some(IntegerAffinity(t))
  }

  /** first_name, last_name and dob are NOT NULL. */
  predicate FillsRequiredColumns(u: StudentUpdate) {
    u.firstName.Some? && u.lastName.Some? && u.dob.Some?
  }

  function Apply(u: StudentUpdate): Student -> Student
    requires FillsRequiredColumns(u)
  {
    (s: Student) => s.(
      prefix := u.prefix, firstName := u.firstName.value, lastName := u.lastName.value,
      level := u.level, departmentId := StoredInteger(u.departmentId), dob := u.dob.value,
      bloodGroup := u.bloodGroup, phone := u.phone, fatherName := u.fatherName,
      motherName := u.motherName, parentPhone := u.parentPhone)
  }

  /** The row carries exactly the update's values in the eleven columns. */
  predicate Carries(row: Student, u: StudentUpdate) {
    && row.prefix == u.prefix && Some(row.firstName) == u.firstName
    && Some(row.lastName) == u.lastName && row.level == u.level
    && row.departmentId == StoredInteger(u.departmentId) && Some(row.dob) == u.dob
    && row.bloodGroup == u.bloodGroup && row.phone == u.phone
    && row.fatherName == u.fatherName && row.motherName == u.motherName
    && row.parentPhone == u.parentPhone
  }

  /** PUT /students/:id: the eleven columns of the student with that id are
      overwritten; id, student_code, password and image stay. Leaving out a
      NOT NULL column fails only when there is a row to update. */
  function UpdateStudent(db: Db, session: Session, id: int, u: StudentUpdate): (r: Reply)
    ensures r.session == session
    ensures r.response.status == 200 || r.response == Fail(NotNullViolation)
    ensures r.response == Fail(NotNullViolation) <==>
      !FillsRequiredColumns(u) && exists s :: s in db.students.rows && s.id == id
    ensures r.response.status != 200 ==> r.db == db
    ensures r.response.status == 200 ==> r.response.body == Done && OnlyStudentsChange(db, r.db)
    ensures r.response.status == 200 ==> forall i :: 0 <= i < |db.students.rows| ==>
      var before, after := db.students.rows[i], r.db.students.rows[i];
      && after.id == before.id && after.code == before.code
      && after.password == before.password && after.image == before.image
      && (before.id != id ==> after == before)
      && (before.id == id ==> Carries(after, u))
  {
    if !FillsRequiredColumns(u) then
      if FindFirst(db.students.rows, HasId(id)).Some? then Reply(db, session, Fail(NotNullViolation))
      else Reply(db, session, Ok(Done))
    else
      Reply(db.(students := UpdateStudents(db.students, id, Apply(u))), session, Ok(Done))
  }

  /** An update is read back by GET /students/:id. */
  lemma UpdateThenShow(db: Db, session: Session, id: int, u: StudentUpdate)
    requires Valid(db) && FillsRequiredColumns(u)
    requires exists s :: s in db.students.rows && s.id == id
    ensures var db' := UpdateStudent(db, session, id, u).db;
      var r := ShowStudent(db', session, id);
      r.response.status == 200 && Carries(r.response.body.row.student, u)
  {
    var db' := UpdateStudent(db, session, id, u).db;
    var s :| s in db.students.rows && s.id == id;
    var k :| 0 <= k < |db.students.rows| && db.students.rows[k] == s;
    assert db'.students.rows[k].id == id;
    var shown := ShowStudent(db', session, id).response.body.row.student;
    var j :| 0 <= j < |db'.students.rows| && db'.students.rows[j] == shown;
    assert db.students.rows[j].id == id;
  }

  predicate LongEnough(newPassword: Option<string>) {
    newPassword.Some? && |newPassword.value| >= 4
  }

  /** POST /students/:id/change-password as written: the new password is
      hashed exactly as typed. */
  function ChangePasswordAsWritten(db: Db, session: Session, id: int, newPassword: Option<string>): (r: Reply)
    ensures r.session == session
    ensures r.response == Fail(PasswordTooShort) <==> !LongEnough(newPassword)
    ensures r.response.status != 200 ==> r.db == db
    ensures r.response.status == 200 ==> r.response.body == Done && OnlyStudentsChange(db, r.db)
    ensures r.response.status == 200 ==> forall i :: 0 <= i < |db.students.rows| ==>
      && r.db.students.rows[i].(password := db.students.rows[i].password) == db.students.rows[i]
      && (db.students.rows[i].id != id ==> r.db.students.rows[i] == db.students.rows[i])
      && (db.students.rows[i].id == id ==> Verify(newPassword.value, r.db.students.rows[i].password))
  {
    if !LongEnough(newPassword) then Reply(db, session, Fail(PasswordTooShort))
    else StorePassword(db, session, id, Hash(newPassword.value))
  }

  /** POST /students/:id/change-password, corrected: the new password is stored
      in the form the login normaliser turns it into. */
  function ChangePassword(db: Db, session: Session, id: int, newPassword: Option<string>): (r: Reply)
    ensures r.session == session
    ensures r.response == Fail(PasswordTooShort) <==> !LongEnough(newPassword)
    ensures r.response.status != 200 ==> r.db == db
    ensures r.response.status == 200 ==> r.response.body == Done && OnlyStudentsChange(db, r.db)
    ensures r.response.status == 200 ==> forall i :: 0 <= i < |db.students.rows| ==>
      && r.db.students.rows[i].(password := db.students.rows[i].password) == db.students.rows[i]
      && (db.students.rows[i].id != id ==> r.db.students.rows[i] == db.students.rows[i])
      && (db.students.rows[i].id == id ==> Verify(Normalize(newPassword.value), r.db.students.rows[i].password))
  {
    if !LongEnough(newPassword) then Reply(db, session, Fail(PasswordTooShort))
    else StorePassword(db, session, id, Hash(Normalize(newPassword.value)))
  }

  /** After the corrected change the student logs in with the new password as typed. */
  lemma ChangeThenLogin(db: Db, session: Session, s: Student, newPassword: Option<string>, later: Session)
    requires Valid(db) && s in db.students.rows && LongEnough(newPassword)
    ensures var db' := ChangePassword(db, session, s.id, newPassword).db;
      LoginStudent(db', later, Some(s.code), newPassword).response.status == 200
  {
    var p := newPassword.value;
    StoredPasswordOf(db, session, s.id, Hash(Normalize(p)), s);
    var db' := ChangePassword(db, session, s.id, newPassword).db;
    LoginStudentSucceedsIff(db', later, Some(s.code), newPassword);
  }

  /** After the change as written some login input lets the student in
      exactly when the new password is already in normal form. */
  lemma ChangeAsWrittenLoginIff(db: Db, session: Session, s: Student, p: string, later: Session)
    requires Valid(db) && s in db.students.rows && |p| >= 4
    ensures var db' := ChangePasswordAsWritten(db, session, s.id, Some(p)).db;
      (exists raw :: LoginStudent(db', later, Some(s.code), Some(raw)).response.status == 200)
        <==> Normalize(p) == p
  {
    StoredPasswordOf(db, session, s.id, Hash(p), s);
    var db' := ChangePasswordAsWritten(db, session, s.id, Some(p)).db;
    if Normalize(p) == p {
      LoginStudentSucceedsIff(db', later, Some(s.code), Some(p));
    }
    forall raw | LoginStudent(db', later, Some(s.code), Some(raw)).response.status == 200
      ensures Normalize(p) == p
    {
      LoginStudentSucceedsIff(db', later, Some(s.code), Some(raw));
      NormalizeIdempotent(raw);
    }
  }

  /** The counterexample: a password containing a letter, such as "abcd", is
      accepted by the change as written and then matches no login input. */
  lemma ChangeAsWrittenLocksOutLetters(db: Db, session: Session, s: Student, later: Session, raw: string)
    requires Valid(db) && s in db.students.rows
    ensures var db' := ChangePasswordAsWritten(db, session, s.id, Some("abcd")).db;
      LoginStudent(db', later, Some(s.code), Some(raw)).response.status != 200
  {
    var p := "abcd";
    assert p[0] in p && !IsSecretChar(p[0]);
    assert Normalize(p) != p;
    ChangeAsWrittenLoginIff(db, session, s, p, later);
  }

  // ---------------------------------------------------------------------------
  // Departments (routes/admin.js:169-195)
  // ---------------------------------------------------------------------------

  /** POST /departments: both columns are NOT NULL; the new row takes the next id. */
  function AddDepartment(db: Db, session: Session, name: Option<string>, code: Option<string>): (r: Reply)
    ensures r.session == session
    ensures r.response.status != 200 <==> name.None? || code.None?
    ensures r.response.status != 200 ==> r.response == Fail(NotNullViolation) && r.db == db
    ensures r.response.status == 200 ==>
      && r.response == Ok(Created(db.departments.lastId + 1))
      && r.db.students == db.students && r.db.admins == db.admins && r.db.announcements == db.announcements
      && r.db.departments.rows == db.departments.rows + [Department(db.departments.lastId + 1, name.value, code.value)]
  {
    if name.None? || code.None? then Reply(db, session, Fail(NotNullViolation))
    else
      var row := Department(db.departments.lastId + 1, name.value, code.value);
      Reply(db.(departments := Insert(db.departments, row)), session, Ok(Created(row.id)))
  }

  /** An added department is listed, under the id the response reports. */
  lemma AddDepartmentThenList(db: Db, session: Session, name: string, code: string)
    ensures var r := AddDepartment(db, session, Some(name), Some(code));
      Department(r.response.body.id, name, code) in ListDepartments(r.db, session).response.body.departments
  {
    var r := AddDepartment(db, session, Some(name), Some(code));
    assert r.db.departments.rows[|db.departments.rows|] == Department(r.response.body.id, name, code);
  }

  function DepartmentHasId(id: int): Department -> bool {
    (d: Department) => d.id == id
  }

  /** DELETE /departments/:id: the department goes; students that referenced it
      keep their (now dangling) reference. */
  function RemoveDepartment(db: Db, session: Session, id: int): (r: Reply)
    ensures r.session == session && r.response == Ok(Done)
    ensures r.db.students == db.students && r.db.admins == db.admins && r.db.announcements == db.announcements
    ensures forall d :: d in r.db.departments.rows <==> d in db.departments.rows && d.id != id
    ensures r.db.departments.lastId == db.departments.lastId
  {
    Reply(db.(departments := DeleteWhere(db.departments, DepartmentHasId(id))), session, Ok(Done))
  }

  // ---------------------------------------------------------------------------
  // Announcements (routes/admin.js:197-239)
  // ---------------------------------------------------------------------------

  /** The department an announcement is posted for: absent, '' and 'null' mean
      every department (NULL); anything else is bound to the INTEGER column. */
  function AnnouncementDepartment(v: Option<string>): (r: Option<SqlValue>)
    ensures r.None? <==> v.None? || v.value == "" || v.value == "null"
    ensures r.Some? ==> r.value == IntegerAffinity(v.value)
  {
    if !Truthy(v) || v.value == "null" then None else Some(IntegerAffinity(v.value))
  }

  /** A department id sent as its decimal text targets that department. */
  lemma AnnouncementDepartmentOfId(n: nat)
    ensures AnnouncementDepartment(Some(NatToString(n))) == Some(SqlInt(n))
  {
    assert !AllDigits("null") by {
      assert !IsDigit("null"[0]);
    }
  }

  /** POST /announcements: title and content are NOT NULL; the new row takes
      the next id and the current time. */
  function Announce(db: Db, session: Session, title: Option<string>, content: Option<string>,
                    departmentId: Option<string>, image: Option<string>, now: nat): (r: Reply)
    ensures r.session == session
    ensures r.response.status != 200 <==> title.None? || content.None?
    ensures r.response.status != 200 ==> r.response == Fail(NotNullViolation) && r.db == db
    ensures r.response.status == 200 ==>
      && r.response == Ok(Done)
      && r.db.students == db.students && r.db.admins == db.admins && r.db.departments == db.departments
      && r.db.announcements.rows == db.announcements.rows +
           [Announcement(db.announcements.lastId + 1, title.value, content.value, image, AnnouncementDepartment(departmentId), now)]
  {
    if title.None? || content.None? then Reply(db, session, Fail(NotNullViolation))
    else
      var row := Announcement(db.announcements.lastId + 1, title.value, content.value, image,
                              AnnouncementDepartment(departmentId), now);
      Reply(db.(announcements := Insert(db.announcements, row)), session, Ok(Done))
  }

  /** The listing filter: with a truthy department_id only the announcements
      whose department equals it (under INTEGER affinity) pass; otherwise all do. */
  function ListedUnder(filter: Option<string>): Announcement -> bool {
    (a: Announcement) => !Truthy(filter) || a.departmentId == Some(IntegerAffinity(filter.value))
  }

  /** GET /announcements: the announcements the filter admits, newest first,
      with their department names. */
  function ListAnnouncements(db: Db, session: Session, filter: Option<string>): (r: Reply)
    ensures r.db == db && r.session == session
    ensures r.response.status == 200 && r.response.body.AnnouncementList?
    ensures var shown := AnnouncementsOf(r.response.body.announcements);
      && NewestFirst(shown)
      && (forall a :: a in shown <==> a in db.announcements.rows && ListedUnder(filter)(a))
      && multiset(shown) <= multiset(db.announcements.rows)
    ensures var rows := r.response.body.announcements;
      forall i :: 0 <= i < |rows| ==>
        rows[i].departmentName == DepartmentNameOf(db.departments.rows, rows[i].announcement.departmentId)
  {
    var selected := Filter(db.announcements.rows, ListedUnder(filter));
    var sorted := SortNewestFirst(selected);
    SortKeepsMembers(selected);
    AnnouncementsOfJoin(sorted, db.departments.rows);
    Reply(db, session, Ok(AnnouncementList(JoinAnnouncements(sorted, db.departments.rows))))
  }

  /** Without a filter the listing is every announcement, each exactly once. */
  lemma ListAnnouncementsUnfiltered(db: Db, session: Session, filter: Option<string>)
    requires !Truthy(filter)
    ensures multiset(AnnouncementsOf(ListAnnouncements(db, session, filter).response.body.announcements))
      == multiset(db.announcements.rows)
  {
    var selected := Filter(db.announcements.rows, ListedUnder(filter));
    FilterKeepsAll(db.announcements.rows, ListedUnder(filter));
    AnnouncementsOfJoin(SortNewestFirst(selected), db.departments.rows);
  }

  /** Filtering by a department id sent as text lists exactly the
      announcements posted for that department. */
  lemma ListAnnouncementsByDepartment(db: Db, session: Session, n: nat)
    ensures var shown := AnnouncementsOf(ListAnnouncements(db, session, Some(NatToString(n))).response.body.announcements);
      forall a :: a in shown <==> a in db.announcements.rows && a.departmentId == Some(SqlInt(n))
  {
    IntegerAffinityOfRendering(n);
  }

  function AnnouncementHasId(id: int): Announcement -> bool {
    (a: Announcement) => a.id == id
  }

  /** DELETE /announcements/:id. */
  function RemoveAnnouncement(db: Db, session: Session, id: int): (r: Reply)
    ensures r.session == session && r.response == Ok(Done)
    ensures r.db.students == db.students && r.db.admins == db.admins && r.db.departments == db.departments
    ensures forall a :: a in r.db.announcements.rows <==> a in db.announcements.rows && a.id != id
    ensures r.db.announcements.lastId == db.announcements.lastId
  {
    Reply(db.(announcements := DeleteWhere(db.announcements, AnnouncementHasId(id))), session, Ok(Done))
  }

  // ---------------------------------------------------------------------------
  // Dashboard statistics (routes/admin.js:241-263)
  // ---------------------------------------------------------------------------

  /** GET /stats: the student and department totals and the per-department breakdown. */
  function Stats(db: Db, session: Session): (r: Reply)
    ensures r.db == db && r.session == session
    ensures r.response.status == 200 && r.response.body.Statistics?
    ensures r.response.body.studentTotal == |db.students.rows|
    ensures r.response.body.departmentTotal == Some(|db.departments.rows|)
    ensures |r.response.body.breakdown| == |db.departments.rows|
    ensures forall i :: 0 <= i < |db.departments.rows| ==>
      r.response.body.breakdown[i].departmentName == db.departments.rows[i].name
    ensures r.response.body.breakdown == Breakdown(db.departments.rows, db.students.rows)
  {
    Reply(db, session, Ok(Statistics(|db.students.rows|, Some(|db.departments.rows|),
                                     Breakdown(db.departments.rows, db.students.rows))))
  }

  /** In a valid store the breakdown counts every student that references an
      existing department once, and those that do not are the difference. */
  lemma StatsAccountsForEveryStudent(db: Db, session: Session)
    requires Valid(db)
    ensures var body := Stats(db, session).response.body;
      SumCounts(body.breakdown) + Count(db.students.rows, InNoneOf(db.departments.rows)) == body.studentTotal
  {
    IncreasingIsDistinct(db.departments.rows, DepartmentKey);
    BreakdownAccountsForEveryStudent(db.departments.rows, db.students.rows);
  }

  /** Removing a department leaves the student total alone; its entry leaves
      the breakdown, and every other department keeps its entry and count. */
  lemma RemoveDepartmentKeepsStudentTotal(db: Db, session: Session, id: int)
    ensures var before := Stats(db, session).response.body;
      var after := Stats(RemoveDepartment(db, session, id).db, session).response.body;
      && after.studentTotal == before.studentTotal
      && forall e :: e in after.breakdown <==>
           exists d :: d in db.departments.rows && d.id != id
             && e == DepartmentCount(d.name, Count(db.students.rows, InDepartment(d)))
  {
    var db' := RemoveDepartment(db, session, id).db;
    var after := Stats(db', session).response.body.breakdown;
    forall e | e in after
      ensures exists d :: (d in db.departments.rows && d.id != id
                           && e == DepartmentCount(d.name, Count(db.students.rows, InDepartment(d))))
    {
      var i :| 0 <= i < |after| && after[i] == e;
      assert db'.departments.rows[i] in db'.departments.rows;
    }
    forall d | d in db.departments.rows && d.id != id
      ensures DepartmentCount(d.name, Count(db.students.rows, InDepartment(d))) in after
    {
      var i :| 0 <= i < |db'.departments.rows| && db'.departments.rows[i] == d;
      assert after[i] == DepartmentCount(d.name, Count(db.students.rows, InDepartment(d)));
    }
  }

  // ---------------------------------------------------------------------------
  // Dispatch in declaration order (routes/admin.js:30, 59-66)
  // ---------------------------------------------------------------------------

  /** The requests the admin router serves, one constructor per route. */
  datatype AdminRequest =
    | PostStudentImage(id: int, image: Option<string>)
    | GetStudents
    | GetStudent(id: int)
    | DeleteStudent(id: int)
    | PostPasswordReset(id: int)
    | PutStudent(id: int, update: StudentUpdate)
    | PostPasswordChange(id: int, newPassword: Option<string>)
    | GetDepartments
    | PostDepartment(name: Option<string>, code: Option<string>)
    | DeleteDepartment(id: int)
    | PostAnnouncement(title: Option<string>, content: Option<string>, departmentId: Option<string>,
                       image: Option<string>, now: nat)
    | GetAnnouncements(departmentId: Option<string>)
    | DeleteAnnouncement(id: int)
    | GetStats

  const RouteCount: nat := 14

  /** The position of the request's route among the route declarations. */
  function RouteIndex(req: AdminRequest): (i: nat)
    ensures i < RouteCount
    ensures i == 0 <==> req.PostStudentImage?
  {
    match req
    case PostStudentImage(_, _) => 0
    case GetStudents => 1
    case GetStudent(_) => 2
    case DeleteStudent(_) => 3
    case PostPasswordReset(_) => 4
    case PutStudent(_, _) => 5
    case PostPasswordChange(_, _) => 6
    case GetDepartments => 7
    case PostDepartment(_, _) => 8
    case DeleteDepartment(_) => 9
    case PostAnnouncement(_, _, _, _, _) => 10
    case GetAnnouncements(_) => 11
    case DeleteAnnouncement(_) => 12
    case GetStats => 13
  }

  /** Which reset and change-password handlers the router runs: those of
      routes/admin.js as written, or the corrected ones. Every other route has
      a single handler. */
  datatype Handlers = AsWritten | Corrected

  /** The route handlers. */
  function Handle(h: Handlers, db: Db, session: Session, req: AdminRequest): (r: Reply)
    ensures r.session == session
    ensures req.PostPasswordReset? ==>
      r == if h == AsWritten then ResetPasswordAsWritten(db, session, req.id) else ResetPassword(db, session, req.id)
    ensures req.PostPasswordChange? ==>
      r == if h == AsWritten then ChangePasswordAsWritten(db, session, req.id, req.newPassword)
           else ChangePassword(db, session, req.id, req.newPassword)
  {
    match req
    case PostStudentImage(id, image) => UploadImage(db, session, id, image)
    case GetStudents => ListStudents(db, session)
    case GetStudent(id) => ShowStudent(db, session, id)
    case DeleteStudent(id) => RemoveStudent(db, session, id)
    case PostPasswordReset(id) =>
      if h == AsWritten then ResetPasswordAsWritten(db, session, id) else ResetPassword(db, session, id)
    case PutStudent(id, u) => UpdateStudent(db, session, id, u)
    case PostPasswordChange(id, p) =>
      if h == AsWritten then ChangePasswordAsWritten(db, session, id, p) else ChangePassword(db, session, id, p)
    case GetDepartments => ListDepartments(db, session)
    case PostDepartment(name, code) => AddDepartment(db, session, name, code)
    case DeleteDepartment(id) => RemoveDepartment(db, session, id)
    case PostAnnouncement(title, content, dept, image, now) => Announce(db, session, title, content, dept, image, now)
    case GetAnnouncements(filter) => ListAnnouncements(db, session, filter)
    case DeleteAnnouncement(id) => RemoveAnnouncement(db, session, id)
    case GetStats => Stats(db, session)
  }

  lemma UploadImageKeepsValid(db: Db, session: Session, id: int, image: Option<string>)
    requires Valid(db)
    ensures Valid(UploadImage(db, session, id, image).db)
  {
    if image.Some? {
      UpdateStudentsKeepsValid(db, id, SetImage(image.value));
    }
  }

  lemma RemoveStudentKeepsValid(db: Db, session: Session, id: int)
    requires Valid(db)
    ensures Valid(RemoveStudent(db, session, id).db)
  {
    DeleteKeepsValid(db.students, HasId(id), StudentKey);
    FilterKeepsDistinct(db.students.rows, (x: Student) => !HasId(id)(x), StudentCodeOf);
  }

  lemma ResetPasswordKeepsValid(db: Db, session: Session, id: int)
    requires Valid(db)
    ensures Valid(ResetPassword(db, session, id).db)
  {
    var found := FindFirst(db.students.rows, HasId(id));
    if found.Some? {
      UpdateStudentsKeepsValid(db, id, SetPassword(Hash(RegistrationSecret(found.value.dob))));
    }
  }

  lemma ResetPasswordAsWrittenKeepsValid(db: Db, session: Session, id: int)
    requires Valid(db)
    ensures Valid(ResetPasswordAsWritten(db, session, id).db)
  {
    var found := FindFirst(db.students.rows, HasId(id));
    if found.Some? {
      UpdateStudentsKeepsValid(db, id, SetPassword(Hash(ResetSecretAsWritten(found.value.dob))));
    }
  }

  lemma UpdateStudentKeepsValid(db: Db, session: Session, id: int, u: StudentUpdate)
    requires Valid(db)
    ensures Valid(UpdateStudent(db, session, id, u).db)
  {
    if FillsRequiredColumns(u) {
      UpdateStudentsKeepsValid(db, id, Apply(u));
    }
  }

  lemma ChangePasswordKeepsValid(db: Db, session: Session, id: int, p: Option<string>)
    requires Valid(db)
    ensures Valid(ChangePassword(db, session, id, p).db)
  {
    if LongEnough(p) {
      UpdateStudentsKeepsValid(db, id, SetPassword(Hash(Normalize(p.value))));
    }
  }

  lemma ChangePasswordAsWrittenKeepsValid(db: Db, session: Session, id: int, p: Option<string>)
    requires Valid(db)
    ensures Valid(ChangePasswordAsWritten(db, session, id, p).db)
  {
    if LongEnough(p) {
      UpdateStudentsKeepsValid(db, id, SetPassword(Hash(p.value)));
    }
  }

  lemma AddDepartmentKeepsValid(db: Db, session: Session, name: Option<string>, code: Option<string>)
    requires Valid(db)
    ensures Valid(AddDepartment(db, session, name, code).db)
  {
    if name.Some? && code.Some? {
      InsertKeepsValid(db.departments, Department(db.departments.lastId + 1, name.value, code.value), DepartmentKey);
    }
  }

  lemma RemoveDepartmentKeepsValid(db: Db, session: Session, id: int)
    requires Valid(db)
    ensures Valid(RemoveDepartment(db, session, id).db)
  {
    DeleteKeepsValid(db.departments, DepartmentHasId(id), DepartmentKey);
  }

  lemma AnnounceKeepsValid(db: Db, session: Session, title: Option<string>, content: Option<string>,
                           dept: Option<string>, image: Option<string>, now: nat)
    requires Valid(db)
    ensures Valid(Announce(db, session, title, content, dept, image, now).db)
  {
    if title.Some? && content.Some? {
      InsertKeepsValid(db.announcements,
        Announcement(db.announcements.lastId + 1, title.value, content.value, image, AnnouncementDepartment(dept), now),
        AnnouncementKey);
    }
  }

  lemma RemoveAnnouncementKeepsValid(db: Db, session: Session, id: int)
    requires Valid(db)
    ensures Valid(RemoveAnnouncement(db, session, id).db)
  {
    DeleteKeepsValid(db.announcements, AnnouncementHasId(id), AnnouncementKey);
  }

  /** Every admin handler, as written or corrected, keeps the table constraints. */
  lemma HandleKeepsValid(h: Handlers, db: Db, session: Session, req: AdminRequest)
    requires Valid(db)
    ensures Valid(Handle(h, db, session, req).db)
  {
    match req
    case PostStudentImage(id, image) => UploadImageKeepsValid(db, session, id, image);
    case DeleteStudent(id) => RemoveStudentKeepsValid(db, session, id);
    case PostPasswordReset(id) =>
      if h == AsWritten {
        ResetPasswordAsWrittenKeepsValid(db, session, id);
      } else {
        ResetPasswordKeepsValid(db, session, id);
      }
    case PutStudent(id, u) => UpdateStudentKeepsValid(db, session, id, u);
    case PostPasswordChange(id, p) =>
      if h == AsWritten {
        ChangePasswordAsWrittenKeepsValid(db, session, id, p);
      } else {
        ChangePasswordKeepsValid(db, session, id, p);
      }
    case PostDepartment(name, code) => AddDepartmentKeepsValid(db, session, name, code);
    case DeleteDepartment(id) => RemoveDepartmentKeepsValid(db, session, id);
    case PostAnnouncement(title, content, dept, image, now) => AnnounceKeepsValid(db, session, title, content, dept, image, now);
    case DeleteAnnouncement(id) => RemoveAnnouncementKeepsValid(db, session, id);
    case _ =>
  }

  /** A layer of the router: the isAdmin gate or the route with that index. */
  datatype Layer = Gate | Mount(route: nat)

  /** The routes from..to-1 in order. */
  function Mounts(from: nat, to: nat): (r: seq<Layer>)
    requires from <= to
    ensures |r| == to - from && forall i :: 0 <= i < |r| ==> r[i] == Mount(from + i)
  {
    seq(to - from, i requires 0 <= i < to - from => Mount(from + i))
  }

  /** Express runs the layers in order: the gate stops a non-admin request, and
      the first route matching the request handles it. */
  function Dispatch(layers: seq<Layer>, h: Handlers, db: Db, session: Session, req: AdminRequest): (r: Reply)
    ensures r == Handle(h, db, session, req) || (r.db == db && r.session == session && r.response.status >= 400)
    decreases |layers|
  {
    if |layers| == 0 then Reply(db, session, Fail(NoRoute))
    else match layers[0]
      case Gate =>
        if IsAdmin(session) then Dispatch(layers[1..], h, db, session, req)
        else Reply(db, session, Fail(Unauthorized))
      case Mount(route) =>
        if route == RouteIndex(req) then Handle(h, db, session, req)
        else Dispatch(layers[1..], h, db, session, req)
  }

  /** Routes that do not match are passed over. */
  lemma {:induction false} DispatchSkips(layers: seq<Layer>, k: nat, h: Handlers, db: Db, session: Session, req: AdminRequest)
    requires k <= |layers|
    requires forall j :: 0 <= j < k ==> layers[j].Mount? && layers[j].route != RouteIndex(req)
    ensures Dispatch(layers, h, db, session, req) == Dispatch(layers[k..], h, db, session, req)
  {
    if k > 0 {
      DispatchSkips(layers[1..], k - 1, h, db, session, req);
      assert layers[1..][k - 1..] == layers[k..];
    }
  }

  /** A run of routes that includes the request's route reaches its handler. */
  lemma MountsReachHandler(from: nat, to: nat, h: Handlers, db: Db, session: Session, req: AdminRequest)
    requires from <= RouteIndex(req) < to
    ensures Dispatch(Mounts(from, to), h, db, session, req) == Handle(h, db, session, req)
  {
    var layers := Mounts(from, to);
    var k := RouteIndex(req) - from;
    DispatchSkips(layers, k, h, db, session, req);
  }

  /** The layers as declared: the upload route, then router.use(isAdmin), then
      the other thirteen routes. */
  const DeclaredLayers: seq<Layer> := [Mount(0), Gate] + Mounts(1, RouteCount)

  /** The layers with the gate installed before every route. */
  const GatedLayers: seq<Layer> := [Gate] + Mounts(0, RouteCount)

  /** The router of routes/admin.js as written: the layers as declared and
      the as-written reset and change-password handlers. */
  function DispatchAsWritten(db: Db, session: Session, req: AdminRequest): (r: Reply)
    ensures r == Handle(AsWritten, db, session, req) || (r.db == db && r.session == session && r.response.status >= 400)
  {
    Dispatch(DeclaredLayers, AsWritten, db, session, req)
  }

  /** The corrected router: the gate first and the corrected handlers. */
  function DispatchGated(db: Db, session: Session, req: AdminRequest): (r: Reply)
    ensures r == Handle(Corrected, db, session, req) || (r.db == db && r.session == session && r.response.status >= 400)
  {
    Dispatch(GatedLayers, Corrected, db, session, req)
  }

  /** As declared, the gate covers every route but the upload route, which
      runs for any session. */
  lemma DeclaredGateCoverage(db: Db, session: Session, req: AdminRequest)
    ensures RouteIndex(req) == 0 ==> DispatchAsWritten(db, session, req) == Handle(AsWritten, db, session, req)
    ensures RouteIndex(req) != 0 && IsAdmin(session) ==> DispatchAsWritten(db, session, req) == Handle(AsWritten, db, session, req)
    ensures RouteIndex(req) != 0 && !IsAdmin(session) ==>
      DispatchAsWritten(db, session, req) == Reply(db, session, Fail(Unauthorized))
  {
    if RouteIndex(req) != 0 {
      DispatchSkips(DeclaredLayers, 1, AsWritten, db, session, req);
      assert DeclaredLayers[1..][1..] == Mounts(1, RouteCount);
      if IsAdmin(session) {
        MountsReachHandler(1, RouteCount, AsWritten, db, session, req);
      }
    }
  }

  /** The counterexample: an anonymous request replaces a student's image. */
  lemma UploadBypassesGate(db: Db, s: Student, path: string)
    requires s in db.students.rows
    ensures !IsAdmin(Anonymous)
    ensures var r := DispatchAsWritten(db, Anonymous, PostStudentImage(s.id, Some(path)));
      r.response.status == 200 && s.(image := Some(path)) in r.db.students.rows
  {
    var req := PostStudentImage(s.id, Some(path));
    DeclaredGateCoverage(db, Anonymous, req);
    var k :| 0 <= k < |db.students.rows| && db.students.rows[k] == s;
    assert DispatchAsWritten(db, Anonymous, req).db.students.rows[k] == s.(image := Some(path));
  }

  /** With the gate first, a request that is not an admin's is refused with
      401 and changes nothing; an admin's request reaches its handler. */
  lemma GatedDispatch(db: Db, session: Session, req: AdminRequest)
    ensures !IsAdmin(session) ==> DispatchGated(db, session, req) == Reply(db, session, Fail(Unauthorized))
    ensures IsAdmin(session) ==> DispatchGated(db, session, req) == Handle(Corrected, db, session, req)
  {
    if IsAdmin(session) {
      assert GatedLayers[1..] == Mounts(0, RouteCount);
      MountsReachHandler(0, RouteCount, Corrected, db, session, req);
    }
  }

  /** Through the router as written, an admin's reset of a student's password
      leaves that student unable to log in with any input. */
  lemma RouterAsWrittenResetLocksOut(db: Db, admin: Session, s: Student, later: Session, raw: string)
    requires Valid(db) && IsAdmin(admin) && s in db.students.rows && IsIsoDate(s.dob)
    ensures var db' := DispatchAsWritten(db, admin, PostPasswordReset(s.id)).db;
      LoginStudent(db', later, Some(s.code), Some(raw)).response.status != 200
  {
    DeclaredGateCoverage(db, admin, PostPasswordReset(s.id));
    ResetAsWrittenLocksOut(db, admin, s, later, raw);
  }

  /** Through the router as written, an admin's change of a student's password
      to "abcd" leaves that student unable to log in with any input. */
  lemma RouterAsWrittenChangeLocksOut(db: Db, admin: Session, s: Student, later: Session, raw: string)
    requires Valid(db) && IsAdmin(admin) && s in db.students.rows
    ensures var db' := DispatchAsWritten(db, admin, PostPasswordChange(s.id, Some("abcd"))).db;
      LoginStudent(db', later, Some(s.code), Some(raw)).response.status != 200
  {
    DeclaredGateCoverage(db, admin, PostPasswordChange(s.id, Some("abcd")));
    ChangeAsWrittenLocksOutLetters(db, admin, s, later, raw);
  }

  /** Through the corrected router, an admin's reset restores the
      registration secret. */
  lemma RouterGatedResetThenLogin(db: Db, admin: Session, s: Student, later: Session)
    requires Valid(db) && IsAdmin(admin) && s in db.students.rows && IsIsoDate(s.dob)
    ensures var db' := DispatchGated(db, admin, PostPasswordReset(s.id)).db;
      LoginStudent(db', later, Some(s.code), Some(RegistrationSecret(s.dob))).response.status == 200
  {
    GatedDispatch(db, admin, PostPasswordReset(s.id));
    ResetThenLogin(db, admin, s, later);
  }

  /** Through the corrected router, an admin's password change takes effect
      for the password as typed. */
  lemma RouterGatedChangeThenLogin(db: Db, admin: Session, s: Student, p: string, later: Session)
    requires Valid(db) && IsAdmin(admin) && s in db.students.rows && |p| >= 4
    ensures var db' := DispatchGated(db, admin, PostPasswordChange(s.id, Some(p))).db;
      LoginStudent(db', later, Some(s.code), Some(p)).response.status == 200
  {
    GatedDispatch(db, admin, PostPasswordChange(s.id, Some(p)));
    ChangeThenLogin(db, admin, s, Some(p), later);
  }

  // ---------------------------------------------------------------------------
  // Sessions and the gate
  // ---------------------------------------------------------------------------

  /** In a valid store a successful admin login opens the gate. */
  lemma AdminLoginOpensGate(db: Db, session: Session, username: Option<string>, password: Option<string>)
    requires Valid(db)
    requires LoginAdmin(db, session, username, password).response.status == 200
    ensures IsAdmin(LoginAdmin(db, session, username, password).session)
  {
    var a :| a in db.admins.rows && username == Some(a.username)
      && Verify(password.value, a.password)
      && LoginAdmin(db, session, username, password).session == AdminLoginSession(session, a);
    var k :| 0 <= k < |db.admins.rows| && db.admins.rows[k] == a;
  }

  /** A student login never opens the admin gate, and logging out closes it. */
  lemma StudentAndLogoutSessionsAreNotAdmin(db: Db, session: Session, code: Option<string>, password: Option<string>)
    requires LoginStudent(db, session, code, password).response.status == 200
    ensures !IsAdmin(LoginStudent(db, session, code, password).session)
    ensures !IsAdmin(Logout(db, session).session)
  {
  }
}
