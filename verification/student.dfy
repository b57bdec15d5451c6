/** The handlers of routes/student.js: the isAuthenticated gate, the logged-in
    student's own record, and the announcement feed of the student's department. */
module StudentApi {
  import opened Common
  import opened Rows
  import opened Password
  import opened Store
  import opened Query
  import opened Http
  import opened Auth
  import opened Admin

  /** isAuthenticated: the session's role is student and its user id is truthy. */
  predicate IsAuthenticated(s: Session) {
    s.role == Some(StudentRole) && HasUser(s)
  }

  /** The two gates admit disjoint sessions. */
  lemma GatesAreDisjoint(s: Session)
    ensures !(IsAuthenticated(s) && IsAdmin(s))
  {
  }

  /** In a valid store a successful student login opens the student gate. */
  lemma StudentLoginOpensGate(db: Db, session: Session, code: Option<string>, password: Option<string>)
    requires Valid(db)
    requires LoginStudent(db, session, code, password).response.status == 200
    ensures IsAuthenticated(LoginStudent(db, session, code, password).session)
  {
    var s :| s in db.students.rows && code == Some(s.code)
      && Verify(Normalize(password.value), s.password)
      && LoginStudent(db, session, code, password).session == StudentLoginSession(session, s);
    var k :| 0 <= k < |db.students.rows| && db.students.rows[k] == s;
  }

  /** Logging out closes the student gate. */
  lemma LogoutClosesGate(db: Db, session: Session)
    ensures !IsAuthenticated(Logout(db, session).session)
  {
  }

  function UserIdIs(session: Session): Student -> bool {
    (s: Student) => session.userId == Some(s.id)
  }

  /** The columns of a student and its joined department, without the password. */
  function InfoOf(s: Student, departments: seq<Department>): (info: StudentInfo)
    ensures info.id == s.id && info.code == s.code && info.dob == s.dob
    ensures info.prefix == s.prefix && info.firstName == s.firstName && info.lastName == s.lastName
    ensures info.phone == s.phone && info.departmentId == s.departmentId && info.level == s.level
    ensures info.bloodGroup == s.bloodGroup && info.image == s.image
    ensures info.fatherName == s.fatherName && info.motherName == s.motherName && info.parentPhone == s.parentPhone
    ensures info.departmentName == DepartmentNameOf(departments, s.departmentId)
    ensures info.departmentCode ==
      var d := JoinedDepartment(departments, s.departmentId); if d.Some? then Some(d.value.code) else None
  {
    var d := JoinedDepartment(departments, s.departmentId);
    StudentInfo(
      s.id, s.prefix, s.firstName, s.lastName, s.dob, s.phone, s.departmentId, s.code,
      s.level, s.bloodGroup, s.image, s.fatherName, s.motherName, s.parentPhone,
      if d.Some? then Some(d.value.name) else None,
      if d.Some? then Some(d.value.code) else None)
  }

  /** GET /info: the record whose id is the session's user id, or 404. */
  function ShowInfo(db: Db, session: Session): (r: Reply)
    ensures r.db == db && r.session == session
    ensures !IsAuthenticated(session) ==> r.response == Fail(Unauthorized)
    ensures IsAuthenticated(session) ==>
      (r.response == Fail(RecordNotFound) <==> forall s :: s in db.students.rows ==> session.userId != Some(s.id))
    ensures r.response.status == 200 ==>
      && IsAuthenticated(session) && r.response.body.Info?
      && exists s :: s in db.students.rows && session.userId == Some(s.id)
           && r.response.body.info == InfoOf(s, db.departments.rows)
  {
    if !IsAuthenticated(session) then Reply(db, session, Fail(Unauthorized))
    else match FindFirst(db.students.rows, UserIdIs(session))
      case None => Reply(db, session, Fail(RecordNotFound))
      case Some(s) => Reply(db, session, Ok(Info(InfoOf(s, db.departments.rows))))
  }

  /** The two tables agree on every column but the password. */
  ghost predicate SameButPasswords(rows: seq<Student>, rows': seq<Student>) {
    |rows| == |rows'| && forall i :: 0 <= i < |rows| ==> rows'[i] == rows[i].(password := rows'[i].password)
  }

  lemma {:induction false} FindIgnoresPasswords(rows: seq<Student>, rows': seq<Student>, session: Session)
    requires SameButPasswords(rows, rows')
    ensures var f, f' := FindFirst(rows, UserIdIs(session)), FindFirst(rows', UserIdIs(session));
      f.Some? == f'.Some? && (f.Some? ==> f'.value == f.value.(password := f'.value.password))
  {
    if |rows| > 0 {
      assert SameButPasswords(rows[1..], rows'[1..]) by {
        forall i | 0 <= i < |rows[1..]|
          ensures rows'[1..][i] == rows[1..][i].(password := rows'[1..][i].password)
        {
          assert rows'[1..][i] == rows'[i + 1] && rows[1..][i] == rows[i + 1];
        }
      }
      FindIgnoresPasswords(rows[1..], rows'[1..], session);
    }
  }

  /** The /info response does not depend on any password: the stored digest
      never reaches the response. */
  lemma InfoIgnoresPasswords(db: Db, db': Db, session: Session)
    requires db'.departments == db.departments
    requires SameButPasswords(db.students.rows, db'.students.rows)
    ensures ShowInfo(db', session).response == ShowInfo(db, session).response
  {
    FindIgnoresPasswords(db.students.rows, db'.students.rows, session);
  }

  /** In a valid store the /info after a student login is that student's own record. */
  lemma LoginThenInfo(db: Db, session: Session, code: Option<string>, password: Option<string>)
    requires Valid(db)
    requires LoginStudent(db, session, code, password).response.status == 200
    ensures var r := ShowInfo(db, LoginStudent(db, session, code, password).session);
      r.response.status == 200 && code == Some(r.response.body.info.code)
  {
    StudentLoginOpensGate(db, session, code, password);
    var session' := LoginStudent(db, session, code, password).session;
    var s :| s in db.students.rows && code == Some(s.code)
      && Verify(Normalize(password.value), s.password)
      && session' == StudentLoginSession(session, s);
    var found := FindFirst(db.students.rows, UserIdIs(session'));
    IncreasingIsDistinct(db.students.rows, StudentKey);
    DistinctKeyIdentifies(db.students.rows, StudentKey, found.value, s);
  }

  // ---------------------------------------------------------------------------
  // The announcement feed (routes/student.js:32-55)
  // ---------------------------------------------------------------------------

  /** WHERE a.department_id = dept OR a.department_id IS NULL: a NULL department
      on either side equals nothing. */
  function VisibleTo(dept: Option<SqlValue>): Announcement -> bool {
    (a: Announcement) => a.departmentId.None? || (dept.Some? && a.departmentId == dept)
  }

  /** GET /announcements: the student's record is read first (404 when it is
      missing, and no announcement is read); then the announcements for the
      student's department or for everyone, newest first. */
  function Feed(db: Db, session: Session): (r: Reply)
    ensures r.db == db && r.session == session
    ensures !IsAuthenticated(session) ==> r.response == Fail(Unauthorized)
    ensures IsAuthenticated(session) ==>
      (r.response == Fail(RecordNotFound) <==> forall s :: s in db.students.rows ==> session.userId != Some(s.id))
    ensures r.response.status == 200 ==>
      && IsAuthenticated(session) && r.response.body.AnnouncementList?
      && exists s :: s in db.students.rows && session.userId == Some(s.id)
           && var shown := AnnouncementsOf(r.response.body.announcements);
           && NewestFirst(shown)
           && (forall a :: a in shown <==> a in db.announcements.rows && VisibleTo(s.departmentId)(a))
           && multiset(shown) == multiset(Filter(db.announcements.rows, VisibleTo(s.departmentId)))
    ensures r.response.status == 200 ==> var rows := r.response.body.announcements;
      forall i :: 0 <= i < |rows| ==>
        rows[i].departmentName == DepartmentNameOf(db.departments.rows, rows[i].announcement.departmentId)
  {
    if !IsAuthenticated(session) then Reply(db, session, Fail(Unauthorized))
    else match FindFirst(db.students.rows, UserIdIs(session))
      case None => Reply(db, session, Fail(RecordNotFound))
      case Some(s) =>
        var selected := Filter(db.announcements.rows, VisibleTo(s.departmentId));
        var sorted := SortNewestFirst(selected);
        SortKeepsMembers(selected);
        AnnouncementsOfJoin(sorted, db.departments.rows);
        Reply(db, session, Ok(AnnouncementList(JoinAnnouncements(sorted, db.departments.rows))))
  }

  /** In a valid store the feed of a student is determined by that student's
      own department. */
  lemma FeedOfStudent(db: Db, session: Session, s: Student)
    requires Valid(db) && IsAuthenticated(session)
    requires s in db.students.rows && session.userId == Some(s.id)
    ensures var r := Feed(db, session);
      && r.response.status == 200
      && var shown := AnnouncementsOf(r.response.body.announcements);
         forall a :: a in shown <==> a in db.announcements.rows && VisibleTo(s.departmentId)(a)
  {
    var found := FindFirst(db.students.rows, UserIdIs(session));
    IncreasingIsDistinct(db.students.rows, StudentKey);
    DistinctKeyIdentifies(db.students.rows, StudentKey, found.value, s);
  }

  /** A student without a department sees only the announcements for everyone. */
  lemma NullDepartmentSeesOnlyGlobal(db: Db, session: Session, s: Student)
    requires Valid(db) && IsAuthenticated(session)
    requires s in db.students.rows && session.userId == Some(s.id) && s.departmentId.None?
    ensures var shown := AnnouncementsOf(Feed(db, session).response.body.announcements);
      forall a :: a in shown <==> a in db.announcements.rows && a.departmentId.None?
  {
    FeedOfStudent(db, session, s);
  }

  /** An announcement for everyone is in every student's feed. */
  lemma GlobalAnnouncementReachesEveryone(db: Db, session: Session, a: Announcement)
    requires a in db.announcements.rows && a.departmentId.None?
    requires Feed(db, session).response.status == 200
    ensures a in AnnouncementsOf(Feed(db, session).response.body.announcements)
  {
  }

  /** An announcement posted with an empty department reaches every student;
      one posted with a department's id as text reaches that department's
      students. */
  lemma PostedAnnouncementReaches(db: Db, admin: Session, title: string, content: string,
                                   departmentId: Option<string>, image: Option<string>, now: nat,
                                   session: Session, s: Student)
    requires Valid(db) && IsAuthenticated(session)
    requires s in db.students.rows && session.userId == Some(s.id)
    requires departmentId == Some("") || exists n: nat :: departmentId == Some(NatToString(n)) && s.departmentId == Some(SqlInt(n))
    ensures var db' := Announce(db, admin, Some(title), Some(content), departmentId, image, now).db;
      Announcement(db.announcements.lastId + 1, title, content, image, AnnouncementDepartment(departmentId), now)
        in AnnouncementsOf(Feed(db', session).response.body.announcements)
  {
    var db' := Announce(db, admin, Some(title), Some(content), departmentId, image, now).db;
    var posted := Announcement(db.announcements.lastId + 1, title, content, image, AnnouncementDepartment(departmentId), now);
    AnnounceKeepsValid(db, admin, Some(title), Some(content), departmentId, image, now);
    assert s in db'.students.rows;
    if departmentId != Some("") {
      var n: nat :| departmentId == Some(NatToString(n)) && s.departmentId == Some(SqlInt(n));
      AnnouncementDepartmentOfId(n);
    }
    assert posted in db'.announcements.rows;
    FeedOfStudent(db', session, s);
  }
}
