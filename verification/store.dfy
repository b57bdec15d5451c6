/** The relational store of database.js: the four tables, the column
    constraints the handlers rely on, and the seed-if-empty initialisation.
    Each table is a sequence of rows in rowid order together with its
    AUTOINCREMENT counter (the largest id ever handed out). */
module Store {
  import opened Common
  import opened Rows
  import opened Password

  /** A value held by a column declared INTEGER: SQLite keeps text that does
      not look like an integer as text. */
  datatype SqlValue = SqlInt(n: int) | SqlText(t: string)

  /** SQLite's INTEGER affinity applied to a text value, on storage and when a
      text parameter is compared with an INTEGER column: a decimal literal
      becomes an integer, anything else stays text. */
  function IntegerAffinity(text: string): (v: SqlValue)
    ensures v.SqlInt? <==> |text| > 0 && AllDigits(text)
    ensures v.SqlInt? ==> v.n == DecimalValue(text)
    ensures v.SqlText? ==> v.t == text
  {
    if |text| > 0 && AllDigits(text) then SqlInt(DecimalValue(text)) else SqlText(text)
  }

  /** An integer id sent as its decimal text is stored as that integer. */
  lemma IntegerAffinityOfRendering(n: nat)
    ensures IntegerAffinity(NatToString(n)) == SqlInt(n)
  {
  }

  datatype Department = Department(id: nat, name: string, code: string)

  datatype AdminUser = AdminUser(
    id: nat,
    username: string,
    password: Digest,
    email: Option<string>,
    role: string)

  /** A students row. first_name, last_name and dob are NOT NULL; the columns
      added by the migration scripts (blood group, image, parents) are
      included. student_code is always present: registration requires it. */
  datatype Student = Student(
    id: nat,
    prefix: Option<string>,
    firstName: string,
    lastName: string,
    dob: string,
    phone: Option<string>,
    departmentId: Option<SqlValue>,
    code: string,
    password: Digest,
    level: Option<string>,
    bloodGroup: Option<string>,
    image: Option<string>,
    fatherName: Option<string>,
    motherName: Option<string>,
    parentPhone: Option<string>)

  /** An announcements row; a null department means the announcement is for
      every department. created_at is a clock reading, here a number. */
  datatype Announcement = Announcement(
    id: nat,
    title: string,
    content: string,
    image: Option<string>,
    departmentId: Option<SqlValue>,
    createdAt: nat)

  /** Rows in rowid order and the AUTOINCREMENT counter. */
  datatype Table<T> = Table(rows: seq<T>, lastId: nat)

  datatype Db = Db(
    departments: Table<Department>,
    admins: Table<AdminUser>,
    students: Table<Student>,
    announcements: Table<Announcement>)

  const EmptyDb := Db(Table([], 0), Table([], 0), Table([], 0), Table([], 0))

  function DepartmentKey(d: Department): int { d.id }
  function AdminKey(a: AdminUser): int { a.id }
  function StudentKey(s: Student): int { s.id }
  function AnnouncementKey(a: Announcement): int { a.id }
  function StudentCodeOf(s: Student): string { s.code }
  function UsernameOf(a: AdminUser): string { a.username }

  /** AUTOINCREMENT: ids increase along the table and never exceed the counter. */
  ghost predicate ValidTable<T>(t: Table<T>, key: T -> int) {
    && Increasing(t.rows, key)
    && forall i :: 0 <= i < |t.rows| ==> 1 <= key(t.rows[i]) <= t.lastId
  }

  /** The table constraints: AUTOINCREMENT primary keys, student_code UNIQUE
      among students and username UNIQUE among admin users. */
  ghost predicate Valid(db: Db) {
    && ValidTable(db.departments, DepartmentKey)
    && ValidTable(db.admins, AdminKey)
    && ValidTable(db.students, StudentKey)
    && ValidTable(db.announcements, AnnouncementKey)
    && Distinct(db.students.rows, StudentCodeOf)
    && Distinct(db.admins.rows, UsernameOf)
  }

  lemma EmptyDbValid()
    ensures Valid(EmptyDb)
  {
  }

  /** An INSERT: the row is appended and the counter advanced. */
  function Insert<T>(t: Table<T>, row: T): (r: Table<T>)
    ensures r.rows == t.rows + [row] && r.lastId == t.lastId + 1
  {
    Table(t.rows + [row], t.lastId + 1)
  }

  /** A DELETE ... WHERE: the rows that do not match are kept, in order. */
  function DeleteWhere<T(!new)>(t: Table<T>, matches: T -> bool): (r: Table<T>)
    ensures forall x :: x in r.rows <==> x in t.rows && !matches(x)
    ensures r.lastId == t.lastId
  {
    Table(Filter(t.rows, x => !matches(x)), t.lastId)
  }

  /** An INSERT with the next AUTOINCREMENT id keeps the table valid. */
  lemma InsertKeepsValid<T>(t: Table<T>, row: T, key: T -> int)
    requires key(row) == t.lastId + 1
    ensures ValidTable(t, key) ==> ValidTable(Insert(t, row), key)
  {
    if ValidTable(t, key) {
      var r := Insert(t, row).rows;
      forall i, j | 0 <= i < j < |r|
        ensures key(r[i]) < key(r[j])
      {
        if j == |r| - 1 {
          assert r[i] == t.rows[i];
        } else {
          assert r[i] == t.rows[i] && r[j] == t.rows[j];
        }
      }
    }
  }

  /** A DELETE keeps the table valid. */
  lemma DeleteKeepsValid<T(!new)>(t: Table<T>, matches: T -> bool, key: T -> int)
    requires ValidTable(t, key)
    ensures ValidTable(DeleteWhere(t, matches), key)
  {
    FilterKeepsIncreasing(t.rows, x => !matches(x), key);
    var r := DeleteWhere(t, matches).rows;
    forall i | 0 <= i < |r|
      ensures 1 <= key(r[i]) <= t.lastId
    {
      assert r[i] in t.rows;
    }
  }

  /** An UPDATE that leaves the key alone keeps the table valid. */
  lemma UpdateKeepsValid<T>(t: Table<T>, f: T -> T, key: T -> int)
    requires ValidTable(t, key)
    requires forall x :: key(f(x)) == key(x)
    ensures ValidTable(Table(MapRows(t.rows, f), t.lastId), key)
  {
  }

  // ---------------------------------------------------------------------------
  // Seeding (database.js:65-99)
  // ---------------------------------------------------------------------------

  /** The names and codes of the nine departments seeded into an empty
      departments table, in insertion order. */
  const SeedDepartmentNames: seq<string> := [
    "เทคโนโลยีคอมพิวเตอร์", "อิเล็กทรอนิกส์", "ช่างไฟฟ้ากำลัง",
    "เทคโนโลยีสารสนเทศ", "ช่างโยธา", "ช่างก่อสร้าง",
    "ช่างเชื่อม", "ช่างเมคคาทรอนิกส์", "ช่างยนต์"
  ]
  const SeedDepartmentCodes: seq<string> :=
    ["COM", "ELEC", "POWER", "IT", "CIVIL", "CONST", "WELD", "MECHA", "AUTO"]

  const SeedAdminUsername := "admin"
  const SeedAdminPassword := "admin"
  const SeedAdminEmail := "admin@example.com"

  /** The codes of a sequence of departments, in table order. */
  function CodesOf(rows: seq<Department>): (r: seq<string>)
    ensures |r| == |rows| && forall i :: 0 <= i < |rows| ==> r[i] == rows[i].code
  {
    seq(|rows|, i requires 0 <= i < |rows| => rows[i].code)
  }

  /** The prepared INSERT run once per name and code, in order. */
  function InsertDepartments(t: Table<Department>, names: seq<string>, codes: seq<string>): (r: Table<Department>)
    requires |names| == |codes|
    ensures |r.rows| == |t.rows| + |codes| && r.lastId == t.lastId + |codes|
    ensures r.rows[..|t.rows|] == t.rows
    ensures forall i :: 0 <= i < |codes| ==>
      r.rows[|t.rows| + i] == Department(t.lastId + 1 + i, names[i], codes[i])
    ensures ValidTable(t, DepartmentKey) ==> ValidTable(r, DepartmentKey)
    decreases |codes|
  {
    if |codes| == 0 then t
    else
      var row := Department(t.lastId + 1, names[0], codes[0]);
      var next := Insert(t, row);
      InsertKeepsValid(t, row, DepartmentKey);
      var r := InsertDepartments(next, names[1..], codes[1..]);
      assert r.rows[..|t.rows|] == r.rows[..|next.rows|][..|t.rows|];
      assert forall i :: 1 <= i < |codes| ==> codes[i] == codes[1..][i - 1] && names[i] == names[1..][i - 1];
      r
  }

  /** database.js seeding: the departments when the departments table is empty,
      the default admin when the admin_users table is empty. */
  function Seed(db: Db): (r: Db)
    ensures r.students == db.students && r.announcements == db.announcements
    ensures |db.departments.rows| > 0 ==> r.departments == db.departments
    ensures |db.admins.rows| > 0 ==> r.admins == db.admins
    ensures |r.departments.rows| > 0 && |r.admins.rows| > 0
  {
    var departments :=
      if |db.departments.rows| == 0 then InsertDepartments(db.departments, SeedDepartmentNames, SeedDepartmentCodes)
      else db.departments;
    var admins :=
      if |db.admins.rows| == 0 then
        Insert(db.admins, AdminUser(db.admins.lastId + 1, SeedAdminUsername, Hash(SeedAdminPassword), Some(SeedAdminEmail), "admin"))
      else db.admins;
    db.(departments := departments, admins := admins)
  }

  /** Inserting into an empty table yields exactly the given codes, in order. */
  lemma InsertedCodes(t: Table<Department>, names: seq<string>, codes: seq<string>)
    requires |names| == |codes| && |t.rows| == 0
    ensures CodesOf(InsertDepartments(t, names, codes).rows) == codes
  {
    var r := CodesOf(InsertDepartments(t, names, codes).rows);
    assert forall i :: 0 <= i < |codes| ==> r[i] == codes[i];
  }

  /** Seeding an empty departments table yields exactly the nine departments,
      COM to AUTO in this order. */
  lemma SeedPopulatesEmptyDepartments(db: Db)
    requires |db.departments.rows| == 0
    ensures CodesOf(Seed(db).departments.rows) == SeedDepartmentCodes
    ensures |Seed(db).departments.rows| == 9
  {
    InsertedCodes(db.departments, SeedDepartmentNames, SeedDepartmentCodes);
  }

  /** Seeding an empty admin table yields the one admin "admin" whose password
      is "admin". */
  lemma SeedPopulatesEmptyAdmins(db: Db)
    requires |db.admins.rows| == 0
    ensures |Seed(db).admins.rows| == 1
    ensures Seed(db).admins.rows[0].username == SeedAdminUsername
    ensures Verify(SeedAdminPassword, Seed(db).admins.rows[0].password)
  {
  }

  /** Initialising an already initialised store changes nothing, so seeding is
      idempotent. */
  lemma SeedIdempotent(db: Db)
    ensures Seed(Seed(db)) == Seed(db)
  {
  }

  /** Seeding keeps the table constraints. */
  lemma SeedKeepsValid(db: Db)
    requires Valid(db)
    ensures Valid(Seed(db))
  {
    var r := Seed(db);
    if |db.admins.rows| == 0 {
      InsertKeepsValid(db.admins, r.admins.rows[0], AdminKey);
    }
  }
}
