/** The read queries the handlers share: LEFT JOINs to the departments table,
    ORDER BY created_at DESC on announcements, and the per-department student
    count of the statistics endpoints. */
module Query {
  import opened Common
  import opened Rows
  import opened Text
  import opened Store

  /** d.department_id = ref under SQL semantics: a NULL reference matches nothing. */
  predicate References(ref: Option<SqlValue>, d: Department) {
    ref == Some(SqlInt(d.id))
  }

  function ReferencedBy(ref: Option<SqlValue>): Department -> bool {
    (d: Department) => References(ref, d)
  }

  /** The department a LEFT JOIN pairs with a reference, if any. */
  function JoinedDepartment(departments: seq<Department>, ref: Option<SqlValue>): (r: Option<Department>)
    ensures r.Some? ==> r.value in departments && References(ref, r.value)
    ensures r.None? ==> forall d :: d in departments ==> !References(ref, d)
  {
    FindFirst(departments, ReferencedBy(ref))
  }

  /** The department_name a LEFT JOIN attaches: the name of the referenced
      department, or NULL when no department has that id. */
  function DepartmentNameOf(departments: seq<Department>, ref: Option<SqlValue>): (r: Option<string>)
    ensures r.None? <==> forall d :: d in departments ==> !References(ref, d)
    ensures r.Some? ==> exists d :: d in departments && References(ref, d) && r.value == d.name
  {
    match JoinedDepartment(departments, ref)
    case Some(d) => Some(d.name)
    case None => None
  }

  /** A row of `s.*, d.department_name`. */
  datatype StudentRow = StudentRow(student: Student, departmentName: Option<string>)

  /** A row of `a.*, d.department_name`. */
  datatype AnnouncementRow = AnnouncementRow(announcement: Announcement, departmentName: Option<string>)

  function JoinStudents(students: seq<Student>, departments: seq<Department>): (r: seq<StudentRow>)
    ensures |r| == |students|
    ensures forall i :: 0 <= i < |r| ==> r[i].student == students[i]
    ensures forall i :: 0 <= i < |r| ==> r[i].departmentName == DepartmentNameOf(departments, students[i].departmentId)
  {
    seq(|students|, i requires 0 <= i < |students| =>
      StudentRow(students[i], DepartmentNameOf(departments, students[i].departmentId)))
  }

  function JoinAnnouncements(announcements: seq<Announcement>, departments: seq<Department>): (r: seq<AnnouncementRow>)
    ensures |r| == |announcements|
    ensures forall i :: 0 <= i < |r| ==> r[i].announcement == announcements[i]
    ensures forall i :: 0 <= i < |r| ==>
      r[i].departmentName == DepartmentNameOf(departments, announcements[i].departmentId)
  {
    seq(|announcements|, i requires 0 <= i < |announcements| =>
      AnnouncementRow(announcements[i], DepartmentNameOf(departments, announcements[i].departmentId)))
  }

  /** The announcements carried by a sequence of joined rows. */
  function AnnouncementsOf(rows: seq<AnnouncementRow>): (r: seq<Announcement>)
    ensures |r| == |rows| && forall i :: 0 <= i < |rows| ==> r[i] == rows[i].announcement
  {
    seq(|rows|, i requires 0 <= i < |rows| => rows[i].announcement)
  }

  lemma AnnouncementsOfJoin(announcements: seq<Announcement>, departments: seq<Department>)
    ensures AnnouncementsOf(JoinAnnouncements(announcements, departments)) == announcements
  {
  }

  // ---------------------------------------------------------------------------
  // ORDER BY created_at DESC
  // ---------------------------------------------------------------------------

  /** Creation times never increase along the sequence. */
  ghost predicate NewestFirst(s: seq<Announcement>) {
    forall i, j :: 0 <= i < j < |s| ==> s[i].createdAt >= s[j].createdAt
  }

  /** Puts one announcement into a newest-first sequence, before any of equal age. */
  function InsertNewestFirst(a: Announcement, s: seq<Announcement>): (r: seq<Announcement>)
    requires NewestFirst(s)
    ensures NewestFirst(r)
    ensures multiset(r) == multiset(s) + multiset{a}
    ensures |r| == |s| + 1
  {
    if |s| == 0 then [a]
    else if a.createdAt >= s[0].createdAt then [a] + s
    else
      var rest := InsertNewestFirst(a, s[1..]);
      assert s == [s[0]] + s[1..];
      assert forall x :: x in rest ==> x in multiset(s[1..]) + multiset{a};
      assert forall x :: x in s[1..] ==> s[0].createdAt >= x.createdAt;
      OrderCons(s[0], rest);
      [s[0]] + rest
  }

  lemma OrderCons(a: Announcement, rest: seq<Announcement>)
    requires NewestFirst(rest)
    requires forall x :: x in rest ==> a.createdAt >= x.createdAt
    ensures NewestFirst([a] + rest)
  {
    var r := [a] + rest;
    forall i, j | 0 <= i < j < |r|
      ensures r[i].createdAt >= r[j].createdAt
    {
      assert r[j] == rest[j - 1];
      if i > 0 {
        assert r[i] == rest[i - 1];
      }
    }
  }

  /** The rows of a query ORDER BY created_at DESC: the same announcements,
      newest first. Rows of equal age keep their table order. */
  function SortNewestFirst(s: seq<Announcement>): (r: seq<Announcement>)
    ensures NewestFirst(r)
    ensures multiset(r) == multiset(s)
  {
    if |s| == 0 then []
    else
      assert s == [s[0]] + s[1..];
      InsertNewestFirst(s[0], SortNewestFirst(s[1..]))
  }

  /** Sorting keeps exactly the announcements it was given. */
  lemma SortKeepsMembers(s: seq<Announcement>)
    ensures forall a :: a in SortNewestFirst(s) <==> a in s
  {
    var r := SortNewestFirst(s);
    assert forall a :: a in r <==> a in multiset(r);
    assert forall a :: a in s <==> a in multiset(s);
  }

  // ---------------------------------------------------------------------------
  // Per-department statistics
  // ---------------------------------------------------------------------------

  /** One row of the breakdown: a department and how many students reference it. */
  datatype DepartmentCount = DepartmentCount(departmentName: string, count: nat)

  function InDepartment(d: Department): Student -> bool {
    (s: Student) => References(s.departmentId, d)
  }

  /** departments LEFT JOIN students GROUP BY department: one row per department,
      in table order, counting its students; a department without students
      counts zero. */
  function Breakdown(departments: seq<Department>, students: seq<Student>): (r: seq<DepartmentCount>)
    ensures |r| == |departments|
    ensures forall i :: 0 <= i < |r| ==>
      r[i] == DepartmentCount(departments[i].name, Count(students, InDepartment(departments[i])))
  {
    seq(|departments|, i requires 0 <= i < |departments| =>
      DepartmentCount(departments[i].name, Count(students, InDepartment(departments[i]))))
  }

  function SumCounts(rows: seq<DepartmentCount>): nat
  {
    if |rows| == 0 then 0 else rows[0].count + SumCounts(rows[1..])
  }

  /** The student references some department of the list. */
  predicate InSomeDepartment(departments: seq<Department>, s: Student) {
    exists d :: d in departments && References(s.departmentId, d)
  }

  function InAnyOf(departments: seq<Department>): Student -> bool {
    (s: Student) => InSomeDepartment(departments, s)
  }

  function InNoneOf(departments: seq<Department>): Student -> bool {
    (s: Student) => !InSomeDepartment(departments, s)
  }

  /** With distinct department ids, the breakdown counts every student that
      references a listed department exactly once. */
  lemma {:induction false} BreakdownCountsListed(departments: seq<Department>, students: seq<Student>)
    requires Distinct(departments, DepartmentKey)
    ensures SumCounts(Breakdown(departments, students)) == Count(students, InAnyOf(departments))
  {
    if |departments| == 0 {
      CountZero(students, InAnyOf(departments));
    } else {
      var d := departments[0];
      var rest := departments[1..];
      DistinctTail(departments, DepartmentKey);
      BreakdownCountsListed(rest, students);
      assert Breakdown(departments, students)[1..] == Breakdown(rest, students);
      forall s | s in students
        ensures !(InDepartment(d)(s) && InAnyOf(rest)(s))
        ensures InAnyOf(departments)(s) == (InDepartment(d)(s) || InAnyOf(rest)(s))
      {
        if InDepartment(d)(s) {
          forall e | e in rest
            ensures !References(s.departmentId, e)
          {
            assert DepartmentKey(d) != DepartmentKey(e);
          }
        }
        assert departments == [d] + rest;
      }
      CountDisjointUnion(students, InDepartment(d), InAnyOf(rest), InAnyOf(departments));
    }
  }

  /** Every student is either counted in the breakdown or references no listed
      department (a NULL or dangling department_id); nothing is counted twice. */
  lemma BreakdownAccountsForEveryStudent(departments: seq<Department>, students: seq<Student>)
    requires Distinct(departments, DepartmentKey)
    ensures SumCounts(Breakdown(departments, students)) + Count(students, InNoneOf(departments)) == |students|
  {
    BreakdownCountsListed(departments, students);
    CountComplement(students, InAnyOf(departments), InNoneOf(departments));
  }
}
