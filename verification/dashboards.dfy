/** The dashboards: the admin's counts and attendance chart values, the faculty's
    "Mark Present" action, and the student's own attendance, marks and fees. */
module Dashboards {
  import opened Wrappers
  import opened Records
  import Auth
  import Registration

  /** `present / total * 100`, or 0 before any class was held. */
  function Percent(att: Attendance): (r: real)
    ensures att.total == 0 ==> r == 0.0
    ensures att.total > 0 ==> r * (att.total as real) == (att.present as real) * 100.0
    ensures att.present <= att.total ==> 0.0 <= r <= 100.0
    ensures att.total > 0 && att.present == att.total ==> r == 100.0
  {
    if att.total > 0 then (att.present as real) / (att.total as real) * 100.0 else 0.0
  }

  /** The dashboard action changes nothing but attendance. */
  predicate SameExceptAttendance(a: Store, b: Store) {
    && a.students == b.students && a.faculty == b.faculty && a.admins == b.admins
    && a.marks == b.marks && a.fees == b.fees && a.user == b.user
  }

  /** `after` is `before` with one more class held and attended by `id`, and every other
      entry as it was. */
  predicate Incremented(before: map<string, Attendance>, after: map<string, Attendance>, id: string) {
    && id in before && after.Keys == before.Keys
    && after[id].present == before[id].present + 1
    && after[id].total == before[id].total + 1
    && forall k :: k in before && k != id ==> after[k] == before[k]
  }

  function NamedMatches(firstName: string): Student -> bool {
    (s: Student) => s.firstName == firstName
  }

  /** "Mark Present" for the student chosen by first name: the first student in
      registration order with that name attends one more of one more classes held.
      With no students the dashboard only shows a notice. */
  function MarkPresent(st: Store, firstName: string): (r: Result<Store, Error>)
    ensures r == Failure(EmptyRoster) <==> st.students == []
    ensures r == Failure(MissingRecord) <==>
      exists i :: Auth.IsFirst(st.students, i, NamedMatches(firstName)) && st.students[i].id !in st.attendance
    ensures r.Success? <==>
      exists i :: Auth.IsFirst(st.students, i, NamedMatches(firstName)) && st.students[i].id in st.attendance
    ensures r == Failure(UnknownStudent) <==>
      st.students != [] && forall i :: 0 <= i < |st.students| ==> st.students[i].firstName != firstName
    ensures r.Success? ==>
      && SameExceptAttendance(r.value, st)
      && exists i :: Auth.IsFirst(st.students, i, NamedMatches(firstName))
                     && Incremented(st.attendance, r.value.attendance, st.students[i].id)
  {
    if st.students == [] then Failure(EmptyRoster)
    else match Auth.FirstIndex(st.students, NamedMatches(firstName))
      case None => Failure(UnknownStudent)
      case Some(i) =>
        var id := st.students[i].id;
        if id !in st.attendance then Failure(MissingRecord)
        else
          var att := st.attendance[id];
          Success(st.(attendance := st.attendance[id := Attendance(att.present + 1, att.total + 1)]))
  }

  /** On a valid store marking a student present succeeds when some student has that
      first name, it bumps the first such student, and the store stays valid: attended
      classes never exceed classes held. */
  lemma MarkPresentValid(st: Store, firstName: string, i: int)
    requires Valid(st)
    requires Auth.IsFirst(st.students, i, NamedMatches(firstName))
    ensures MarkPresent(st, firstName).Success?
    ensures Incremented(st.attendance, MarkPresent(st, firstName).value.attendance, st.students[i].id)
    ensures Valid(MarkPresent(st, firstName).value)
  {
    ValidStudentSeeded(st, i);
    var r := MarkPresent(st, firstName);
    var k :| Auth.IsFirst(st.students, k, NamedMatches(firstName))
             && Incremented(st.attendance, r.value.attendance, st.students[k].id);
    Auth.IsFirstUnique(st.students, i, k, NamedMatches(firstName));
    IncrementedValid(st, r.value, st.students[i].id);
  }

  /** Students are picked by first name, so a student who shares the first name of an
      earlier student is never the one marked present: their attendance stays as it was. */
  lemma LaterNamesakeUnmarked(st: Store, firstName: string, i: int, j: int)
    requires Valid(st) && 0 <= i < j < |st.students|
    requires st.students[i].firstName == firstName && st.students[j].firstName == firstName
    ensures MarkPresent(st, firstName).Success?
    ensures var id := st.students[j].id;
      id in st.attendance && MarkPresent(st, firstName).value.attendance[id] == st.attendance[id]
  {
    var p := NamedMatches(firstName);
    assert p(st.students[i]);
    var k := Auth.FirstIndex(st.students, p).value;
    assert k <= i;
    MarkPresentValid(st, firstName, k);
    ValidStudentSeeded(st, j);
    Registration.DistinctStudentIds(st, k, j);
  }

  /** One more class attended and held keeps attendance within what was held. */
  lemma IncrementedValid(st: Store, r: Store, id: string)
    requires Valid(st) && SameExceptAttendance(r, st) && Incremented(st.attendance, r.attendance, id)
    ensures Valid(r)
  {
    assert r.attendance.Keys == st.attendance.Keys;
    assert AttendanceBounded(r.attendance);
    assert IdsSequential(r);
  }

  /** The admin dashboard's metrics. */
  datatype Summary = Summary(students: nat, faculty: nat, courses: nat)

  /** The distinct courses of the students. */
  function Courses(students: seq<Student>): (cs: set<string>)
    ensures |cs| <= |students|
  {
    if |students| == 0 then {} else Courses(students[..|students| - 1]) + {students[|students| - 1].course}
  }

  /** The distinct courses are exactly the courses some student takes. */
  lemma {:induction false} CoursesExact(students: seq<Student>)
    ensures forall i :: 0 <= i < |students| ==> students[i].course in Courses(students)
    ensures forall c :: c in Courses(students) ==> exists i :: 0 <= i < |students| && students[i].course == c
    decreases |students|
  {
    if |students| > 0 {
      var init := students[..|students| - 1];
      CoursesExact(init);
      assert forall i :: 0 <= i < |init| ==> init[i] == students[i];
    }
  }

  function AdminSummary(st: Store): (r: Summary)
    ensures r.students == |st.students| && r.faculty == |st.faculty|
    ensures r.courses <= r.students
    ensures r.courses == 0 <==> st.students == []
    ensures r.courses == |set i | 0 <= i < |st.students| :: st.students[i].course|
  {
    var cs := Courses(st.students);
    CoursesExact(st.students);
    assert cs == set i | 0 <= i < |st.students| :: st.students[i].course;
    Summary(|st.students|, |st.faculty|, |cs|)
  }

  /** The admin's attendance chart: one percentage per student in registration order.
      Every student must have an attendance entry. */
  function AttendanceChart(st: Store): (values: seq<real>)
    requires forall i :: 0 <= i < |st.students| ==> st.students[i].id in st.attendance
    ensures |values| == |st.students|
    ensures forall i :: 0 <= i < |values| ==> values[i] == Percent(st.attendance[st.students[i].id])
    ensures AttendanceBounded(st.attendance) ==> forall i :: 0 <= i < |values| ==> 0.0 <= values[i] <= 100.0
  {
    seq(|st.students|, i requires 0 <= i < |st.students| => Percent(st.attendance[st.students[i].id]))
  }

  /** On a valid store the chart can be drawn and stays within 0..100. */
  lemma AttendanceChartValid(st: Store)
    requires Valid(st)
    ensures forall i :: 0 <= i < |st.students| ==> st.students[i].id in st.attendance
    ensures forall i :: 0 <= i < |AttendanceChart(st)| ==> 0.0 <= AttendanceChart(st)[i] <= 100.0
  {
    forall i | 0 <= i < |st.students|
      ensures st.students[i].id in st.attendance
    {
      ValidStudentSeeded(st, i);
    }
  }

  /** What the student dashboard shows of one student. */
  datatype StudentReport = StudentReport(
    course: string, semester: int, attendance: Attendance, percent: real, marks: Marks, fees: Fees)

  /** The student dashboard for the signed-in student `s`: a missing entry is an error. */
  function StudentView(st: Store, s: Student): (r: Result<StudentReport, Error>)
    ensures r.Success? <==> s.id in st.attendance && s.id in st.marks && s.id in st.fees
    ensures r.Failure? ==> r.error == MissingRecord
    ensures r.Success? ==>
      && r.value.course == s.course && r.value.semester == s.semester
      && r.value.attendance == st.attendance[s.id]
      && r.value.marks == st.marks[s.id] && r.value.fees == st.fees[s.id]
      && (r.value.attendance.total == 0 ==> r.value.percent == 0.0)
      && (r.value.attendance.total > 0 ==>
            r.value.percent * (r.value.attendance.total as real) == (r.value.attendance.present as real) * 100.0)
  {
    if s.id in st.attendance && s.id in st.marks && s.id in st.fees then
      var att := st.attendance[s.id];
      Success(StudentReport(s.course, s.semester, att, Percent(att), st.marks[s.id], st.fees[s.id]))
    else Failure(MissingRecord)
  }

  /** A signed-in student of a valid store always sees a dashboard, with a percentage
      in 0..100 and fees that balance. */
  lemma StudentViewValid(st: Store, s: Student)
    requires Valid(st) && st.user == Some(StudentIdentity(s))
    ensures StudentView(st, s).Success?
    ensures 0.0 <= StudentView(st, s).value.percent <= 100.0
    ensures StudentView(st, s).value.fees.pending
         == StudentView(st, s).value.fees.total - StudentView(st, s).value.fees.paid
  {
    var i :| 0 <= i < |st.students| && st.students[i] == s;
    ValidStudentSeeded(st, i);
  }
}
