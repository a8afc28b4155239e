/** Registration of admins, students and faculty: each new record gets the next
    sequential identifier of its role and is appended to that role's list. */
module Registration {
  import opened Wrappers
  import opened Records
  import Ids
  import Text

  /** The student list and the three student-keyed maps agree. */
  predicate SameStudentData(a: Store, b: Store) {
    a.students == b.students && a.attendance == b.attendance && a.marks == b.marks && a.fees == b.fees
  }

  function RegisterAdmin(
    st: Store, firstName: string, lastName: string, email: string, phone: string, password: string): (r: Store)
    ensures |r.admins| == |st.admins| + 1 && r.admins[..|st.admins|] == st.admins
    ensures var a := r.admins[|st.admins|];
      && a.id == Ids.FormatId(AdminPrefix, |st.admins| + 1)
      && Ids.ParseId(AdminPrefix, a.id) == Some(|st.admins| + 1)
      && a == Admin(a.id, firstName, lastName, email, phone, password)
    ensures SameStudentData(r, st) && r.faculty == st.faculty && r.user == st.user
  {
    var id := Ids.FormatId(AdminPrefix, |st.admins| + 1);
    Ids.FormatIdRoundTrip(AdminPrefix, |st.admins| + 1);
    st.(admins := st.admins + [Admin(id, firstName, lastName, email, phone, password)])
  }

  /** The semester is bounded to 1..8 by the input widget before registration runs. */
  function RegisterStudent(
    st: Store, firstName: string, lastName: string, email: string, phone: string,
    course: string, semester: int, password: string): (r: Store)
    requires 1 <= semester <= 8
    ensures |r.students| == |st.students| + 1 && r.students[..|st.students|] == st.students
    ensures var s := r.students[|st.students|];
      && s.id == Ids.FormatId(StudentPrefix, |st.students| + 1)
      && Ids.ParseId(StudentPrefix, s.id) == Some(|st.students| + 1)
      && s == Student(s.id, firstName, lastName, email, phone, course, semester, password)
      && r.attendance == st.attendance[s.id := Attendance(0, 0)]
      && r.marks == st.marks[s.id := map[]]
      && r.fees == st.fees[s.id := Fees(FeeTotal, 0, FeeTotal)]
    ensures r.faculty == st.faculty && r.admins == st.admins && r.user == st.user
  {
    var id := Ids.FormatId(StudentPrefix, |st.students| + 1);
    Ids.FormatIdRoundTrip(StudentPrefix, |st.students| + 1);
    st.(students := st.students + [Student(id, firstName, lastName, email, phone, course, semester, password)],
        attendance := st.attendance[id := Attendance(0, 0)],
        marks := st.marks[id := map[]],
        fees := st.fees[id := Fees(FeeTotal, 0, FeeTotal)])
  }

  /** The subjects text is parsed into its non-blank, stripped, comma-separated entries. */
  function RegisterFaculty(
    st: Store, firstName: string, lastName: string, email: string, phone: string,
    department: string, subjects: string, password: string): (r: Store)
    ensures |r.faculty| == |st.faculty| + 1 && r.faculty[..|st.faculty|] == st.faculty
    ensures var f := r.faculty[|st.faculty|];
      && f.id == Ids.FormatId(FacultyPrefix, |st.faculty| + 1)
      && Ids.ParseId(FacultyPrefix, f.id) == Some(|st.faculty| + 1)
      && f == Faculty(f.id, firstName, lastName, email, phone, department, f.subjects, password)
      && f.subjects == Text.ParseSubjects(subjects)
    ensures SameStudentData(r, st) && r.admins == st.admins && r.user == st.user
  {
    var id := Ids.FormatId(FacultyPrefix, |st.faculty| + 1);
    Ids.FormatIdRoundTrip(FacultyPrefix, |st.faculty| + 1);
    st.(faculty := st.faculty + [Faculty(id, firstName, lastName, email, phone, department,
                                         Text.ParseSubjects(subjects), password)])
  }

  /** On a valid store the admin gets the next identifier, one no admin holds yet,
      and the store stays valid. */
  lemma RegisterAdminValid(
    st: Store, firstName: string, lastName: string, email: string, phone: string, password: string)
    requires Valid(st)
    ensures var r := RegisterAdmin(st, firstName, lastName, email, phone, password);
      && r.admins[|st.admins|].id == Ids.FormatId(AdminPrefix, |st.admins| + 1)
      && (forall i :: 0 <= i < |st.admins| ==> st.admins[i].id != r.admins[|st.admins|].id)
      && Valid(r)
  {
    var r := RegisterAdmin(st, firstName, lastName, email, phone, password);
    assert r.admins[..|st.admins|] == st.admins;
    Ids.NextIdFresh(AdminPrefix, |st.admins|);
    forall i | 0 <= i < |st.admins|
      ensures st.admins[i].id != r.admins[|st.admins|].id
    {
      RecordIdsAt(st.admins, AdminId, i);
    }
  }

  lemma RegisterFacultyValid(
    st: Store, firstName: string, lastName: string, email: string, phone: string,
    department: string, subjects: string, password: string)
    requires Valid(st)
    ensures var r := RegisterFaculty(st, firstName, lastName, email, phone, department, subjects, password);
      && r.faculty[|st.faculty|].id == Ids.FormatId(FacultyPrefix, |st.faculty| + 1)
      && (forall i :: 0 <= i < |st.faculty| ==> st.faculty[i].id != r.faculty[|st.faculty|].id)
      && Valid(r)
  {
    var r := RegisterFaculty(st, firstName, lastName, email, phone, department, subjects, password);
    assert r.faculty[..|st.faculty|] == st.faculty;
    Ids.NextIdFresh(FacultyPrefix, |st.faculty|);
    forall i | 0 <= i < |st.faculty|
      ensures st.faculty[i].id != r.faculty[|st.faculty|].id
    {
      RecordIdsAt(st.faculty, FacultyId, i);
    }
  }

  /** The identifier issued to the next student is no registered student's and has
      no attendance, marks or fees entry yet. */
  lemma NextStudentIdFresh(st: Store)
    requires Valid(st)
    ensures var id := Ids.FormatId(StudentPrefix, |st.students| + 1);
      && (forall i :: 0 <= i < |st.students| ==> st.students[i].id != id)
      && id !in st.attendance && id !in st.marks && id !in st.fees
  {
    var id := Ids.FormatId(StudentPrefix, |st.students| + 1);
    Ids.NextIdFresh(StudentPrefix, |st.students|);
    forall i | 0 <= i < |st.students|
      ensures st.students[i].id != id
    {
      RecordIdsAt(st.students, StudentId, i);
    }
  }

  /** In a valid store, different students have different identifiers. */
  lemma DistinctStudentIds(st: Store, i: int, j: int)
    requires Valid(st) && 0 <= i < |st.students| && 0 <= j < |st.students| && i != j
    ensures st.students[i].id != st.students[j].id
  {
    RecordIdsAt(st.students, StudentId, i);
    RecordIdsAt(st.students, StudentId, j);
    Ids.IssuedAt(StudentPrefix, |st.students|, i);
    Ids.IssuedAt(StudentPrefix, |st.students|, j);
    Ids.FormatIdInjective(StudentPrefix, i + 1, j + 1);
  }

  /** Appending a student with the next identifier and seeding its entries keeps a
      store valid. */
  lemma SeedStudentValid(st: Store, s: Student)
    requires Valid(st)
    requires s.id == Ids.FormatId(StudentPrefix, |st.students| + 1)
    ensures Valid(st.(students := st.students + [s],
                      attendance := st.attendance[s.id := Attendance(0, 0)],
                      marks := st.marks[s.id := map[]],
                      fees := st.fees[s.id := Fees(FeeTotal, 0, FeeTotal)]))
  {
    assert (st.students + [s])[..|st.students|] == st.students;
  }

  /** On a valid store the student gets a fresh identifier, so its seeded entries are
      new keys, every student keeps its three entries, and the store stays valid. */
  lemma RegisterStudentValid(
    st: Store, firstName: string, lastName: string, email: string, phone: string,
    course: string, semester: int, password: string)
    requires Valid(st) && 1 <= semester <= 8
    ensures var r := RegisterStudent(st, firstName, lastName, email, phone, course, semester, password);
      var id := r.students[|st.students|].id;
      && id == Ids.FormatId(StudentPrefix, |st.students| + 1)
      && (forall i :: 0 <= i < |st.students| ==> st.students[i].id != id)
      && id !in st.attendance && id !in st.marks && id !in st.fees
      && Valid(r)
  {
    var id := Ids.FormatId(StudentPrefix, |st.students| + 1);
    NextStudentIdFresh(st);
    SeedStudentValid(st, Student(id, firstName, lastName, email, phone, course, semester, password));
  }
}
