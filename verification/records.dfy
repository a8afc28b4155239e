/** The in-memory record store: three ordered record lists, three maps keyed by
    student id, and the session's signed-in user. */
module Records {
  import opened Wrappers
  import Ids

  datatype Role = StudentRole | FacultyRole | AdminRole

  datatype Student = Student(
    id: string, firstName: string, lastName: string, email: string, phone: string,
    course: string, semester: int, password: string)
  {
    predicate HasCredentials(e: string, p: string) { email == e && password == p }
  }

  datatype Faculty = Faculty(
    id: string, firstName: string, lastName: string, email: string, phone: string,
    department: string, subjects: seq<string>, password: string)
  {
    predicate HasCredentials(e: string, p: string) { email == e && password == p }
  }

  datatype Admin = Admin(
    id: string, firstName: string, lastName: string, email: string, phone: string,
    password: string)
  {
    predicate HasCredentials(e: string, p: string) { email == e && password == p }
  }

  /** Classes attended out of classes held. */
  datatype Attendance = Attendance(present: nat, total: nat)

  /** Subject name to mark; created empty and never filled in. */
  type Marks = map<string, int>

  datatype Fees = Fees(total: int, paid: int, pending: int)

  /** A signed-in user: the record found at login, tagged with its role. */
  datatype Identity =
    | StudentIdentity(student: Student)
    | FacultyIdentity(faculty: Faculty)
    | AdminIdentity(admin: Admin)
  {
    function Role(): Role {
      match this
      case StudentIdentity(_) => StudentRole
      case FacultyIdentity(_) => FacultyRole
      case AdminIdentity(_) => AdminRole
    }
  }

  datatype Store = Store(
    students: seq<Student>,
    faculty: seq<Faculty>,
    admins: seq<Admin>,
    attendance: map<string, Attendance>,
    marks: map<string, Marks>,
    fees: map<string, Fees>,
    user: Option<Identity>)

  /** What an operation reports instead of changing the store. */
  datatype Error =
    | InvalidCredentials   // no record of the chosen role has that email and password
    | EmptyRoster          // the action needs at least one registered student
    | UnknownStudent       // no student has the chosen first name
    | MissingRecord        // a student has no attendance, marks or fees entry

  const StudentPrefix := "STU"
  const FacultyPrefix := "FAC"
  const AdminPrefix := "ADM"

  /** The fee every student owes at registration. */
  const FeeTotal := 50000

  /** The state before anything is registered and before anyone signs in. */
  function Initial(): (st: Store)
    ensures st.students == [] && st.faculty == [] && st.admins == []
    ensures st.attendance == map[] && st.marks == map[] && st.fees == map[]
    ensures st.user == None
  {
    Store([], [], [], map[], map[], map[], None)
  }

  /** The identifiers of a list of records, in list order, read by `id`. */
  function RecordIds<T>(records: seq<T>, id: T -> string): (ids: seq<string>)
    ensures |ids| == |records|
  {
    if |records| == 0 then [] else RecordIds(records[..|records| - 1], id) + [id(records[|records| - 1])]
  }

  lemma {:induction false} RecordIdsAt<T>(records: seq<T>, id: T -> string, i: nat)
    requires i < |records|
    ensures RecordIds(records, id)[i] == id(records[i])
  {
    if i < |records| - 1 {
      RecordIdsAt(records[..|records| - 1], id, i);
    }
  }

  function StudentId(s: Student): string { s.id }
  function FacultyId(f: Faculty): string { f.id }
  function AdminId(a: Admin): string { a.id }

  function StudentIds(students: seq<Student>): seq<string> { RecordIds(students, StudentId) }
  function FacultyIds(faculty: seq<Faculty>): seq<string> { RecordIds(faculty, FacultyId) }
  function AdminIds(admins: seq<Admin>): seq<string> { RecordIds(admins, AdminId) }

  /** The two stores hold the same records; only the session may differ. */
  predicate SameRecords(a: Store, b: Store) {
    && a.students == b.students && a.faculty == b.faculty && a.admins == b.admins
    && a.attendance == b.attendance && a.marks == b.marks && a.fees == b.fees
  }

  /** The signed-in user, if any, is a registered record of its role. */
  predicate SessionKnown(st: Store) {
    match st.user
    case None => true
    case Some(StudentIdentity(s)) => s in st.students
    case Some(FacultyIdentity(f)) => f in st.faculty
    case Some(AdminIdentity(a)) => a in st.admins
  }

  /** Each role's identifiers are its list positions 1, 2, ... formatted with its prefix. */
  predicate IdsSequential(st: Store) {
    && StudentIds(st.students) == Ids.Issued(StudentPrefix, |st.students|)
    && FacultyIds(st.faculty) == Ids.Issued(FacultyPrefix, |st.faculty|)
    && AdminIds(st.admins) == Ids.Issued(AdminPrefix, |st.admins|)
  }

  /** Exactly the registered students have attendance, marks and fees entries. */
  predicate StudentsSeeded(st: Store) {
    && st.attendance.Keys == (set id | id in StudentIds(st.students))
    && st.marks.Keys == st.attendance.Keys
    && st.fees.Keys == st.attendance.Keys
  }

  /** No student has attended more classes than were held. */
  predicate AttendanceBounded(attendance: map<string, Attendance>) {
    forall id :: id in attendance ==> attendance[id].present <= attendance[id].total
  }

  /** What is pending is what is owed minus what was paid. */
  predicate FeesBalanced(fees: map<string, Fees>) {
    forall id :: id in fees ==> fees[id].pending == fees[id].total - fees[id].paid
  }

  /** What registration and marking attendance keep true of the store. */
  predicate Valid(st: Store) {
    && IdsSequential(st)
    && StudentsSeeded(st)
    && AttendanceBounded(st.attendance)
    && FeesBalanced(st.fees)
    && SessionKnown(st)
  }

  /** The store starts out valid. */
  lemma InitialValid()
    ensures Valid(Initial())
  {
  }

  /** Every registered student has its attendance, marks and fees entries. */
  lemma ValidStudentSeeded(st: Store, i: nat)
    requires Valid(st) && i < |st.students|
    ensures st.students[i].id in st.attendance
    ensures st.students[i].id in st.marks && st.students[i].id in st.fees
  {
    RecordIdsAt(st.students, StudentId, i);
  }
}
