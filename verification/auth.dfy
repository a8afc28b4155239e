/** Signing in and out: the credential scan over one role's list and the two
    session transitions. */
module Auth {
  import opened Wrappers
  import opened Records

  /** Position `i` holds the first element of `xs` that satisfies `p`. */
  predicate IsFirst<T>(xs: seq<T>, i: int, p: T -> bool) {
    0 <= i < |xs| && p(xs[i]) && forall j :: 0 <= j < i ==> !p(xs[j])
  }

  /** A front-to-back scan: the position of the first element satisfying `p`. */
  function FirstIndex<T>(xs: seq<T>, p: T -> bool): (r: Option<nat>)
    ensures r.None? <==> forall i :: 0 <= i < |xs| ==> !p(xs[i])
    ensures r.Some? ==> IsFirst(xs, r.value, p)
  {
    if |xs| == 0 then None
    else if p(xs[0]) then Some(0)
    else match FirstIndex(xs[1..], p)
      case None => None
      case Some(k) => Some(k + 1)
  }

  /** There is only one first match. */
  lemma IsFirstUnique<T>(xs: seq<T>, i: int, j: int, p: T -> bool)
    requires IsFirst(xs, i, p) && IsFirst(xs, j, p)
    ensures i == j
  {
  }

  /** The login test for each role: exact email and exact password. */
  function AdminMatches(email: string, password: string): Admin -> bool {
    (a: Admin) => a.HasCredentials(email, password)
  }

  function FacultyMatches(email: string, password: string): Faculty -> bool {
    (f: Faculty) => f.HasCredentials(email, password)
  }

  function StudentMatches(email: string, password: string): Student -> bool {
    (s: Student) => s.HasCredentials(email, password)
  }

  /** `authenticate(email, password, role)`: scans only the list of `role` and returns
      the first record, in registration order, whose email and password both match,
      tagged with `role`. */
  function Authenticate(st: Store, email: string, password: string, role: Role): (r: Option<Identity>)
    ensures r.Some? ==> r.value.Role() == role
    ensures role == AdminRole ==>
      (r.None? <==> forall i :: 0 <= i < |st.admins| ==> !st.admins[i].HasCredentials(email, password))
    ensures role == FacultyRole ==>
      (r.None? <==> forall i :: 0 <= i < |st.faculty| ==> !st.faculty[i].HasCredentials(email, password))
    ensures role == StudentRole ==>
      (r.None? <==> forall i :: 0 <= i < |st.students| ==> !st.students[i].HasCredentials(email, password))
    ensures r.Some? && role == AdminRole ==>
      exists i :: IsFirst(st.admins, i, AdminMatches(email, password)) && r.value.admin == st.admins[i]
    ensures r.Some? && role == FacultyRole ==>
      exists i :: IsFirst(st.faculty, i, FacultyMatches(email, password)) && r.value.faculty == st.faculty[i]
    ensures r.Some? && role == StudentRole ==>
      exists i :: IsFirst(st.students, i, StudentMatches(email, password)) && r.value.student == st.students[i]
  {
    match role
    case AdminRole =>
      (match FirstIndex(st.admins, AdminMatches(email, password))
       case Some(i) => Some(AdminIdentity(st.admins[i]))
       case None => None)
    case FacultyRole =>
      (match FirstIndex(st.faculty, FacultyMatches(email, password))
       case Some(i) => Some(FacultyIdentity(st.faculty[i]))
       case None => None)
    case StudentRole =>
      (match FirstIndex(st.students, StudentMatches(email, password))
       case Some(i) => Some(StudentIdentity(st.students[i]))
       case None => None)
  }

  /** When several students share an email and password, the one registered first
      signs in. */
  lemma AuthenticateFirstStudentWins(st: Store, email: string, password: string, i: nat)
    requires i < |st.students| && st.students[i].HasCredentials(email, password)
    requires forall j :: 0 <= j < i ==> !st.students[j].HasCredentials(email, password)
    ensures Authenticate(st, email, password, StudentRole) == Some(StudentIdentity(st.students[i]))
  {
    var p := StudentMatches(email, password);
    assert IsFirst(st.students, i, p);
    var r := Authenticate(st, email, password, StudentRole);
    var k :| IsFirst(st.students, k, p) && r.value.student == st.students[k];
    IsFirstUnique(st.students, i, k, p);
  }

  /** The "Sign In" button of the login page, which only an anonymous session sees:
      the session takes the authenticated identity, or stays anonymous with an
      invalid-credentials error. No record changes either way. */
  function Login(st: Store, email: string, password: string, role: Role): (r: Result<Store, Error>)
    requires st.user.None?
    ensures r.Failure? <==> Authenticate(st, email, password, role).None?
    ensures r.Failure? ==> r.error == InvalidCredentials
    ensures r.Success? ==> r.value.user == Authenticate(st, email, password, role)
    ensures r.Success? ==> r.value.user.Some? && r.value.user.value.Role() == role
    ensures r.Success? ==> SameRecords(r.value, st)
  {
    match Authenticate(st, email, password, role)
    case Some(identity) => Success(st.(user := Some(identity)))
    case None => Failure(InvalidCredentials)
  }

  /** The sidebar's "Logout" button, shown to any signed-in user whatever the role:
      the session becomes anonymous and no record changes. */
  function Logout(st: Store): (r: Store)
    requires st.user.Some?
    ensures r.user.None?
    ensures SameRecords(r, st)
  {
    st.(user := None)
  }

  /** A successful login keeps the store valid: the identity is a registered record. */
  lemma LoginValid(st: Store, email: string, password: string, role: Role)
    requires Valid(st) && st.user.None?
    ensures Login(st, email, password, role).Success? ==> Valid(Login(st, email, password, role).value)
  {
    var r := Login(st, email, password, role);
    if r.Success? {
      match role
      case AdminRole =>
        var i :| IsFirst(st.admins, i, AdminMatches(email, password)) && r.value.user.value.admin == st.admins[i];
        assert r.value.user.value.admin in st.admins;
      case FacultyRole =>
        var i :| IsFirst(st.faculty, i, FacultyMatches(email, password)) && r.value.user.value.faculty == st.faculty[i];
        assert r.value.user.value.faculty in st.faculty;
      case StudentRole =>
        var i :| IsFirst(st.students, i, StudentMatches(email, password)) && r.value.user.value.student == st.students[i];
        assert r.value.user.value.student in st.students;
    }
  }

  lemma LogoutValid(st: Store)
    requires Valid(st) && st.user.Some?
    ensures Valid(Logout(st))
  {
  }

  /** What the main block shows: the navigation menu to an anonymous session, the
      dashboard of the user's role otherwise. */
  datatype Page = Navigation | Dashboard(role: Role)

  function Route(st: Store): (p: Page)
    ensures p.Navigation? <==> st.user.None?
    ensures st.user.Some? ==> p == Dashboard(st.user.value.Role())
  {
    match st.user
    case None => Navigation
    case Some(identity) => Dashboard(identity.Role())
  }

  /** Signing in with a role leads to that role's dashboard; signing out leads back to
      the navigation menu, whichever dashboard was shown. */
  lemma SessionRoutes(st: Store, email: string, password: string, role: Role)
    requires st.user.None?
    ensures Login(st, email, password, role).Success? ==>
      Route(Login(st, email, password, role).value) == Dashboard(role)
    ensures Login(st, email, password, role).Failure? ==> Route(st) == Navigation
    ensures Login(st, email, password, role).Success? ==>
      Route(Logout(Login(st, email, password, role).value)) == Navigation
  {
  }
}
