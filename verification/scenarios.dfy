/** Walk-throughs of the record store from a fresh start, and the composition of
    registration with the dashboards. */
module Scenarios {
  import opened Wrappers
  import opened Records
  import Ids
  import Decimal
  import Registration
  import Auth
  import Dashboards

  /** Sequence numbers are zero-padded to three digits and widen past 999. */
  lemma IdExamples()
    ensures Ids.FormatId(StudentPrefix, 1) == "STU001"
    ensures Ids.FormatId(StudentPrefix, 2) == "STU002"
    ensures Ids.FormatId(FacultyPrefix, 42) == "FAC042"
    ensures Ids.FormatId(AdminPrefix, 1000) == "ADM1000"
  {
    assert Decimal.FromNat(1) == "1";
    assert Decimal.FromNat(2) == "2";
    assert Decimal.FromNat(4) == "4";
    assert Decimal.FromNat(42) == "42";
    assert Decimal.FromNat(10) == "10";
    assert Decimal.FromNat(100) == "100";
    assert Decimal.FromNat(1000) == "1000";
    assert Decimal.Zeros(2) == "00";
    assert Decimal.Zeros(1) == "0";
  }

  /** A student registered and viewed straight away sees no classes, a 0 percentage, no
      marks and the full fee pending. */
  lemma RegisterThenView(
    st: Store, firstName: string, lastName: string, email: string, phone: string,
    course: string, semester: int, password: string)
    requires 1 <= semester <= 8
    ensures var r := Registration.RegisterStudent(st, firstName, lastName, email, phone, course, semester, password);
      Dashboards.StudentView(r, r.students[|st.students|])
        == Success(Dashboards.StudentReport(course, semester, Attendance(0, 0), 0.0, map[], Fees(50000, 0, 50000)))
  {
  }

  /** Asha, then Beni, registered on a fresh store. */
  function AshaAndBeni(): Store {
    var s1 := Registration.RegisterStudent(Initial(), "Asha", "", "asha@x", "", "CS", 3, "pw");
    Registration.RegisterStudent(s1, "Beni", "", "beni@x", "", "CS", 3, "pw2")
  }

  /** Asha and Beni get STU001 and STU002 in registration order, Asha's fees are seeded,
      and the store is valid. */
  lemma AshaAndBeniRegistered()
    ensures var st := AshaAndBeni();
      && st.students[0].id == "STU001" && st.students[1].id == "STU002"
      && st.fees["STU001"] == Fees(50000, 0, 50000)
      && Valid(st)
  {
    IdExamples();
    var s1 := Registration.RegisterStudent(Initial(), "Asha", "", "asha@x", "", "CS", 3, "pw");
    InitialValid();
    Registration.RegisterStudentValid(Initial(), "Asha", "", "asha@x", "", "CS", 3, "pw");
    Registration.RegisterStudentValid(s1, "Beni", "", "beni@x", "", "CS", 3, "pw2");
  }

  /** Marking the same student present twice adds two attended and two held classes. */
  lemma MarkedTwice(st: Store, firstName: string, i: int)
    requires Valid(st) && Auth.IsFirst(st.students, i, Dashboards.NamedMatches(firstName))
    ensures Dashboards.MarkPresent(st, firstName).Success?
    ensures var s3 := Dashboards.MarkPresent(st, firstName).value;
      && Dashboards.MarkPresent(s3, firstName).Success?
      && var s4 := Dashboards.MarkPresent(s3, firstName).value;
         var id := st.students[i].id;
         && id in st.attendance && id in s4.attendance
         && s4.attendance[id] == Attendance(st.attendance[id].present + 2, st.attendance[id].total + 2)
         && (forall k :: k in st.attendance && k != id ==> k in s4.attendance && s4.attendance[k] == st.attendance[k])
  {
    Dashboards.MarkPresentValid(st, firstName, i);
    var s3 := Dashboards.MarkPresent(st, firstName).value;
    assert Auth.IsFirst(s3.students, i, Dashboards.NamedMatches(firstName));
    Dashboards.MarkPresentValid(s3, firstName, i);
  }

  /** A faculty member marks Asha present twice: 2 of 2 classes, 100 percent, and Beni's
      attendance untouched. */
  lemma AshaMarkedTwice()
    ensures Dashboards.MarkPresent(AshaAndBeni(), "Asha").Success?
    ensures var s3 := Dashboards.MarkPresent(AshaAndBeni(), "Asha").value;
      && Dashboards.MarkPresent(s3, "Asha").Success?
      && var s4 := Dashboards.MarkPresent(s3, "Asha").value;
         && "STU001" in s4.attendance && "STU002" in s4.attendance
         && s4.attendance["STU001"] == Attendance(2, 2)
         && s4.attendance["STU002"] == Attendance(0, 0)
         && Dashboards.Percent(s4.attendance["STU001"]) == 100.0
  {
    AshaAndBeniRegistered();
    var s2 := AshaAndBeni();
    assert Auth.IsFirst(s2.students, 0, Dashboards.NamedMatches("Asha"));
    MarkedTwice(s2, "Asha", 0);
  }

  /** A student login with the right email and a wrong password is refused. */
  lemma WrongPasswordRefused()
    ensures Auth.Login(AshaAndBeni(), "asha@x", "wrong", StudentRole) == Failure(InvalidCredentials)
  {
    assert "wrong" != "pw" && "wrong" != "pw2";
  }

  /** With nobody registered the admin sees zero counts and an empty chart, and a faculty
      member cannot mark anyone present. */
  lemma EmptyStore()
    ensures Dashboards.AdminSummary(Initial()) == Dashboards.Summary(0, 0, 0)
    ensures Dashboards.AttendanceChart(Initial()) == []
    ensures Dashboards.MarkPresent(Initial(), "Asha") == Failure(EmptyRoster)
  {
  }
}
