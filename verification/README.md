# College ERP record store, modelled in Dafny

The college ERP demo keeps everything in memory. It holds ordered lists of students,
faculty and admins, and maps keyed by student id for attendance, marks and fees. A
session holds at most one signed-in user. People register under one of three roles and
sign in with email, password and role. Each role then sees its own dashboard. Admins
see counts and an attendance chart. Faculty mark one student present. Students see
their attendance, marks and fees.

This project models that core as an immutable `Store` with pure transition functions:

- `Registration`: `RegisterAdmin`, `RegisterStudent` and `RegisterFaculty`. Each new
  record gets the identifier `PREFIX` followed by the list's length plus one,
  zero-padded to at least three digits (`STU001`, `FAC042`, `ADM1000`). Students also
  get a fresh attendance, marks and fees entry.
- `Text`: the faculty subjects field. Python's `split(",")` and `strip()` are modelled,
  and blank pieces are dropped.
- `Auth`: `Authenticate` scans one role's list for the first exact email and password
  match. `Login` and `Logout` are the session transitions, and `Route` is the main
  block's choice of page.
- `Dashboards`: `MarkPresent` bumps the first student with the chosen first name.
  `Percent` gives the attendance percentage. `AdminSummary` and `AttendanceChart` back
  the admin view, and `StudentView` backs the student view.
- `Ids` and `Decimal`: identifier formatting (`f"{prefix}{n:03d}"`) and reading it back.
- `Records`: the datatypes, the initial store, and the invariant `Valid`:
  - identifiers are sequential per role;
  - exactly the registered students have attendance, marks and fees entries;
  - `present <= total`;
  - `pending == total - paid`;
  - the signed-in user is a registered record.
- `Scenarios`: walk-throughs on concrete data (Asha and Beni), plus registration
  composed with the student dashboard.

Errors that the app shows as messages are `Failure` results. Examples are invalid
credentials and an empty roster. Two lookups that would raise in Python are also
`Failure` results: `next()` finding no student with the chosen first name
(`UnknownStudent`), and a student with no attendance, marks or fees entry
(`MissingRecord`). The missing entry cannot happen on a valid store, and
`MarkPresentValid` and `StudentViewValid` say so. The unknown first name is not ruled
out by the store invariant: in the app the select box offers only registered first
names. The admin chart does not return a `Failure`: `AttendanceChart` requires every
student's attendance entry, which is the dictionary lookup that would raise a
`KeyError`, and `AttendanceChartValid` shows that a valid store meets that requirement.

## Model

| member | source | states |
|---|---|---|
| Decimal.FromNatRoundTrip | ERP.py:52 | the decimal text of a number is all digits, has no superfluous leading zero and reads back as the number |
| Decimal.FormatPaddedRoundTrip | ERP.py:52 | `03d` padding reads back as the number; it is exactly the width when the number fits and the unpadded text, never truncated, when it does not |
| Ids.FormatIdRoundTrip | ERP.py:75 | an identifier is the prefix then at least three digits (exactly three below 1000), and decoding its numeric suffix gives back the sequence number |
| Ids.FormatIdInjective | ERP.py:103 | two identifiers of one role are equal exactly when their sequence numbers are |
| Ids.IssuedAt | ERP.py:75 | the k-th identifier issued for a role carries sequence number k + 1 |
| Ids.NextIdFresh | ERP.py:52 | the identifier built from the current count plus one is not among those already issued, all of which decode to smaller numbers |
| Text.LeadingSpace | ERP.py:111 | counts exactly the leading whitespace: all before it is whitespace, the next character is not |
| Text.TextEnd | ERP.py:111 | everything after the returned position is whitespace and the character before it is not |
| Text.Strip | ERP.py:111 | the stripped text is empty exactly when the input is all whitespace, otherwise starts and ends with non-whitespace, and uses only characters of the input |
| Text.StripSlice | ERP.py:111 | the stripped text is the input with a whitespace-only prefix and suffix cut off |
| Text.StripUnique | ERP.py:111 | any split of the input into whitespace, then a text that is empty or has no whitespace at either end, then whitespace, has that text as the stripped result, so the stripped text is determined |
| Text.Split | ERP.py:111 | splitting on a comma gives at least one piece, no piece holds a comma, and joining the pieces with commas gives back the input |
| Text.KeepTokensAreTokens | ERP.py:111 | every kept subject is non-empty with no whitespace at either end |
| Text.ParseSubjects | ERP.py:111 | every parsed subject is non-empty, has no leading or trailing whitespace and contains no comma |
| Text.ParseSubjectsAppend | ERP.py:111 | the subjects of `a,b` are those of `a` followed by those of `b`, so source order is kept |
| Text.ParseSubjectsSegment | ERP.py:111 | a comma-free input yields its stripped text, or nothing when it is blank |
| Text.ParseSubjectsEmpty | ERP.py:111 | no subjects are parsed exactly when the input holds only whitespace and commas; a blank input yields none |
| Records.Initial | ERP.py:10-20 | the session starts with empty lists, empty maps and no user |
| Records.InitialValid | ERP.py:10-20 | the initial store satisfies the store invariant |
| Records.ValidStudentSeeded | ERP.py:86-88 | in a valid store every registered student has attendance, marks and fees entries |
| Registration.RegisterAdmin | ERP.py:52-60 | appends exactly one admin with the given fields whose id is `ADM` and the old admin count plus one, zero-padded to three digits, and decodes back to that number, and leaves students, faculty, attendance, marks, fees and the session unchanged |
| Registration.RegisterStudent | ERP.py:75-88 | appends exactly one student whose id is `STU` and the old count plus one, zero-padded to three digits, and decodes back to that number, sets its attendance to 0/0, its marks to empty and its fees to 50000/0/50000, keeps every other entry, and leaves faculty, admins and the session unchanged |
| Registration.RegisterFaculty | ERP.py:103-113 | appends exactly one faculty record whose id is `FAC` and the old count plus one, zero-padded to three digits, and decodes back to that number, and whose subjects are the parsed subjects text, and leaves everything else unchanged |
| Registration.RegisterAdminValid | ERP.py:52-60 | on a valid store the new admin id is `ADM` plus the count plus one, differs from every existing admin id, and validity is preserved |
| Registration.RegisterFacultyValid | ERP.py:103-113 | on a valid store the new faculty id is fresh among faculty ids and validity is preserved |
| Registration.NextStudentIdFresh | ERP.py:75 | the next student id belongs to no student and has no attendance, marks or fees entry yet |
| Registration.SeedStudentValid | ERP.py:75-88 | appending a student with the next id and seeding its three entries keeps the store valid |
| Registration.RegisterStudentValid | ERP.py:75-88 | on a valid store student registration issues a fresh id, seeds only new keys and preserves validity, including that every student has all three entries |
| Registration.DistinctStudentIds | ERP.py:75 | different students of a valid store have different ids |
| Auth.FirstIndex | ERP.py:35-37 | the scan finds nothing exactly when no element matches, and otherwise the first matching position |
| Auth.IsFirstUnique | ERP.py:35-37 | there is only one first match |
| Auth.Authenticate | ERP.py:23-39 | searches only the list of the requested role; returns a record exactly when one there has equal email and password, and then the first such in insertion order, tagged with the role |
| Auth.AuthenticateFirstStudentWins | ERP.py:34-37 | among students sharing email and password, the first registered is the one signed in |
| Auth.Login | ERP.py:125-131 | from an anonymous session, sign-in fails with invalid credentials exactly when authentication finds nothing; on success the session holds the authenticated identity of the chosen role and no record changes |
| Auth.LoginValid | ERP.py:125-128 | a successful sign-in keeps the store valid, since the identity is a registered record |
| Auth.Logout | ERP.py:210-211 | logging out clears the session whatever the role and changes no record |
| Auth.LogoutValid | ERP.py:210-211 | logging out keeps the store valid |
| Auth.Route | ERP.py:197-219 | the navigation menu is shown exactly when nobody is signed in, and a signed-in user sees the dashboard of their own role |
| Auth.SessionRoutes | ERP.py:197-219 | after signing in with a role the dashboard of that role is shown; after a failed sign-in, or a sign-in followed by logout, the navigation menu is shown |
| Dashboards.Percent | ERP.py:146-147 | the percentage is 0 when no class was held, otherwise times the total it equals present times 100; it lies in [0, 100] when present <= total and is 100 when all were attended |
| Dashboards.MarkPresent | ERP.py:165-174 | it reports an empty roster exactly when there are no students; it reports an unknown student exactly when there are students but none has the first name; it reports a missing record exactly when the first student with that name has no attendance entry; it succeeds exactly when that student has an attendance entry, and then that student has present and total each one higher, and every other attendance entry and all other state are unchanged |
| Dashboards.MarkPresentValid | ERP.py:171-174 | on a valid store marking the first student with the name succeeds, bumps exactly that student's entry and keeps present <= total |
| Dashboards.LaterNamesakeUnmarked | ERP.py:169-171 | a student who shares the first name of an earlier student is never the one marked present |
| Dashboards.IncrementedValid | ERP.py:172-174 | a symmetric increment of one attendance entry keeps the store valid |
| Dashboards.Courses | ERP.py:140 | there are no more distinct courses than students |
| Dashboards.CoursesExact | ERP.py:140 | the distinct courses are exactly the courses some student takes |
| Dashboards.AdminSummary | ERP.py:138-140 | the admin sees the student and faculty counts and the number of distinct courses among the students, which is at most the student count and zero exactly when there are no students |
| Dashboards.AttendanceChart | ERP.py:143-149 | one value per student in registration order, each the student's attendance percentage, all within [0, 100] when attendance is bounded |
| Dashboards.AttendanceChartValid | ERP.py:145-149 | on a valid store every student's attendance entry exists, so the chart can be drawn, and its values lie in [0, 100] |
| Dashboards.StudentView | ERP.py:177-194 | the student dashboard succeeds exactly when the student's three entries exist and then shows course, semester, attendance, its percentage, marks and fees as stored |
| Dashboards.StudentViewValid | ERP.py:177-194 | the signed-in student of a valid store always gets a dashboard, with a percentage in [0, 100] and balanced fees |
| Scenarios.IdExamples | ERP.py:75 | the first two student ids are STU001 and STU002, faculty 42 is FAC042 and admin 1000 is ADM1000 |
| Scenarios.RegisterThenView | ERP.py:86-88 | a student viewed right after registering sees 0 of 0 classes, 0 percent, no marks and 50000 pending |
| Scenarios.AshaAndBeniRegistered | ERP.py:75-88 | registering Asha then Beni gives STU001 and STU002, Asha's fees are 50000/0/50000 and the store is valid |
| Scenarios.MarkedTwice | ERP.py:171-174 | marking the same student present twice adds two to present and to total and leaves every other entry alone |
| Scenarios.AshaMarkedTwice | ERP.py:171-174 | after Asha is marked present twice her attendance is 2 of 2, 100 percent, and Beni's is still 0 of 0 |
| Scenarios.WrongPasswordRefused | ERP.py:125-131 | a student login with the right email and a wrong password is refused with invalid credentials |
| Scenarios.EmptyStore | ERP.py:138-167 | with nobody registered the admin counts are 0, the chart is empty and marking present reports an empty roster |

## Left out

- Streamlit rendering is left out. That covers page configuration, titles, forms,
  widgets, `st.success`/`st.error`/`st.info` messages and `st.rerun`. The operations
  take the submitted field values as parameters and return the new store or an error.
- Persistence of `st.session_state` across reruns is left out. The store is one value
  passed from operation to operation.
- The pandas marks table and the matplotlib bar chart are left out. The model returns
  the marks map and the list of chart values.
- Floating point is left out. `Percent` is exact over the reals. `int(percent)` for the
  progress bar and the one-decimal formatting are not modelled, and IEEE rounding can
  make the displayed value differ from the exact ratio.
- The semester bounds 1 to 8 are enforced by the number widget. `RegisterStudent`
  takes them as a precondition.
- `Text.IsSpace` lists the characters that Python's `str.isspace` accepts. It is taken
  from the Unicode database, not derived from it.
- Role is a three-valued datatype, because the role select box offers only those three
  values. The `return None` that `authenticate` reaches for any other role string
  cannot happen, so it is not modelled.
- Login requires an anonymous session and Logout a signed-in one, because each button
  exists only on that side of the main block's branch.
- Mark values have no declared type, since no code path writes them. They are modelled
  as integers.
- Email uniqueness is not checked at registration, and the model keeps that. The first
  matching record signs in.
- Dashboards.AttendanceChart: a student with no attendance entry would make the app
  raise a `KeyError` while drawing the chart. The model requires every student's entry
  instead of modelling that crash, and `AttendanceChartValid` shows that a valid store
  always has them.
- Picking a student by first name is also kept as written. `LaterNamesakeUnmarked`
  states the consequence.
- The faculty sign-in guard is not a precondition of marking present. The app
  reaches that action only from the faculty dashboard, and `Route` models that dispatch.
