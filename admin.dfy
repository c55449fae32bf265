/** The admin service: enrolling a student in a course, unenrolling, changing an
    enrollment's status, and the enrollment statistics. The guard of enroll is
    what keeps at most one ACTIVE row per (student, course) pair; the lemmas
    below show which operations keep that invariant and which do not. The name
    of the signed-in admin is a parameter. */
module Admin {
  import opened Common
  import opened Entities
  import opened Store
  import R = StudentCourseRepository
  import Students
  import Courses

  /** The body of an enroll request; the notes are accepted and not stored. */
  datatype EnrollmentRequest = EnrollmentRequest(studentId: nat, courseId: nat, notes: string)

  /** Some stored student has key `id` and is active. */
  predicate StudentIsActive(t: Tables, id: nat)
  {
    exists i :: 0 <= i < |t.students| && t.students[i].id == id && t.students[i].active
  }

  /** Some stored course has key `id` and is active. */
  predicate CourseIsActive(t: Tables, id: nat)
  {
    exists i :: 0 <= i < |t.courses| && t.courses[i].id == id && t.courses[i].active
  }

  /** `enrollStudentToCourse`: refuses (false) unless the student exists and is
      active, the course exists and is active, and the pair has no ACTIVE row;
      otherwise appends an ACTIVE row recorded as enrolled by `admin`. The
      single-result lookup faults when the pair already has two ACTIVE rows. */
  function Enroll(t: Tables, req: EnrollmentRequest, admin: string): (r: (Result<bool>, Tables))
    ensures r.0 != Ok(true) ==> r.1 == t
    ensures r.0.Err? ==> r.0.fault == NonUniqueResult
  {
    var s, c := req.studentId, req.courseId;
    match FindStudent(t.students, s)
    case None => (Ok(false), t)
    case Some(i) =>
      if !t.students[i].active then (Ok(false), t)
      else match FindCourse(t.courses, c)
        case None => (Ok(false), t)
        case Some(j) =>
          if !t.courses[j].active then (Ok(false), t)
          else match R.FindActiveEnrollment(t.enrollments, s, c)
            case NonUnique => (Err(NonUniqueResult), t)
            case Single(_) => (Ok(false), t)
            case NoResult =>
              (Ok(true), t.(enrollments := t.enrollments + [Enrollment(t.nextEnrollmentId, s, c, admin, ACTIVE)],
                            nextEnrollmentId := t.nextEnrollmentId + 1))
  }

  /** In a well-formed store, enroll succeeds exactly when the student and the
      course exist and are active and the pair has no ACTIVE row; it faults
      exactly when those guards pass and the pair already has two ACTIVE rows. */
  lemma EnrollSucceedsIff(t: Tables, req: EnrollmentRequest, admin: string)
    requires WellFormed(t)
    ensures Enroll(t, req, admin).0 == Ok(true) <==>
      && StudentIsActive(t, req.studentId)
      && CourseIsActive(t, req.courseId)
      && forall k :: 0 <= k < |t.enrollments| ==> !R.IsActivePair(t.enrollments[k], req.studentId, req.courseId)
    ensures Enroll(t, req, admin).0.Err? <==>
      && StudentIsActive(t, req.studentId)
      && CourseIsActive(t, req.courseId)
      && R.FindActiveEnrollment(t.enrollments, req.studentId, req.courseId).NonUnique?
  {
    var s, c := req.studentId, req.courseId;
    match FindStudent(t.students, s)
    case None =>
    case Some(i) =>
      assert StudentIsActive(t, s) <==> t.students[i].active;
      match FindCourse(t.courses, c)
      case None =>
      case Some(j) =>
        assert CourseIsActive(t, c) <==> t.courses[j].active;
  }

  /** The student guard comes first: when the student is absent or inactive,
      enroll refuses with no change, whatever the course and the rows are,
      even when the pair's lookup would fault. */
  lemma EnrollRefusesInactiveStudent(t: Tables, req: EnrollmentRequest, admin: string)
    requires WellFormed(t)
    requires !StudentIsActive(t, req.studentId)
    ensures Enroll(t, req, admin) == (Ok(false), t)
  {
    match FindStudent(t.students, req.studentId)
    case None =>
    case Some(i) =>
      assert !t.students[i].active;
  }

  /** The course guard comes second: with an active student and an absent or
      inactive course, enroll refuses with no change, whatever the rows are. */
  lemma EnrollRefusesInactiveCourse(t: Tables, req: EnrollmentRequest, admin: string)
    requires WellFormed(t)
    requires StudentIsActive(t, req.studentId) && !CourseIsActive(t, req.courseId)
    ensures Enroll(t, req, admin) == (Ok(false), t)
  {
    var i := FindStudent(t.students, req.studentId).value;
    match FindCourse(t.courses, req.courseId)
    case None =>
    case Some(j) =>
      assert !t.courses[j].active;
  }

  /** A successful enroll appends one ACTIVE row, under the next key, for the
      pair and the admin, and changes nothing else. */
  lemma EnrollAppendsRow(t: Tables, req: EnrollmentRequest, admin: string)
    ensures var (r, t') := Enroll(t, req, admin);
      r == Ok(true) ==>
        && t'.enrollments == t.enrollments + [Enrollment(t.nextEnrollmentId, req.studentId, req.courseId, admin, ACTIVE)]
        && t'.nextEnrollmentId == t.nextEnrollmentId + 1
        && t'.students == t.students && t'.courses == t.courses
        && t'.nextStudentId == t.nextStudentId && t'.nextCourseId == t.nextCourseId
  {
  }

  /** Enroll keeps the store well formed and keeps at most one ACTIVE row per pair. */
  lemma EnrollPreservesInvariants(t: Tables, req: EnrollmentRequest, admin: string)
    requires WellFormed(t)
    ensures WellFormed(Enroll(t, req, admin).1)
    ensures R.AtMostOneActivePerPair(t.enrollments) ==> R.AtMostOneActivePerPair(Enroll(t, req, admin).1.enrollments)
  {
    var (r, t') := Enroll(t, req, admin);
    if r == Ok(true) {
      var e := Enrollment(t.nextEnrollmentId, req.studentId, req.courseId, admin, ACTIVE);
      assert t'.enrollments == t.enrollments + [e];
      var i := FindStudent(t.students, req.studentId).value;
      var j := FindCourse(t.courses, req.courseId).value;
      assert e.studentId < t.nextStudentId && e.courseId < t.nextCourseId;
      assert forall k :: 0 <= k < |t.enrollments| ==> !R.IsActivePair(t.enrollments[k], e.studentId, e.courseId);
    }
  }

  /** A successful enroll adds one to the student's and to the course's count
      of ACTIVE enrollments and leaves every other count as it was. */
  lemma EnrollCounts(t: Tables, req: EnrollmentRequest, admin: string, col: R.Column, k: nat)
    ensures var (r, t') := Enroll(t, req, admin);
      r == Ok(true) ==>
        R.CountActiveBy(t'.enrollments, col, k)
          == R.CountActiveBy(t.enrollments, col, k)
           + (if k == (match col case StudentColumn => req.studentId case CourseColumn => req.courseId) then 1 else 0)
  {
    var (r, t') := Enroll(t, req, admin);
    if r == Ok(true) {
      R.CountActiveByAppend(t.enrollments, Enrollment(t.nextEnrollmentId, req.studentId, req.courseId, admin, ACTIVE), col, k);
    }
  }

  /** Enrolling the same pair twice: the first call succeeds, the second is
      refused and leaves the store as the first left it. */
  lemma EnrollTwiceRefused(t: Tables, req: EnrollmentRequest, admin: string)
    requires Enroll(t, req, admin).0 == Ok(true)
    ensures var t1 := Enroll(t, req, admin).1;
      Enroll(t1, req, admin) == (Ok(false), t1)
  {
    var t1 := Enroll(t, req, admin).1;
    var n := |t.enrollments|;
    assert R.IsActivePair(t1.enrollments[n], req.studentId, req.courseId);
    assert forall k :: 0 <= k < n ==> t1.enrollments[k] == t.enrollments[k];
    assert R.FindActiveEnrollment(t1.enrollments, req.studentId, req.courseId) == R.Single(n);
  }

  /** `unenrollStudentFromCourse`: marks the pair's ACTIVE row DROPPED; false
      when there is none. The lookup faults when there are two. */
  function Unenroll(t: Tables, s: nat, c: nat): (r: (Result<bool>, Tables))
    ensures r.0 != Ok(true) ==> r.1 == t
    ensures r.0 == Ok(false) <==> forall k :: 0 <= k < |t.enrollments| ==> !R.IsActivePair(t.enrollments[k], s, c)
    ensures r.0.Err? ==> r.0.fault == NonUniqueResult
  {
    match R.FindActiveEnrollment(t.enrollments, s, c)
    case NoResult => (Ok(false), t)
    case NonUnique => (Err(NonUniqueResult), t)
    case Single(k) => (Ok(true), t.(enrollments := t.enrollments[k := t.enrollments[k].(status := DROPPED)]))
  }

  /** Under the invariant unenroll never faults; when it succeeds, exactly the
      pair's ACTIVE row becomes DROPPED, the pair has no ACTIVE row afterwards,
      and the other tables and the counters are unchanged. */
  lemma UnenrollDropsTheRow(t: Tables, s: nat, c: nat)
    requires R.AtMostOneActivePerPair(t.enrollments)
    ensures var (r, t') := Unenroll(t, s, c);
      && r.Ok?
      && t' == t.(enrollments := t'.enrollments)
      && |t'.enrollments| == |t.enrollments|
      && (forall k :: 0 <= k < |t.enrollments| ==>
            t'.enrollments[k] == if R.IsActivePair(t.enrollments[k], s, c)
                                 then t.enrollments[k].(status := DROPPED) else t.enrollments[k])
      && R.FindActiveEnrollment(t'.enrollments, s, c).NoResult?
  {
    R.AtMostOneActiveNeverFaults(t.enrollments, s, c);
  }

  /** Unenroll never consults the students or the courses: replacing either
      table gives the same answer and the same rows. */
  lemma UnenrollIgnoresRecords(t: Tables, s: nat, c: nat, students: seq<Student>, courses: seq<Course>)
    ensures var u := t.(students := students, courses := courses);
      && Unenroll(u, s, c).0 == Unenroll(t, s, c).0
      && Unenroll(u, s, c).1 == Unenroll(t, s, c).1.(students := students, courses := courses)
  {
  }

  /** Unenroll keeps the store well formed and keeps at most one ACTIVE row per pair. */
  lemma UnenrollPreservesInvariants(t: Tables, s: nat, c: nat)
    ensures WellFormed(t) ==> WellFormed(Unenroll(t, s, c).1)
    ensures R.AtMostOneActivePerPair(t.enrollments) ==> R.AtMostOneActivePerPair(Unenroll(t, s, c).1.enrollments)
  {
  }

  /** A successful unenroll takes one from the student's and from the course's
      count of ACTIVE enrollments and leaves every other count as it was. */
  lemma UnenrollCounts(t: Tables, s: nat, c: nat, col: R.Column, k: nat)
    ensures var (r, t') := Unenroll(t, s, c);
      r == Ok(true) ==>
        R.CountActiveBy(t'.enrollments, col, k)
          + (if k == (match col case StudentColumn => s case CourseColumn => c) then 1 else 0)
          == R.CountActiveBy(t.enrollments, col, k)
  {
    var (r, t') := Unenroll(t, s, c);
    if r == Ok(true) {
      var i := R.FindActiveEnrollment(t.enrollments, s, c).index;
      R.CountActiveByUpdate(t.enrollments, i, t.enrollments[i].(status := DROPPED), col, k);
    }
  }

  /** Enrolling a pair that had no ACTIVE row and then unenrolling it leaves
      every count of ACTIVE enrollments as it was before. */
  lemma EnrollThenUnenrollRestoresCounts(t: Tables, req: EnrollmentRequest, admin: string, col: R.Column, k: nat)
    requires Enroll(t, req, admin).0 == Ok(true)
    ensures var t1 := Enroll(t, req, admin).1;
      var (r2, t2) := Unenroll(t1, req.studentId, req.courseId);
      r2 == Ok(true) && R.CountActiveBy(t2.enrollments, col, k) == R.CountActiveBy(t.enrollments, col, k)
  {
    var t1 := Enroll(t, req, admin).1;
    var n := |t.enrollments|;
    assert R.IsActivePair(t1.enrollments[n], req.studentId, req.courseId);
    assert forall j :: 0 <= j < n ==> t1.enrollments[j] == t.enrollments[j];
    assert R.FindActiveEnrollment(t1.enrollments, req.studentId, req.courseId) == R.Single(n);
    EnrollCounts(t, req, admin, col, k);
    UnenrollCounts(t1, req.studentId, req.courseId, col, k);
  }

  /** `changeEnrollmentStatus`: sets the status of the row with key `id`,
      whatever it was; false when there is no such row. */
  function ChangeStatus(t: Tables, id: nat, status: EnrollmentStatus): (r: (bool, Tables))
    ensures r.0 <==> exists k :: 0 <= k < |t.enrollments| && t.enrollments[k].id == id
    ensures !r.0 ==> r.1 == t
  {
    match FindEnrollment(t.enrollments, id)
    case None => (false, t)
    case Some(k) => (true, t.(enrollments := t.enrollments[k := t.enrollments[k].(status := status)]))
  }

  /** A status change rewrites only the status of the row with key `id`; the
      store stays well formed, and the new status is what a lookup by key reads. */
  lemma ChangeStatusRewritesOneRow(t: Tables, id: nat, status: EnrollmentStatus)
    requires WellFormed(t)
    ensures var (found, t') := ChangeStatus(t, id, status);
      && t' == t.(enrollments := t'.enrollments)
      && |t'.enrollments| == |t.enrollments|
      && (forall k :: 0 <= k < |t.enrollments| ==>
            t'.enrollments[k] == if t.enrollments[k].id == id
                                 then t.enrollments[k].(status := status) else t.enrollments[k])
      && (found ==> exists k :: FindEnrollment(t'.enrollments, id) == Some(k) && t'.enrollments[k].status == status)
      && WellFormed(t')
  {
    match FindEnrollment(t.enrollments, id)
    case None =>
    case Some(k) =>
      FindEnrollmentUpdate(t.enrollments, k, t.enrollments[k].(status := status));
  }

  /** One student and one course; the pair has a DROPPED row and an ACTIVE one. */
  function ReactivationExample(): Tables
  {
    Tables([Student(1, "Ann", "ann@uni", "1", true)],
           [Course(1, "Logic", "", "LOG101", 3, Decimal(0, 2), true)],
           [Enrollment(1, 1, 1, "admin", DROPPED), Enrollment(2, 1, 1, "admin", ACTIVE)],
           2, 2, 3)
  }

  /** The same store after its DROPPED row was set back to ACTIVE. */
  function ReactivatedExample(): Tables
  {
    Tables([Student(1, "Ann", "ann@uni", "1", true)],
           [Course(1, "Logic", "", "LOG101", 3, Decimal(0, 2), true)],
           [Enrollment(1, 1, 1, "admin", ACTIVE), Enrollment(2, 1, 1, "admin", ACTIVE)],
           2, 2, 3)
  }

  /** Both stores of the example are well formed. */
  lemma ReactivationExampleWellFormed()
    ensures WellFormed(ReactivationExample()) && WellFormed(ReactivatedExample())
  {
  }

  /** The same student and course before any enrollment. */
  function ReactivationStart(): Tables
  {
    Tables([Student(1, "Ann", "ann@uni", "1", true)],
           [Course(1, "Logic", "", "LOG101", 3, Decimal(0, 2), true)],
           [], 2, 2, 1)
  }

  /** The example store is what the services themselves produce: enrolling Ann
      in Logic, unenrolling her and enrolling her again all succeed and leave
      the DROPPED row followed by the new ACTIVE one. */
  lemma ReenrollmentReachesExample()
    ensures var req := EnrollmentRequest(1, 1, "");
      var (r1, t1) := Enroll(ReactivationStart(), req, "admin");
      var (r2, t2) := Unenroll(t1, 1, 1);
      var (r3, t3) := Enroll(t2, req, "admin");
      r1 == Ok(true) && r2 == Ok(true) && r3 == Ok(true) && t3 == ReactivationExample()
  {
    var req := EnrollmentRequest(1, 1, "");
    var t0 := ReactivationStart();
    assert FindStudent(t0.students, 1) == Some(0);
    assert FindCourse(t0.courses, 1) == Some(0);
    assert R.FindActiveEnrollment(t0.enrollments, 1, 1) == R.NoResult;
    var t1 := t0.(enrollments := [Enrollment(1, 1, 1, "admin", ACTIVE)], nextEnrollmentId := 2);
    assert t0.students[0].active && t0.courses[0].active;
    assert Enroll(t0, req, "admin").0 == Ok(true);
    assert Enroll(t0, req, "admin").1.enrollments == t1.enrollments;
    assert Enroll(t0, req, "admin") == (Ok(true), t1);
    assert R.IsActivePair(t1.enrollments[0], 1, 1);
    assert R.FindActiveEnrollment(t1.enrollments, 1, 1) == R.Single(0);
    var t2 := t1.(enrollments := [Enrollment(1, 1, 1, "admin", DROPPED)]);
    assert t1.enrollments[0 := t1.enrollments[0].(status := DROPPED)] == t2.enrollments;
    assert Unenroll(t1, 1, 1) == (Ok(true), t2);
    assert !R.IsActivePair(t2.enrollments[0], 1, 1);
    assert R.FindActiveEnrollment(t2.enrollments, 1, 1) == R.NoResult;
    assert Enroll(t2, req, "admin").0 == Ok(true);
    assert Enroll(t2, req, "admin").1.enrollments == t2.enrollments + [Enrollment(2, 1, 1, "admin", ACTIVE)];
    assert t2.enrollments + [Enrollment(2, 1, 1, "admin", ACTIVE)] == ReactivationExample().enrollments;
    assert Enroll(t2, req, "admin") == (Ok(true), ReactivationExample());
  }

  /** Unlike enroll, a status change does not keep the invariant: setting a
      DROPPED row back to ACTIVE while the pair has another ACTIVE row leaves
      two ACTIVE rows for the pair in a store that is otherwise well formed. */
  lemma ChangeStatusCanBreakInvariant()
    ensures R.AtMostOneActivePerPair(ReactivationExample().enrollments)
    ensures ChangeStatus(ReactivationExample(), 1, ACTIVE) == (true, ReactivatedExample())
    ensures !R.AtMostOneActivePerPair(ReactivatedExample().enrollments)
  {
    var t := ReactivationExample();
    assert FindEnrollment(t.enrollments, 1) == Some(0);
    var t' := ReactivatedExample();
    assert t.enrollments[0 := t.enrollments[0].(status := ACTIVE)] == t'.enrollments;
    assert R.IsActivePair(t'.enrollments[0], 1, 1) && R.IsActivePair(t'.enrollments[1], 1, 1);
  }

  /** Once the pair has two ACTIVE rows, both enroll and unenroll of that pair
      fault in the single-result lookup. */
  lemma BrokenInvariantFaults()
    ensures Enroll(ReactivatedExample(), EnrollmentRequest(1, 1, ""), "admin").0 == Err(NonUniqueResult)
    ensures Unenroll(ReactivatedExample(), 1, 1).0 == Err(NonUniqueResult)
  {
    var t := ReactivatedExample();
    assert R.IsActivePair(t.enrollments[0], 1, 1) && R.IsActivePair(t.enrollments[1], 1, 1);
    assert R.FindActiveEnrollment(t.enrollments, 1, 1).NonUnique?;
    assert FindStudent(t.students, 1) == Some(0);
    assert FindCourse(t.courses, 1) == Some(0);
  }

  /** The statistics body. */
  datatype StudentWithMaxCourses = StudentWithMaxCourses(studentId: nat, studentName: string, studentEmail: string, coursesCount: nat)
  datatype CourseWithMaxStudents = CourseWithMaxStudents(courseId: nat, courseName: string, courseCode: string, studentsCount: nat)
  datatype StatsResponse = StatsResponse(
    studentWithMaxCourses: Option<StudentWithMaxCourses>,
    courseWithMaxStudents: Option<CourseWithMaxStudents>,
    totalActiveStudents: nat,
    totalActiveCourses: nat,
    totalActiveEnrollments: nat)

  /** The "student with max courses" entry: the key and count the group-by
      query reports, with the name and email of that student, reported only
      when the query returns a row and a student with that key still exists.
      The count is the student's number of ACTIVE rows and no key has more. */
  function MaxStudentEntry(t: Tables): (m: Option<StudentWithMaxCourses>)
    ensures m.None? <==>
      R.FindByStatus(t.enrollments, ACTIVE) == [] || FindStudent(t.students, R.FindStudentWithMaxEnrollments(t.enrollments).value.0).None?
    ensures m.Some? ==>
      && 1 <= m.value.coursesCount <= |R.FindByStatus(t.enrollments, ACTIVE)|
      && m.value.coursesCount == R.CountActiveEnrollmentsByStudent(t.enrollments, m.value.studentId)
      && (forall k :: R.CountActiveEnrollmentsByStudent(t.enrollments, k) <= m.value.coursesCount)
      && exists i :: 0 <= i < |t.students| && t.students[i].id == m.value.studentId
           && t.students[i].name == m.value.studentName && t.students[i].email == m.value.studentEmail
  {
    match R.FindStudentWithMaxEnrollments(t.enrollments)
    case None => None
    case Some((id, count)) =>
      match FindStudent(t.students, id)
      case None => None
      case Some(i) => Some(StudentWithMaxCourses(id, t.students[i].name, t.students[i].email, count))
  }

  /** The "course with max students" entry, symmetrically, with the course's
      name and code. */
  function MaxCourseEntry(t: Tables): (m: Option<CourseWithMaxStudents>)
    ensures m.None? <==>
      R.FindByStatus(t.enrollments, ACTIVE) == [] || FindCourse(t.courses, R.FindCourseWithMaxEnrollments(t.enrollments).value.0).None?
    ensures m.Some? ==>
      && 1 <= m.value.studentsCount <= |R.FindByStatus(t.enrollments, ACTIVE)|
      && m.value.studentsCount == R.CountActiveEnrollmentsByCourse(t.enrollments, m.value.courseId)
      && (forall k :: R.CountActiveEnrollmentsByCourse(t.enrollments, k) <= m.value.studentsCount)
      && exists i :: 0 <= i < |t.courses| && t.courses[i].id == m.value.courseId
           && t.courses[i].name == m.value.courseName && t.courses[i].courseCode == m.value.courseCode
  {
    match R.FindCourseWithMaxEnrollments(t.enrollments)
    case None => None
    case Some((id, count)) =>
      match FindCourse(t.courses, id)
      case None => None
      case Some(j) => Some(CourseWithMaxStudents(id, t.courses[j].name, t.courses[j].courseCode, count))
  }

  /** `getEnrollmentStats`: the number of active students, of active courses
      and of ACTIVE rows, and the two maximum entries. */
  function GetEnrollmentStats(t: Tables): (r: StatsResponse)
    ensures r.totalActiveStudents == |Students.FlagIndices(t.students, true)|
    ensures r.totalActiveCourses == |Courses.FlagIndices(t.courses, true)|
    ensures r.totalActiveEnrollments == |R.StatusIndices(t.enrollments, ACTIVE)|
    ensures r.studentWithMaxCourses == MaxStudentEntry(t) && r.courseWithMaxStudents == MaxCourseEntry(t)
  {
    Students.WhereActiveCount(t.students, true);
    Courses.WhereActiveCount(t.courses, true);
    StatsResponse(MaxStudentEntry(t), MaxCourseEntry(t),
                  |Students.Where(t.students, Students.ActiveIs(true))|,
                  |Courses.Where(t.courses, Courses.ActiveIs(true))|,
                  |R.FindByStatus(t.enrollments, ACTIVE)|)
  }

  /** An empty store reports no maxima and zero totals. */
  lemma StatsOfEmptyStore()
    ensures GetEnrollmentStats(Tables([], [], [], 1, 1, 1)) == StatsResponse(None, None, 0, 0, 0)
  {
  }

  /** Ann takes Logic and Algebra, Ben takes Logic, and Ben's DROPPED row in
      Algebra is not counted. */
  function StatsExampleTables(): Tables
  {
    Tables([Student(1, "Ann", "ann@uni", "1", true), Student(2, "Ben", "ben@uni", "2", true)],
           [Course(1, "Logic", "", "LOG101", 3, Decimal(0, 2), true),
            Course(2, "Algebra", "", "ALG101", 3, Decimal(0, 2), true)],
           [Enrollment(1, 1, 1, "admin", ACTIVE), Enrollment(2, 1, 2, "admin", ACTIVE),
            Enrollment(3, 2, 1, "admin", ACTIVE), Enrollment(4, 2, 2, "admin", DROPPED)],
           3, 3, 5)
  }

  /** The ACTIVE counts of that store, key by key, for either column. */
  lemma StatsExampleCounts(col: R.Column)
    ensures var rows := StatsExampleTables().enrollments;
      && R.CountActiveBy(rows, col, 1) == 2 && R.CountActiveBy(rows, col, 2) == 1
  {
    var rows := StatsExampleTables().enrollments;
    assert rows[..3] == rows[..2] + [rows[2]];
    assert rows[..2] == rows[..1] + [rows[1]];
    assert rows[..1] == [] + [rows[0]];
    assert rows == rows[..3] + [rows[3]];
    forall k | k == 1 || k == 2 ensures R.CountActiveBy(rows, col, k)
        == (if R.ActiveFor(rows[0], col, k) then 1 else 0) + (if R.ActiveFor(rows[1], col, k) then 1 else 0)
         + (if R.ActiveFor(rows[2], col, k) then 1 else 0)
    {
      R.CountActiveByAppend([], rows[0], col, k);
      R.CountActiveByAppend(rows[..1], rows[1], col, k);
      R.CountActiveByAppend(rows[..2], rows[2], col, k);
      R.CountActiveByAppend(rows[..3], rows[3], col, k);
    }
  }

  lemma StatsExampleActiveRows()
    ensures var rows := StatsExampleTables().enrollments;
      R.FindByStatus(rows, ACTIVE) == rows[..3]
  {
    var rows := StatsExampleTables().enrollments;
    assert rows[..1][..0] == [];
    assert R.FindByStatus(rows[..1], ACTIVE) == [rows[0]];
    assert rows[..2][..1] == rows[..1];
    assert R.FindByStatus(rows[..2], ACTIVE) == rows[..2];
    assert rows[..3][..2] == rows[..2];
    assert R.FindByStatus(rows[..3], ACTIVE) == rows[..3];
    assert rows[..3] == rows[..|rows| - 1];
  }

  lemma StatsExampleStudentMax()
    ensures MaxStudentEntry(StatsExampleTables()) == Some(StudentWithMaxCourses(1, "Ann", "ann@uni", 2))
  {
    var t := StatsExampleTables();
    var rows := t.enrollments;
    StatsExampleCounts(R.StudentColumn);
    assert R.MaxAmong(rows, R.StudentColumn, 1) == Some((1, 2));
    assert R.MaxAmong(rows, R.StudentColumn, 2) == Some((1, 2));
    assert R.MaxAmong(rows, R.StudentColumn, 3) == Some((1, 2));
    assert R.MaxAmong(rows, R.StudentColumn, 4) == Some((1, 2));
    assert FindStudent(t.students, 1) == Some(0);
  }

  lemma StatsExampleCourseMax()
    ensures MaxCourseEntry(StatsExampleTables()) == Some(CourseWithMaxStudents(1, "Logic", "LOG101", 2))
  {
    var t := StatsExampleTables();
    var rows := t.enrollments;
    StatsExampleCounts(R.CourseColumn);
    assert R.MaxAmong(rows, R.CourseColumn, 1) == Some((1, 2));
    assert R.MaxAmong(rows, R.CourseColumn, 2) == Some((1, 2));
    assert R.MaxAmong(rows, R.CourseColumn, 3) == Some((1, 2));
    assert R.MaxAmong(rows, R.CourseColumn, 4) == Some((1, 2));
    assert FindCourse(t.courses, 1) == Some(0);
  }

  /** In that store Ann is the student with the most courses (2), Logic the
      course with the most students (2), and there are three ACTIVE rows. */
  lemma StatsExample()
    ensures GetEnrollmentStats(StatsExampleTables()).studentWithMaxCourses == Some(StudentWithMaxCourses(1, "Ann", "ann@uni", 2))
    ensures GetEnrollmentStats(StatsExampleTables()).courseWithMaxStudents == Some(CourseWithMaxStudents(1, "Logic", "LOG101", 2))
    ensures GetEnrollmentStats(StatsExampleTables()).totalActiveEnrollments == 3
  {
    StatsExampleActiveRows();
    StatsExampleStudentMax();
    StatsExampleCourseMax();
  }

  /** The service methods. Enroll creates a `StudentCourse` object and saves it
      under the next key; unenroll and the status change write the status of
      the one stored object in place. */

  method EnrollStudentToCourse(db: Database, req: EnrollmentRequest, admin: string) returns (r: Result<bool>)
    requires db.Valid()
    modifies db
    ensures db.Valid()
    ensures (r, db.Model()) == Enroll(old(db.Model()), req, admin)
  {
    ghost var t := db.Model();
    assert WellFormed(Enroll(t, req, admin).1) by { EnrollPreservesInvariants(t, req, admin); }
    var s, c := req.studentId, req.courseId;
    var student := FindStudent(db.students, s);
    if student.None? || !db.students[student.value].active {
      assert Enroll(t, req, admin) == (Ok(false), t);
      return Ok(false);
    }
    var course := FindCourse(db.courses, c);
    if course.None? || !db.courses[course.value].active {
      assert Enroll(t, req, admin) == (Ok(false), t);
      return Ok(false);
    }
    var existing := R.FindActiveEnrollment(db.Rows(), s, c);
    if existing.NonUnique? {
      return Err(NonUniqueResult);
    }
    if existing.Single? {
      return Ok(false);
    }
    Save(db, s, c, admin);
    r := Ok(true);
    assert db.Model() == Enroll(t, req, admin).1;
  }

  /** Builds the enrollment object and marks it ACTIVE; the store then gives
      it key `id`. */
  method NewEnrollment(s: nat, c: nat, admin: string, id: nat) returns (e: StudentCourse)
    ensures fresh(e)
    ensures e.Snapshot() == Enrollment(id, s, c, admin, ACTIVE)
  {
    e := new StudentCourse(s, c, admin);
    e.SetStatus(ACTIVE);
    e.id := id;
  }

  /** Saves a new enrollment: the store hands out the next key and appends the row. */
  method Save(db: Database, s: nat, c: nat, admin: string)
    modifies db
    ensures db.Rows() == old(db.Rows()) + [Enrollment(old(db.nextEnrollmentId), s, c, admin, ACTIVE)]
    ensures db.nextEnrollmentId == old(db.nextEnrollmentId) + 1
    ensures db.students == old(db.students) && db.courses == old(db.courses)
    ensures db.nextStudentId == old(db.nextStudentId) && db.nextCourseId == old(db.nextCourseId)
  {
    var enrollment := NewEnrollment(s, c, admin, db.nextEnrollmentId);
    SnapshotsAppend(db.enrollments, enrollment);
    db.enrollments := db.enrollments + [enrollment];
    db.nextEnrollmentId := db.nextEnrollmentId + 1;
  }

  method UnenrollStudentFromCourse(db: Database, s: nat, c: nat) returns (r: Result<bool>)
    requires db.Valid()
    modifies set o | o in db.enrollments
    ensures db.Valid()
    ensures (r, db.Model()) == Unenroll(old(db.Model()), s, c)
  {
    ghost var t := db.Model();
    assert WellFormed(Unenroll(t, s, c).1) by { UnenrollPreservesInvariants(t, s, c); }
    match R.FindActiveEnrollment(db.Rows(), s, c)
    case NoResult =>
      r := Ok(false);
    case NonUnique =>
      r := Err(NonUniqueResult);
    case Single(k) =>
      WriteStatus(db, k, DROPPED);
      r := Ok(true);
  }

  method ChangeEnrollmentStatus(db: Database, id: nat, status: EnrollmentStatus) returns (found: bool)
    requires db.Valid()
    modifies set o | o in db.enrollments
    ensures db.Valid()
    ensures (found, db.Model()) == ChangeStatus(old(db.Model()), id, status)
  {
    ghost var t := db.Model();
    assert WellFormed(ChangeStatus(t, id, status).1) by { ChangeStatusRewritesOneRow(t, id, status); }
    match FindEnrollment(db.Rows(), id)
    case None =>
      found := false;
    case Some(k) =>
      WriteStatus(db, k, status);
      found := true;
  }

  /** Sets the status of the `k`-th stored enrollment object; the other rows,
      being other objects, do not change. */
  method WriteStatus(db: Database, k: nat, status: EnrollmentStatus)
    requires db.Valid()
    requires k < |db.enrollments|
    modifies db.enrollments[k]
    ensures db.Rows() == old(db.Rows())[k := old(db.Rows())[k].(status := status)]
  {
    var target := db.enrollments[k];
    forall j | 0 <= j < |db.enrollments| && j != k ensures db.enrollments[j] != target {
      if j < k { DistinctObjects(db, j, k); } else { DistinctObjects(db, k, j); }
    }
    target.SetStatus(status);
  }
}
