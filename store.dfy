/** The persistent state behind the three repositories: the `students`,
    `courses` and `student_courses` tables, each in primary-key order, and the
    next key each table's identity column will hand out. `Tables` is its value;
    `Database` holds it as mutable fields, with the enrollment rows as
    `StudentCourse` objects. */
module Store {
  import opened Common
  import opened Entities

  datatype Tables = Tables(
    students: seq<Student>,
    courses: seq<Course>,
    enrollments: seq<Enrollment>,
    nextStudentId: nat,
    nextCourseId: nat,
    nextEnrollmentId: nat)

  /** Each table is kept in primary-key order. */
  predicate StudentKeysAscend(students: seq<Student>)
  {
    forall i, j :: 0 <= i < j < |students| ==> students[i].id < students[j].id
  }

  predicate CourseKeysAscend(courses: seq<Course>)
  {
    forall i, j :: 0 <= i < j < |courses| ==> courses[i].id < courses[j].id
  }

  predicate EnrollmentKeysAscend(rows: seq<Enrollment>)
  {
    forall i, j :: 0 <= i < j < |rows| ==> rows[i].id < rows[j].id
  }

  /** Keys ascend strictly, start at 1 and stay below the next key; emails are unique. */
  predicate StudentTableOk(students: seq<Student>, next: nat)
  {
    && StudentKeysAscend(students)
    && (forall i :: 0 <= i < |students| ==> 1 <= students[i].id < next)
    && (forall i, j :: 0 <= i < j < |students| ==> students[i].email != students[j].email)
  }

  /** Keys ascend strictly, start at 1 and stay below the next key; course codes are unique. */
  predicate CourseTableOk(courses: seq<Course>, next: nat)
  {
    && CourseKeysAscend(courses)
    && (forall i :: 0 <= i < |courses| ==> 1 <= courses[i].id < next)
    && (forall i, j :: 0 <= i < j < |courses| ==> courses[i].courseCode != courses[j].courseCode)
  }

  /** Keys ascend strictly and stay below the next key; every row refers to a
      student key and a course key that has been handed out. */
  predicate EnrollmentTableOk(rows: seq<Enrollment>, next: nat, nextStudent: nat, nextCourse: nat)
  {
    && EnrollmentKeysAscend(rows)
    && (forall i :: 0 <= i < |rows| ==> 1 <= rows[i].id < next)
    && (forall i :: 0 <= i < |rows| ==> rows[i].studentId < nextStudent && rows[i].courseId < nextCourse)
  }

  predicate WellFormed(t: Tables)
  {
    && 1 <= t.nextStudentId && 1 <= t.nextCourseId && 1 <= t.nextEnrollmentId
    && StudentTableOk(t.students, t.nextStudentId)
    && CourseTableOk(t.courses, t.nextCourseId)
    && EnrollmentTableOk(t.enrollments, t.nextEnrollmentId, t.nextStudentId, t.nextCourseId)
  }

  /** `studentRepository.findById`. */
  function FindStudent(students: seq<Student>, id: nat): Option<nat>
  {
    FirstIndex(students, (s: Student) => s.id == id)
  }

  /** `courseRepository.findById`. */
  function FindCourse(courses: seq<Course>, id: nat): Option<nat>
  {
    FirstIndex(courses, (c: Course) => c.id == id)
  }

  /** `studentCourseRepository.findById`. */
  function FindEnrollment(rows: seq<Enrollment>, id: nat): Option<nat>
  {
    FirstIndex(rows, (e: Enrollment) => e.id == id)
  }

  /** A record stored under a key no record has is found at the end. */
  lemma FindStudentAppend(students: seq<Student>, s: Student)
    requires forall i :: 0 <= i < |students| ==> students[i].id != s.id
    ensures FindStudent(students + [s], s.id) == Some(|students|)
  {
    var all := students + [s];
    var r := FindStudent(all, s.id);
    assert all[|students|].id == s.id;
    assert r.Some?;
    assert forall i :: 0 <= i < |students| ==> all[i].id != s.id;
    assert r.value >= |students|;
  }

  /** Rewriting the first record with a key, keeping the key, leaves it the first. */
  lemma FindStudentUpdate(students: seq<Student>, i: nat, s: Student)
    requires FindStudent(students, s.id) == Some(i)
    ensures FindStudent(students[i := s], s.id) == Some(i)
  {
    var all := students[i := s];
    var r := FindStudent(all, s.id);
    assert all[i].id == s.id;
    assert r.Some?;
    assert forall j :: 0 <= j < i ==> all[j] == students[j] && students[j].id != s.id;
    assert r.value >= i;
  }

  /** Removing one record keeps the table's keys ascending, in range and its emails unique. */
  lemma RemoveAtKeepsOrder(students: seq<Student>, i: nat)
    requires i < |students|
    ensures forall n :: StudentTableOk(students, n) ==> StudentTableOk(students[..i] + students[i + 1..], n)
    ensures StudentKeysAscend(students) ==>
      forall s :: s in students[..i] + students[i + 1..] <==> s in students && s.id != students[i].id
  {
    var rest := students[..i] + students[i + 1..];
    assert forall j :: 0 <= j < |rest| ==> rest[j] == students[if j < i then j else j + 1];
    assert students == students[..i] + [students[i]] + students[i + 1..];
  }

  lemma FindCourseAppend(courses: seq<Course>, c: Course)
    requires forall i :: 0 <= i < |courses| ==> courses[i].id != c.id
    ensures FindCourse(courses + [c], c.id) == Some(|courses|)
  {
    var all := courses + [c];
    var r := FindCourse(all, c.id);
    assert all[|courses|].id == c.id;
    assert r.Some?;
    assert forall i :: 0 <= i < |courses| ==> all[i].id != c.id;
    assert r.value >= |courses|;
  }

  lemma FindCourseUpdate(courses: seq<Course>, i: nat, c: Course)
    requires FindCourse(courses, c.id) == Some(i)
    ensures FindCourse(courses[i := c], c.id) == Some(i)
  {
    var all := courses[i := c];
    var r := FindCourse(all, c.id);
    assert all[i].id == c.id;
    assert r.Some?;
    assert forall j :: 0 <= j < i ==> all[j] == courses[j] && courses[j].id != c.id;
    assert r.value >= i;
  }

  /** Removing one course keeps the table's keys ascending, in range and its codes unique. */
  lemma RemoveCourseAtKeepsOrder(courses: seq<Course>, i: nat)
    requires i < |courses|
    ensures forall n :: CourseTableOk(courses, n) ==> CourseTableOk(courses[..i] + courses[i + 1..], n)
    ensures CourseKeysAscend(courses) ==>
      forall c :: c in courses[..i] + courses[i + 1..] <==> c in courses && c.id != courses[i].id
  {
    var rest := courses[..i] + courses[i + 1..];
    assert forall j :: 0 <= j < |rest| ==> rest[j] == courses[if j < i then j else j + 1];
    assert courses == courses[..i] + [courses[i]] + courses[i + 1..];
  }

  lemma FindEnrollmentUpdate(rows: seq<Enrollment>, i: nat, e: Enrollment)
    requires FindEnrollment(rows, e.id) == Some(i)
    ensures FindEnrollment(rows[i := e], e.id) == Some(i)
  {
    var all := rows[i := e];
    var r := FindEnrollment(all, e.id);
    assert all[i].id == e.id;
    assert r.Some?;
    assert forall j :: 0 <= j < i ==> all[j] == rows[j] && rows[j].id != e.id;
    assert r.value >= i;
  }

  /** The row values of a sequence of enrollment objects. */
  function Snapshots(objs: seq<StudentCourse>): (r: seq<Enrollment>)
    reads set o | o in objs
    ensures |r| == |objs|
    ensures forall i :: 0 <= i < |objs| ==> r[i] == objs[i].Snapshot()
  {
    if objs == [] then [] else [objs[0].Snapshot()] + Snapshots(objs[1..])
  }

  lemma SnapshotsAppend(objs: seq<StudentCourse>, o: StudentCourse)
    ensures Snapshots(objs + [o]) == Snapshots(objs) + [o.Snapshot()]
  {
    var all := objs + [o];
    assert forall i :: 0 <= i < |objs| ==> all[i] == objs[i];
  }

  lemma SnapshotsCons(o: StudentCourse, objs: seq<StudentCourse>)
    ensures Snapshots([o] + objs) == [o.Snapshot()] + Snapshots(objs)
  {
    var all := [o] + objs;
    assert forall i :: 0 <= i < |objs| ==> all[i + 1] == objs[i];
  }

  class Database {
    var students: seq<Student>
    var courses: seq<Course>
    var enrollments: seq<StudentCourse>
    var nextStudentId: nat
    var nextCourseId: nat
    var nextEnrollmentId: nat

    /** An empty store; every identity column starts at 1. */
    constructor ()
      ensures Valid()
      ensures Model() == Tables([], [], [], 1, 1, 1)
    {
      students, courses, enrollments := [], [], [];
      nextStudentId, nextCourseId, nextEnrollmentId := 1, 1, 1;
    }

    function Rows(): seq<Enrollment>
      reads this`enrollments, set o | o in enrollments
    {
      Snapshots(enrollments)
    }

    function Model(): Tables
      reads this, set o | o in enrollments
    {
      Tables(students, courses, Rows(), nextStudentId, nextCourseId, nextEnrollmentId)
    }

    ghost predicate Valid()
      reads this, set o | o in enrollments
    {
      WellFormed(Model())
    }
  }

  /** Distinct rows of a well-formed table are distinct objects, so a status
      written through one of them is not seen through another. */
  lemma DistinctObjects(db: Database, i: nat, j: nat)
    requires db.Valid()
    requires i < j < |db.enrollments|
    ensures db.enrollments[i] != db.enrollments[j]
  {
    assert db.Rows()[i].id < db.Rows()[j].id;
  }
}
