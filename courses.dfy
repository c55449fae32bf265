/** The course service: listings, lookups and searches over the course table,
    and create / update / delete / activate / deactivate. Deleting a course
    also deletes its enrollment rows, because the course owns them (the
    association cascades every operation). */
module Courses {
  import opened Common
  import opened Entities
  import opened Store
  import R = StudentCourseRepository

  /** The request and response body of the course endpoints; a `null` field is `None`. */
  datatype CourseDTO = CourseDTO(
    id: Option<nat>,
    name: string,
    description: string,
    courseCode: string,
    credits: int,
    fee: Decimal,
    active: Option<bool>,
    enrolledStudentsCount: Option<int>)

  /** `convertToDTO`: the stored fields plus the number of ACTIVE enrollments,
      narrowed to an int. */
  function ConvertToDTO(c: Course, rows: seq<Enrollment>): CourseDTO
  {
    CourseDTO(Some(c.id), c.name, c.description, c.courseCode, c.credits, c.fee, Some(c.active),
              Some(IntValue(R.CountActiveEnrollmentsByCourse(rows, c.id))))
  }

  /** `convertToEntity`, with the key the identity column hands out on save.
      An unset `active` is stored as true. */
  function ConvertToEntity(dto: CourseDTO, id: nat): Course
  {
    Course(id, dto.name, dto.description, dto.courseCode, dto.credits, dto.fee,
           if dto.active.Some? then dto.active.value else true)
  }

  function ToDTOs(courses: seq<Course>, rows: seq<Enrollment>): (r: seq<CourseDTO>)
    ensures |r| == |courses|
    ensures forall i :: 0 <= i < |courses| ==> r[i] == ConvertToDTO(courses[i], rows)
  {
    if courses == [] then [] else [ConvertToDTO(courses[0], rows)] + ToDTOs(courses[1..], rows)
  }

  /** The derived queries of the course repository that the service calls:
      `findByActiveTrue`, `findByActiveFalse` and `findByNameContainingIgnoreCase`. */
  datatype CourseQuery = ActiveIs(flag: bool) | NameContains(fragment: string)

  predicate Matches(c: Course, q: CourseQuery)
  {
    match q
    case ActiveIs(flag) => c.active == flag
    case NameContains(fragment) => ContainsIgnoreCase(c.name, fragment)
  }

  /** The rows of the table satisfying `q`, in table order. */
  function Where(courses: seq<Course>, q: CourseQuery): (r: seq<Course>)
    ensures |r| <= |courses|
    ensures forall c :: c in r <==> c in courses && Matches(c, q)
  {
    if courses == [] then []
    else (if Matches(courses[0], q) then [courses[0]] else []) + Where(courses[1..], q)
  }

  /** `getAllCourses`. */
  function GetAllCourses(t: Tables): seq<CourseDTO>
  {
    ToDTOs(t.courses, t.enrollments)
  }

  /** `getActiveCourses`. */
  function GetActiveCourses(t: Tables): seq<CourseDTO>
  {
    ToDTOs(Where(t.courses, ActiveIs(true)), t.enrollments)
  }

  /** `getInactiveCourses`. */
  function GetInactiveCourses(t: Tables): seq<CourseDTO>
  {
    ToDTOs(Where(t.courses, ActiveIs(false)), t.enrollments)
  }

  /** `getCourseById`: the record with that key, if there is one. */
  function GetCourseById(t: Tables, id: nat): (r: Option<CourseDTO>)
    ensures r.None? <==> forall i :: 0 <= i < |t.courses| ==> t.courses[i].id != id
    ensures r.Some? ==> r.value.id == Some(id) && r.value in GetAllCourses(t)
  {
    match FindCourse(t.courses, id)
    case None => None
    case Some(i) => Some(ConvertToDTO(t.courses[i], t.enrollments))
  }

  /** `getCourseByCourseCode`: the record with that code, if there is one. */
  function GetCourseByCourseCode(t: Tables, code: string): (r: Option<CourseDTO>)
    ensures r.None? <==> forall i :: 0 <= i < |t.courses| ==> t.courses[i].courseCode != code
    ensures r.Some? ==> r.value.courseCode == code && r.value in GetAllCourses(t)
  {
    match FirstIndex(t.courses, (c: Course) => c.courseCode == code)
    case None => None
    case Some(i) => Some(ConvertToDTO(t.courses[i], t.enrollments))
  }

  /** `searchCoursesByName`: exactly the courses whose name contains `q`,
      ignoring case. */
  function SearchCoursesByName(t: Tables, q: string): (r: seq<CourseDTO>)
    ensures forall d :: d in r ==> ContainsIgnoreCase(d.name, q) && d in GetAllCourses(t)
    ensures forall c :: c in t.courses && ContainsIgnoreCase(c.name, q) ==>
      ConvertToDTO(c, t.enrollments) in r
  {
    var found := Where(t.courses, NameContains(q));
    var r := ToDTOs(found, t.enrollments);
    forall d | d in r ensures ContainsIgnoreCase(d.name, q) && d in GetAllCourses(t) {
      var i :| 0 <= i < |r| && r[i] == d;
      assert found[i] in t.courses;
      var j :| 0 <= j < |t.courses| && t.courses[j] == found[i];
      assert GetAllCourses(t)[j] == d;
    }
    forall c | c in t.courses && ContainsIgnoreCase(c.name, q) ensures ConvertToDTO(c, t.enrollments) in r {
      assert c in found;
      var i :| 0 <= i < |found| && found[i] == c;
      assert r[i] == ConvertToDTO(c, t.enrollments);
    }
    r
  }

  /** `getEnrolledStudentsCount`. */
  function GetEnrolledStudentsCount(t: Tables, id: nat): nat
  {
    R.CountActiveEnrollmentsByCourse(t.enrollments, id)
  }

  /** The count the service reports for a course is the number of ACTIVE rows
      of that course; a record's `enrolledStudentsCount` is the same number,
      unless it does not fit in an int. */
  lemma EnrolledCountIsActiveRows(t: Tables, c: Course)
    ensures GetEnrolledStudentsCount(t, c.id) == |R.ActiveIndices(t.enrollments, R.CourseColumn, c.id)|
    ensures GetEnrolledStudentsCount(t, c.id) <= INT_MAX ==>
      ConvertToDTO(c, t.enrollments).enrolledStudentsCount == Some(GetEnrolledStudentsCount(t, c.id))
  {
    R.CountActiveByIsCardinality(t.enrollments, R.CourseColumn, c.id);
  }

  /** The positions of the courses whose active flag is `flag`. */
  ghost function FlagIndices(courses: seq<Course>, flag: bool): set<nat>
  {
    set i: nat | i < |courses| && courses[i].active == flag
  }

  lemma FlagIndicesSnoc(courses: seq<Course>, flag: bool)
    requires courses != []
    ensures FlagIndices(courses, flag)
         == FlagIndices(courses[..|courses| - 1], flag)
          + (if courses[|courses| - 1].active == flag then {|courses| - 1} else {})
    ensures |courses| - 1 !in FlagIndices(courses[..|courses| - 1], flag)
  {
    var n := |courses| - 1;
    var init := courses[..n];
    forall i: nat | i < n ensures init[i] == courses[i] { }
  }

  /** A query over two tables in sequence is the two answers in sequence. */
  lemma {:induction false} WhereAppend(a: seq<Course>, b: seq<Course>, q: CourseQuery)
    ensures Where(a + b, q) == Where(a, q) + Where(b, q)
  {
    if a != [] {
      assert (a + b)[1..] == a[1..] + b;
      WhereAppend(a[1..], b, q);
    } else {
      assert a + b == b;
    }
  }

  /** The active (inactive) query returns one record per course with that flag,
      so its size is the number of those records. */
  lemma {:induction false} WhereActiveCount(courses: seq<Course>, flag: bool)
    ensures |Where(courses, ActiveIs(flag))| == |FlagIndices(courses, flag)|
    decreases |courses|
  {
    if courses != [] {
      var n := |courses| - 1;
      assert courses == courses[..n] + [courses[n]];
      WhereAppend(courses[..n], [courses[n]], ActiveIs(flag));
      assert [courses[n]][1..] == [];
      WhereActiveCount(courses[..n], flag);
      FlagIndicesSnoc(courses, flag);
    }
  }

  lemma {:induction false} WherePartition(courses: seq<Course>)
    ensures |Where(courses, ActiveIs(true))| + |Where(courses, ActiveIs(false))| == |courses|
  {
    if courses != [] {
      WherePartition(courses[1..]);
    }
  }

  /** A record is listed by the active (inactive) query exactly when it is in
      the full listing and its active flag is true (false). */
  lemma {:induction false} WhereActiveMember(courses: seq<Course>, rows: seq<Enrollment>, flag: bool, d: CourseDTO)
    ensures d in ToDTOs(Where(courses, ActiveIs(flag)), rows) <==> d in ToDTOs(courses, rows) && d.active == Some(flag)
  {
    if courses != [] {
      var c, rest := courses[0], courses[1..];
      WhereActiveMember(rest, rows, flag, d);
      var part := Where(rest, ActiveIs(flag));
      var head := ConvertToDTO(c, rows);
      var all := ToDTOs(courses, rows);
      assert all == [head] + ToDTOs(rest, rows);
      assert d in all <==> d == head || d in ToDTOs(rest, rows);
      if c.active == flag {
        var w := [c] + part;
        assert Where(courses, ActiveIs(flag)) == w;
        assert w[1..] == part;
        assert ToDTOs(w, rows) == [head] + ToDTOs(part, rows);
      } else {
        assert Where(courses, ActiveIs(flag)) == part;
        assert head.active != Some(flag);
      }
    }
  }

  /** The active and the inactive listings split the full listing by the active flag. */
  lemma ActiveInactivePartitionAll(t: Tables)
    ensures forall d :: d in GetActiveCourses(t) <==> d in GetAllCourses(t) && d.active == Some(true)
    ensures forall d :: d in GetInactiveCourses(t) <==> d in GetAllCourses(t) && d.active == Some(false)
    ensures |GetActiveCourses(t)| + |GetInactiveCourses(t)| == |GetAllCourses(t)|
  {
    forall d ensures d in GetActiveCourses(t) <==> d in GetAllCourses(t) && d.active == Some(true) {
      WhereActiveMember(t.courses, t.enrollments, true, d);
    }
    forall d ensures d in GetInactiveCourses(t) <==> d in GetAllCourses(t) && d.active == Some(false) {
      WhereActiveMember(t.courses, t.enrollments, false, d);
    }
    WherePartition(t.courses);
  }

  /** Some course other than the one with key `except` already has `code`. */
  predicate CodeTaken(courses: seq<Course>, code: string, except: nat)
  {
    FirstIndex(courses, (c: Course) => c.courseCode == code && c.id != except).Some?
  }

  /** `createCourse`: stores the request under the next key, unless the course
      code is already in use, in which case the store refuses the insert. */
  function Create(t: Tables, dto: CourseDTO): (r: (Result<CourseDTO>, Tables))
    ensures r.0.Err? <==> exists i :: 0 <= i < |t.courses| && t.courses[i].courseCode == dto.courseCode && t.courses[i].id != t.nextCourseId
    ensures r.0.Err? ==> r.0.fault == UniqueConstraintViolation && r.1 == t
  {
    if CodeTaken(t.courses, dto.courseCode, t.nextCourseId) then (Err(UniqueConstraintViolation), t)
    else
      var c := ConvertToEntity(dto, t.nextCourseId);
      (Ok(ConvertToDTO(c, t.enrollments)),
       t.(courses := t.courses + [c], nextCourseId := t.nextCourseId + 1))
  }

  /** A created course carries the request's fields, is active unless the
      request says otherwise, and is appended under the next key; the earlier
      records and the other tables are untouched. */
  lemma CreateStoresRequest(t: Tables, dto: CourseDTO)
    ensures var (r, t') := Create(t, dto);
      r.Ok? ==>
        t' == t.(courses := t.courses + [Course(t.nextCourseId, dto.name, dto.description, dto.courseCode,
                                                dto.credits, dto.fee, dto.active != Some(false))],
                 nextCourseId := t.nextCourseId + 1)
  {
  }

  /** In a well-formed store the new key is one no record had, the answer is the
      new record as `getCourseById` reads it back, and it has no enrollments. */
  lemma CreatedIsNew(t: Tables, dto: CourseDTO)
    requires WellFormed(t)
    ensures var (r, t') := Create(t, dto);
      r.Ok? ==>
        && (forall i :: 0 <= i < |t.courses| ==> t.courses[i].id != t.nextCourseId)
        && GetCourseById(t', t.nextCourseId) == Some(r.value)
        && r.value.enrolledStudentsCount == Some(0)
  {
    var (r, t') := Create(t, dto);
    if r.Ok? {
      var c := t'.courses[|t.courses|];
      assert t'.courses == t.courses + [c];
      R.CountActiveByZeroIff(t.enrollments, R.CourseColumn, c.id);
      FindCourseAppend(t.courses, c);
    }
  }

  lemma CreatePreservesWellFormed(t: Tables, dto: CourseDTO)
    requires WellFormed(t)
    ensures WellFormed(Create(t, dto).1)
  {
    var (r, t') := Create(t, dto);
    if r.Ok? {
      assert forall i :: 0 <= i < |t.courses| ==> t.courses[i].id != t.nextCourseId;
    }
  }

  /** `updateCourse`: when a record has key `id`, overwrites name, description,
      code, credits and fee, and its active flag only when the request carries
      one; nothing when there is no such record; a refusal when another course
      has the code. */
  function Update(t: Tables, id: nat, dto: CourseDTO): (r: (Result<Option<CourseDTO>>, Tables))
    ensures r.0 == Ok(None) <==> forall i :: 0 <= i < |t.courses| ==> t.courses[i].id != id
    ensures r.0.Err? <==> FindCourse(t.courses, id).Some? && CodeTaken(t.courses, dto.courseCode, id)
    ensures r.0.Err? ==> r.0.fault == UniqueConstraintViolation
    ensures !r.0.Ok? || r.0.value.None? ==> r.1 == t
  {
    match FindCourse(t.courses, id)
    case None => (Ok(None), t)
    case Some(i) =>
      if CodeTaken(t.courses, dto.courseCode, id) then (Err(UniqueConstraintViolation), t)
      else
        var c := t.courses[i];
        var c' := c.(name := dto.name, description := dto.description, courseCode := dto.courseCode,
                     credits := dto.credits, fee := dto.fee,
                     active := if dto.active.Some? then dto.active.value else c.active);
        (Ok(Some(ConvertToDTO(c', t.enrollments))), t.(courses := t.courses[i := c']))
  }

  /** A successful update rewrites exactly the record with key `id`, keeping
      its key, and its active flag unless the request carries one. */
  lemma UpdateOverwritesFields(t: Tables, id: nat, dto: CourseDTO)
    ensures var (r, t') := Update(t, id, dto);
      r.Ok? && r.value.Some? ==>
        exists i :: (0 <= i < |t.courses| && t.courses[i].id == id
          && t' == t.(courses := t.courses[i := Course(id, dto.name, dto.description, dto.courseCode,
                                                       dto.credits, dto.fee,
                                                       if dto.active.Some? then dto.active.value else t.courses[i].active)]))
  {
  }

  /** The answer of a successful update is the record as `getCourseById`
      reads it back afterwards. */
  lemma UpdateReadsBack(t: Tables, id: nat, dto: CourseDTO)
    ensures var (r, t') := Update(t, id, dto);
      r.Ok? && r.value.Some? ==> GetCourseById(t', id) == r.value
  {
    var (r, t') := Update(t, id, dto);
    if r.Ok? && r.value.Some? {
      var i := FindCourse(t.courses, id).value;
      FindCourseUpdate(t.courses, i, t'.courses[i]);
    }
  }

  lemma UpdatePreservesWellFormed(t: Tables, id: nat, dto: CourseDTO)
    requires WellFormed(t)
    ensures WellFormed(Update(t, id, dto).1)
  {
    var (r, t') := Update(t, id, dto);
    if r.Ok? && r.value.Some? {
      var i := FindCourse(t.courses, id).value;
      assert t'.courses == t.courses[i := t'.courses[i]];
      assert forall j :: 0 <= j < |t.courses| && j != i ==> t.courses[j].id != id;
    }
  }

  /** The rows that survive the deletion of course `id`: all others, in order. */
  function WithoutCourse(rows: seq<Enrollment>, id: nat): (r: seq<Enrollment>)
    ensures |r| <= |rows|
    ensures forall e :: e in r <==> e in rows && e.courseId != id
  {
    if rows == [] then []
    else (if rows[0].courseId == id then [] else [rows[0]]) + WithoutCourse(rows[1..], id)
  }

  lemma TailAscends(rows: seq<Enrollment>)
    requires rows != [] && EnrollmentKeysAscend(rows)
    ensures EnrollmentKeysAscend(rows[1..])
    ensures forall e :: e in rows[1..] ==> rows[0].id < e.id
  {
    var rest := rows[1..];
    forall i | 0 <= i < |rest| ensures rest[i] == rows[i + 1] { }
  }

  lemma ConsAscends(x: Enrollment, rows: seq<Enrollment>)
    requires EnrollmentKeysAscend(rows)
    requires forall e :: e in rows ==> x.id < e.id
    ensures EnrollmentKeysAscend([x] + rows)
  {
    var r := [x] + rows;
    forall j | 0 < j < |r| ensures r[j] == rows[j - 1] && r[j] in rows { }
  }

  lemma {:induction false} WithoutCourseAscends(rows: seq<Enrollment>, id: nat)
    requires EnrollmentKeysAscend(rows)
    ensures EnrollmentKeysAscend(WithoutCourse(rows, id))
  {
    if rows != [] {
      TailAscends(rows);
      WithoutCourseAscends(rows[1..], id);
      if rows[0].courseId != id {
        ConsAscends(rows[0], WithoutCourse(rows[1..], id));
      }
    }
  }

  /** Dropping rows keeps the key order, the key range and the references valid. */
  lemma WithoutCourseKeepsTable(rows: seq<Enrollment>, id: nat, next: nat, ns: nat, nc: nat)
    requires EnrollmentTableOk(rows, next, ns, nc)
    ensures EnrollmentTableOk(WithoutCourse(rows, id), next, ns, nc)
  {
    WithoutCourseAscends(rows, id);
    var r := WithoutCourse(rows, id);
    forall i | 0 <= i < |r| ensures 1 <= r[i].id < next && r[i].studentId < ns && r[i].courseId < nc {
      assert r[i] in rows;
    }
  }

  /** Dropping rows cannot create a second ACTIVE row for a pair. */
  lemma {:induction false} WithoutCourseKeepsAtMostOne(rows: seq<Enrollment>, id: nat)
    requires R.AtMostOneActivePerPair(rows)
    ensures R.AtMostOneActivePerPair(WithoutCourse(rows, id))
  {
    if rows != [] {
      var rest := rows[1..];
      assert R.AtMostOneActivePerPair(rest) by {
        forall i, j | 0 <= i < j < |rest| ensures !(rest[i].status == ACTIVE && rest[j].status == ACTIVE
            && rest[i].studentId == rest[j].studentId && rest[i].courseId == rest[j].courseId) {
          assert rest[i] == rows[i + 1] && rest[j] == rows[j + 1];
        }
      }
      WithoutCourseKeepsAtMostOne(rest, id);
      var r' := WithoutCourse(rest, id);
      forall e | e in r' && rows[0].status == ACTIVE && e.status == ACTIVE
        ensures rows[0].studentId != e.studentId || rows[0].courseId != e.courseId
      {
        var k :| 0 <= k < |rest| && rest[k] == e;
        assert rows[k + 1] == e;
      }
    }
  }

  /** After the cascade no row refers to the deleted course, so its count of
      ACTIVE enrollments is zero. */
  lemma WithoutCourseCounts(rows: seq<Enrollment>, id: nat)
    ensures R.CountActiveBy(WithoutCourse(rows, id), R.CourseColumn, id) == 0
    ensures forall e :: e in WithoutCourse(rows, id) ==> e.courseId != id
  {
    var r := WithoutCourse(rows, id);
    R.CountActiveByZeroIff(r, R.CourseColumn, id);
    assert forall i :: 0 <= i < |r| ==> r[i] in r;
  }

  /** The enrollment objects whose rows survive the deletion of course `id`. */
  function WithoutCourseObjects(objs: seq<StudentCourse>, id: nat): (r: seq<StudentCourse>)
    reads set o | o in objs
    ensures forall o :: o in r ==> o in objs
    ensures Snapshots(r) == WithoutCourse(Snapshots(objs), id)
  {
    if objs == [] then []
    else
      var rest := WithoutCourseObjects(objs[1..], id);
      assert objs == [objs[0]] + objs[1..];
      SnapshotsCons(objs[0], objs[1..]);
      if objs[0].courseId == id then rest
      else
        SnapshotsCons(objs[0], rest);
        [objs[0]] + rest
  }

  /** `deleteCourse`: removes the course with key `id` and, by the cascade,
      its enrollment rows; true when there was such a course. */
  function Delete(t: Tables, id: nat): (r: (bool, Tables))
    ensures r.0 <==> exists i :: 0 <= i < |t.courses| && t.courses[i].id == id
    ensures !r.0 ==> r.1 == t
  {
    match FindCourse(t.courses, id)
    case None => (false, t)
    case Some(i) =>
      (true, t.(courses := t.courses[..i] + t.courses[i + 1..],
                enrollments := WithoutCourse(t.enrollments, id)))
  }

  /** After a delete no course has key `id`, every other course is still there,
      the course's enrollment rows are gone with it and the other rows stay. */
  lemma DeleteRemovesCourseAndRows(t: Tables, id: nat)
    requires WellFormed(t)
    ensures var (found, t') := Delete(t, id);
      && GetCourseById(t', id).None?
      && (forall c :: c in t'.courses <==> c in t.courses && c.id != id)
      && (forall e :: e in t'.enrollments <==> e in t.enrollments && (found ==> e.courseId != id))
      && t' == t.(courses := t'.courses, enrollments := t'.enrollments)
  {
    var (found, t') := Delete(t, id);
    if found {
      RemoveCourseAtKeepsOrder(t.courses, FindCourse(t.courses, id).value);
    }
  }

  /** A delete keeps the store well formed, and keeps at most one ACTIVE row
      per pair if there was at most one before. */
  lemma DeletePreservesWellFormed(t: Tables, id: nat)
    requires WellFormed(t)
    ensures WellFormed(Delete(t, id).1)
    ensures R.AtMostOneActivePerPair(t.enrollments) ==> R.AtMostOneActivePerPair(Delete(t, id).1.enrollments)
  {
    var (found, t') := Delete(t, id);
    if found {
      RemoveCourseAtKeepsOrder(t.courses, FindCourse(t.courses, id).value);
      WithoutCourseKeepsTable(t.enrollments, id, t.nextEnrollmentId, t.nextStudentId, t.nextCourseId);
      if R.AtMostOneActivePerPair(t.enrollments) {
        WithoutCourseKeepsAtMostOne(t.enrollments, id);
      }
    }
  }

  /** `activateCourse` (flag true) and `deactivateCourse` (flag false): sets the
      active flag of the record with key `id`; true when there is one. */
  function SetActive(t: Tables, id: nat, flag: bool): (r: (bool, Tables))
    ensures r.0 <==> exists i :: 0 <= i < |t.courses| && t.courses[i].id == id
    ensures !r.0 ==> r.1 == t
  {
    match FindCourse(t.courses, id)
    case None => (false, t)
    case Some(i) => (true, t.(courses := t.courses[i := t.courses[i].(active := flag)]))
  }

  /** Activation and deactivation change only the active flag of that one record. */
  lemma SetActiveChangesOnlyFlag(t: Tables, id: nat, flag: bool)
    requires WellFormed(t)
    ensures var t' := SetActive(t, id, flag).1;
      && t' == t.(courses := t'.courses)
      && |t'.courses| == |t.courses|
      && forall i :: 0 <= i < |t.courses| ==>
           t'.courses[i] == if t.courses[i].id == id then t.courses[i].(active := flag) else t.courses[i]
    ensures WellFormed(SetActive(t, id, flag).1)
  {
  }

  /** Deactivating and then activating a course gives the same tables as
      activating it alone; when it was active to begin with, nothing changes. */
  lemma DeactivateThenActivate(t: Tables, id: nat)
    ensures SetActive(SetActive(t, id, false).1, id, true) == SetActive(t, id, true)
    ensures var i := FindCourse(t.courses, id);
      i.Some? && t.courses[i.value].active ==> SetActive(SetActive(t, id, false).1, id, true).1 == t
  {
    match FindCourse(t.courses, id)
    case None =>
    case Some(i) =>
      var t1 := SetActive(t, id, false).1;
      FindCourseUpdate(t.courses, i, t1.courses[i]);
      assert t1.courses[i := t1.courses[i].(active := true)] == t.courses[i := t.courses[i].(active := true)];
  }

  /** The service methods, each one atomic step on the store. */

  method CreateCourse(db: Database, dto: CourseDTO) returns (r: Result<CourseDTO>)
    requires db.Valid()
    modifies db
    ensures db.Valid()
    ensures (r, db.Model()) == Create(old(db.Model()), dto)
  {
    ghost var t := db.Model();
    assert WellFormed(Create(t, dto).1) by { CreatePreservesWellFormed(t, dto); }
    if CodeTaken(db.courses, dto.courseCode, db.nextCourseId) {
      return Err(UniqueConstraintViolation);
    }
    var c := ConvertToEntity(dto, db.nextCourseId);
    db.courses := db.courses + [c];
    db.nextCourseId := db.nextCourseId + 1;
    r := Ok(ConvertToDTO(c, db.Rows()));
    assert db.Model() == Create(t, dto).1;
  }

  method UpdateCourse(db: Database, id: nat, dto: CourseDTO) returns (r: Result<Option<CourseDTO>>)
    requires db.Valid()
    modifies db
    ensures db.Valid()
    ensures (r, db.Model()) == Update(old(db.Model()), id, dto)
  {
    ghost var t := db.Model();
    assert WellFormed(Update(t, id, dto).1) by { UpdatePreservesWellFormed(t, id, dto); }
    match FindCourse(db.courses, id)
    case None =>
      r := Ok(None);
    case Some(i) =>
      if CodeTaken(db.courses, dto.courseCode, id) {
        r := Err(UniqueConstraintViolation);
      } else {
        var c := db.courses[i];
        var c' := c.(name := dto.name, description := dto.description, courseCode := dto.courseCode,
                     credits := dto.credits, fee := dto.fee,
                     active := if dto.active.Some? then dto.active.value else c.active);
        db.courses := db.courses[i := c'];
        r := Ok(Some(ConvertToDTO(c', db.Rows())));
        assert db.Model() == Update(t, id, dto).1;
      }
  }

  /** Removes the course and detaches its enrollment objects from the store. */
  method DeleteCourse(db: Database, id: nat) returns (deleted: bool)
    requires db.Valid()
    modifies db
    ensures db.Valid()
    ensures (deleted, db.Model()) == Delete(old(db.Model()), id)
  {
    ghost var t := db.Model();
    ghost var t' := Delete(t, id).1;
    assert WellFormed(t') by { DeletePreservesWellFormed(t, id); }
    var found := FindCourse(db.courses, id);
    if found.None? {
      return false;
    }
    var i := found.value;
    db.courses := db.courses[..i] + db.courses[i + 1..];
    DropCourseRows(db, id);
    deleted := true;
    assert db.Model() == t';
  }

  /** The cascade: detaches the enrollment objects of course `id`. */
  method DropCourseRows(db: Database, id: nat)
    modifies db
    ensures db.Rows() == WithoutCourse(old(db.Rows()), id)
    ensures db.students == old(db.students) && db.courses == old(db.courses)
    ensures db.nextStudentId == old(db.nextStudentId) && db.nextCourseId == old(db.nextCourseId)
    ensures db.nextEnrollmentId == old(db.nextEnrollmentId)
  {
    var kept := WithoutCourseObjects(db.enrollments, id);
    db.enrollments := kept;
  }

  method ActivateCourse(db: Database, id: nat) returns (found: bool)
    requires db.Valid()
    modifies db
    ensures db.Valid()
    ensures (found, db.Model()) == SetActive(old(db.Model()), id, true)
  {
    found := SetActiveOn(db, id, true);
  }

  method DeactivateCourse(db: Database, id: nat) returns (found: bool)
    requires db.Valid()
    modifies db
    ensures db.Valid()
    ensures (found, db.Model()) == SetActive(old(db.Model()), id, false)
  {
    found := SetActiveOn(db, id, false);
  }

  /** The shared body of activation and deactivation: find, set the flag, save. */
  method SetActiveOn(db: Database, id: nat, flag: bool) returns (found: bool)
    requires db.Valid()
    modifies db
    ensures db.Valid()
    ensures (found, db.Model()) == SetActive(old(db.Model()), id, flag)
  {
    ghost var t := db.Model();
    assert WellFormed(SetActive(t, id, flag).1) by { SetActiveChangesOnlyFlag(t, id, flag); }
    match FindCourse(db.courses, id)
    case None =>
      found := false;
    case Some(i) =>
      db.courses := db.courses[i := db.courses[i].(active := flag)];
      found := true;
  }
}
