/** The student service: listings, lookups and searches that read the tables,
    and create / update / delete / activate / deactivate, which change the
    student table. Each change is one atomic step; its effect is the pure
    transition of the same name, and the method of the service performs it on a
    `Database`. */
module Students {
  import opened Common
  import opened Entities
  import opened Store
  import R = StudentCourseRepository

  /** The request and response body of the student endpoints; a `null` field is `None`. */
  datatype StudentDTO = StudentDTO(
    id: Option<nat>,
    name: string,
    email: string,
    phone: string,
    active: Option<bool>,
    enrolledCoursesCount: Option<int>)

  /** `convertToDTO`: the stored fields plus the number of ACTIVE enrollments,
      narrowed to an int. */
  function ConvertToDTO(s: Student, rows: seq<Enrollment>): StudentDTO
  {
    StudentDTO(Some(s.id), s.name, s.email, s.phone, Some(s.active),
               Some(IntValue(R.CountActiveEnrollmentsByStudent(rows, s.id))))
  }

  /** `convertToEntity`, with the key the identity column hands out on save.
      An unset `active` is stored as true. */
  function ConvertToEntity(dto: StudentDTO, id: nat): Student
  {
    Student(id, dto.name, dto.email, dto.phone, if dto.active.Some? then dto.active.value else true)
  }

  function ToDTOs(students: seq<Student>, rows: seq<Enrollment>): (r: seq<StudentDTO>)
    ensures |r| == |students|
    ensures forall i :: 0 <= i < |students| ==> r[i] == ConvertToDTO(students[i], rows)
  {
    if students == [] then [] else [ConvertToDTO(students[0], rows)] + ToDTOs(students[1..], rows)
  }

  /** The derived queries of the student repository that the service calls:
      `findByActiveTrue`, `findByActiveFalse` and `findByNameContainingIgnoreCase`. */
  datatype StudentQuery = ActiveIs(flag: bool) | NameContains(fragment: string)

  predicate Matches(s: Student, q: StudentQuery)
  {
    match q
    case ActiveIs(flag) => s.active == flag
    case NameContains(fragment) => ContainsIgnoreCase(s.name, fragment)
  }

  /** The rows of the table satisfying `q`, in table order. */
  function Where(students: seq<Student>, q: StudentQuery): (r: seq<Student>)
    ensures |r| <= |students|
    ensures forall s :: s in r <==> s in students && Matches(s, q)
  {
    if students == [] then []
    else (if Matches(students[0], q) then [students[0]] else []) + Where(students[1..], q)
  }

  /** `getAllStudents`. */
  function GetAllStudents(t: Tables): seq<StudentDTO>
  {
    ToDTOs(t.students, t.enrollments)
  }

  /** `getActiveStudents`. */
  function GetActiveStudents(t: Tables): seq<StudentDTO>
  {
    ToDTOs(Where(t.students, ActiveIs(true)), t.enrollments)
  }

  /** `getInactiveStudents`. */
  function GetInactiveStudents(t: Tables): seq<StudentDTO>
  {
    ToDTOs(Where(t.students, ActiveIs(false)), t.enrollments)
  }

  /** `getStudentById`: the record with that key, if there is one. */
  function GetStudentById(t: Tables, id: nat): (r: Option<StudentDTO>)
    ensures r.None? <==> forall i :: 0 <= i < |t.students| ==> t.students[i].id != id
    ensures r.Some? ==> r.value.id == Some(id) && r.value in GetAllStudents(t)
  {
    match FindStudent(t.students, id)
    case None => None
    case Some(i) => Some(ConvertToDTO(t.students[i], t.enrollments))
  }

  /** `getStudentByEmail`: the record with that email, if there is one. */
  function GetStudentByEmail(t: Tables, email: string): (r: Option<StudentDTO>)
    ensures r.None? <==> forall i :: 0 <= i < |t.students| ==> t.students[i].email != email
    ensures r.Some? ==> r.value.email == email && r.value in GetAllStudents(t)
  {
    match FirstIndex(t.students, (s: Student) => s.email == email)
    case None => None
    case Some(i) => Some(ConvertToDTO(t.students[i], t.enrollments))
  }

  /** `searchStudentsByName`: exactly the students whose name contains `q`,
      ignoring case. */
  function SearchStudentsByName(t: Tables, q: string): (r: seq<StudentDTO>)
    ensures forall d :: d in r ==> ContainsIgnoreCase(d.name, q) && d in GetAllStudents(t)
    ensures forall s :: s in t.students && ContainsIgnoreCase(s.name, q) ==>
      ConvertToDTO(s, t.enrollments) in r
  {
    var found := Where(t.students, NameContains(q));
    var r := ToDTOs(found, t.enrollments);
    forall d | d in r ensures ContainsIgnoreCase(d.name, q) && d in GetAllStudents(t) {
      var i :| 0 <= i < |r| && r[i] == d;
      assert found[i] in t.students;
      var j :| 0 <= j < |t.students| && t.students[j] == found[i];
      assert GetAllStudents(t)[j] == d;
    }
    forall s | s in t.students && ContainsIgnoreCase(s.name, q) ensures ConvertToDTO(s, t.enrollments) in r {
      assert s in found;
      var i :| 0 <= i < |found| && found[i] == s;
      assert r[i] == ConvertToDTO(s, t.enrollments);
    }
    r
  }

  /** `getEnrolledCoursesCount`. */
  function GetEnrolledCoursesCount(t: Tables, id: nat): nat
  {
    R.CountActiveEnrollmentsByStudent(t.enrollments, id)
  }

  /** The count the service reports for a student is the number of ACTIVE rows
      of that student; a record's `enrolledCoursesCount` is the same number,
      unless it does not fit in an int. */
  lemma EnrolledCountIsActiveRows(t: Tables, s: Student)
    ensures GetEnrolledCoursesCount(t, s.id) == |R.ActiveIndices(t.enrollments, R.StudentColumn, s.id)|
    ensures GetEnrolledCoursesCount(t, s.id) <= INT_MAX ==>
      ConvertToDTO(s, t.enrollments).enrolledCoursesCount == Some(GetEnrolledCoursesCount(t, s.id))
  {
    R.CountActiveByIsCardinality(t.enrollments, R.StudentColumn, s.id);
  }

  /** The positions of the students whose active flag is `flag`. */
  ghost function FlagIndices(students: seq<Student>, flag: bool): set<nat>
  {
    set i: nat | i < |students| && students[i].active == flag
  }

  lemma FlagIndicesSnoc(students: seq<Student>, flag: bool)
    requires students != []
    ensures FlagIndices(students, flag)
         == FlagIndices(students[..|students| - 1], flag)
          + (if students[|students| - 1].active == flag then {|students| - 1} else {})
    ensures |students| - 1 !in FlagIndices(students[..|students| - 1], flag)
  {
    var n := |students| - 1;
    var init := students[..n];
    forall i: nat | i < n ensures init[i] == students[i] { }
  }

  /** A query over two tables in sequence is the two answers in sequence. */
  lemma {:induction false} WhereAppend(a: seq<Student>, b: seq<Student>, q: StudentQuery)
    ensures Where(a + b, q) == Where(a, q) + Where(b, q)
  {
    if a != [] {
      assert (a + b)[1..] == a[1..] + b;
      WhereAppend(a[1..], b, q);
    } else {
      assert a + b == b;
    }
  }

  /** The active (inactive) query returns one record per student with that flag,
      so its size is the number of those records. */
  lemma {:induction false} WhereActiveCount(students: seq<Student>, flag: bool)
    ensures |Where(students, ActiveIs(flag))| == |FlagIndices(students, flag)|
    decreases |students|
  {
    if students != [] {
      var n := |students| - 1;
      assert students == students[..n] + [students[n]];
      WhereAppend(students[..n], [students[n]], ActiveIs(flag));
      assert [students[n]][1..] == [];
      WhereActiveCount(students[..n], flag);
      FlagIndicesSnoc(students, flag);
    }
  }

  lemma {:induction false} WherePartition(students: seq<Student>)
    ensures |Where(students, ActiveIs(true))| + |Where(students, ActiveIs(false))| == |students|
  {
    if students != [] {
      WherePartition(students[1..]);
    }
  }

  /** A record is listed by the active (inactive) query exactly when it is in
      the full listing and its active flag is true (false). */
  lemma {:induction false} WhereActiveMember(students: seq<Student>, rows: seq<Enrollment>, flag: bool, d: StudentDTO)
    ensures d in ToDTOs(Where(students, ActiveIs(flag)), rows) <==> d in ToDTOs(students, rows) && d.active == Some(flag)
  {
    if students != [] {
      var s, rest := students[0], students[1..];
      WhereActiveMember(rest, rows, flag, d);
      var part := Where(rest, ActiveIs(flag));
      var head := ConvertToDTO(s, rows);
      var all := ToDTOs(students, rows);
      assert all == [head] + ToDTOs(rest, rows);
      assert d in all <==> d == head || d in ToDTOs(rest, rows);
      if s.active == flag {
        var w := [s] + part;
        assert Where(students, ActiveIs(flag)) == w;
        assert w[1..] == part;
        assert ToDTOs(w, rows) == [head] + ToDTOs(part, rows);
      } else {
        assert Where(students, ActiveIs(flag)) == part;
        assert head.active != Some(flag);
      }
    }
  }

  /** The active and the inactive listings split the full listing by the active flag. */
  lemma ActiveInactivePartitionAll(t: Tables)
    ensures forall d :: d in GetActiveStudents(t) <==> d in GetAllStudents(t) && d.active == Some(true)
    ensures forall d :: d in GetInactiveStudents(t) <==> d in GetAllStudents(t) && d.active == Some(false)
    ensures |GetActiveStudents(t)| + |GetInactiveStudents(t)| == |GetAllStudents(t)|
  {
    forall d ensures d in GetActiveStudents(t) <==> d in GetAllStudents(t) && d.active == Some(true) {
      WhereActiveMember(t.students, t.enrollments, true, d);
    }
    forall d ensures d in GetInactiveStudents(t) <==> d in GetAllStudents(t) && d.active == Some(false) {
      WhereActiveMember(t.students, t.enrollments, false, d);
    }
    WherePartition(t.students);
  }

  /** Some student other than the one with key `except` already has `email`. */
  predicate EmailTaken(students: seq<Student>, email: string, except: nat)
  {
    FirstIndex(students, (s: Student) => s.email == email && s.id != except).Some?
  }

  /** `createStudent`: stores the request under the next key, unless the email
      is already in use, in which case the store refuses the insert. */
  function Create(t: Tables, dto: StudentDTO): (r: (Result<StudentDTO>, Tables))
    ensures r.0.Err? <==> exists i :: 0 <= i < |t.students| && t.students[i].email == dto.email && t.students[i].id != t.nextStudentId
    ensures r.0.Err? ==> r.0.fault == UniqueConstraintViolation && r.1 == t
  {
    if EmailTaken(t.students, dto.email, t.nextStudentId) then (Err(UniqueConstraintViolation), t)
    else
      var s := ConvertToEntity(dto, t.nextStudentId);
      (Ok(ConvertToDTO(s, t.enrollments)),
       t.(students := t.students + [s], nextStudentId := t.nextStudentId + 1))
  }

  /** A created student carries the request's name, email and phone, is active
      unless the request says otherwise, and is appended under the next key;
      the earlier records and the other tables are untouched. */
  lemma CreateStoresRequest(t: Tables, dto: StudentDTO)
    ensures var (r, t') := Create(t, dto);
      r.Ok? ==>
        t' == t.(students := t.students + [Student(t.nextStudentId, dto.name, dto.email, dto.phone, dto.active != Some(false))],
                 nextStudentId := t.nextStudentId + 1)
  {
  }

  /** In a well-formed store the new key is one no record had, the answer is the
      new record as `getStudentById` reads it back, it has no enrollments, and
      the store stays well formed. */
  lemma CreatedIsNew(t: Tables, dto: StudentDTO)
    requires WellFormed(t)
    ensures var (r, t') := Create(t, dto);
      r.Ok? ==>
        && (forall i :: 0 <= i < |t.students| ==> t.students[i].id != t.nextStudentId)
        && GetStudentById(t', t.nextStudentId) == Some(r.value)
        && r.value.enrolledCoursesCount == Some(0)
  {
    var (r, t') := Create(t, dto);
    if r.Ok? {
      var s := t'.students[|t.students|];
      assert t'.students == t.students + [s];
      R.CountActiveByZeroIff(t.enrollments, R.StudentColumn, s.id);
      FindStudentAppend(t.students, s);
    }
  }

  lemma CreatePreservesWellFormed(t: Tables, dto: StudentDTO)
    requires WellFormed(t)
    ensures WellFormed(Create(t, dto).1)
  {
    var (r, t') := Create(t, dto);
    if r.Ok? {
      assert forall i :: 0 <= i < |t.students| ==> t.students[i].id != t.nextStudentId;
    }
  }

  /** `updateStudent`: when a record has key `id`, overwrites its name, email
      and phone, and its active flag only when the request carries one; nothing
      when there is no such record; a refusal when another student has the email. */
  function Update(t: Tables, id: nat, dto: StudentDTO): (r: (Result<Option<StudentDTO>>, Tables))
    ensures r.0 == Ok(None) <==> forall i :: 0 <= i < |t.students| ==> t.students[i].id != id
    ensures r.0.Err? <==> FindStudent(t.students, id).Some? && EmailTaken(t.students, dto.email, id)
    ensures r.0.Err? ==> r.0.fault == UniqueConstraintViolation
    ensures !r.0.Ok? || r.0.value.None? ==> r.1 == t
  {
    match FindStudent(t.students, id)
    case None => (Ok(None), t)
    case Some(i) =>
      if EmailTaken(t.students, dto.email, id) then (Err(UniqueConstraintViolation), t)
      else
        var s := t.students[i];
        var s' := s.(name := dto.name, email := dto.email, phone := dto.phone,
                     active := if dto.active.Some? then dto.active.value else s.active);
        (Ok(Some(ConvertToDTO(s', t.enrollments))), t.(students := t.students[i := s']))
  }

  /** A successful update rewrites exactly the record with key `id`: name, email
      and phone from the request, the active flag from the request if it has
      one and unchanged otherwise, the key unchanged. Every other record and
      every other table stays as it was. */
  lemma UpdateOverwritesFields(t: Tables, id: nat, dto: StudentDTO)
    ensures var (r, t') := Update(t, id, dto);
      r.Ok? && r.value.Some? ==>
        exists i :: (0 <= i < |t.students| && t.students[i].id == id
          && t' == t.(students := t.students[i := Student(id, dto.name, dto.email, dto.phone,
                                                          if dto.active.Some? then dto.active.value else t.students[i].active)]))
  {
  }

  /** The answer of a successful update is the record as `getStudentById`
      reads it back afterwards. */
  lemma UpdateReadsBack(t: Tables, id: nat, dto: StudentDTO)
    ensures var (r, t') := Update(t, id, dto);
      r.Ok? && r.value.Some? ==> GetStudentById(t', id) == r.value
  {
    var (r, t') := Update(t, id, dto);
    if r.Ok? && r.value.Some? {
      var i := FindStudent(t.students, id).value;
      FindStudentUpdate(t.students, i, t'.students[i]);
    }
  }

  lemma UpdatePreservesWellFormed(t: Tables, id: nat, dto: StudentDTO)
    requires WellFormed(t)
    ensures WellFormed(Update(t, id, dto).1)
  {
    var (r, t') := Update(t, id, dto);
    if r.Ok? && r.value.Some? {
      var i := FindStudent(t.students, id).value;
      assert t'.students == t.students[i := t'.students[i]];
      assert forall j :: 0 <= j < |t.students| && j != i ==> t.students[j].id != id;
    }
  }

  /** `deleteStudent`: removes the record with key `id`; true when there was one. */
  function Delete(students: seq<Student>, id: nat): (r: (bool, seq<Student>))
    ensures r.0 <==> exists i :: 0 <= i < |students| && students[i].id == id
    ensures !r.0 ==> r.1 == students
  {
    match FindStudent(students, id)
    case None => (false, students)
    case Some(i) => (true, students[..i] + students[i + 1..])
  }

  /** After a delete no record has key `id`, so `getStudentById` finds nothing,
      and every other record is still there. */
  lemma DeleteRemovesOnlyThatKey(t: Tables, id: nat)
    requires WellFormed(t)
    ensures var t' := t.(students := Delete(t.students, id).1);
      && GetStudentById(t', id).None?
      && (forall s :: s in t'.students <==> s in t.students && s.id != id)
      && StudentTableOk(t'.students, t.nextStudentId)
  {
    var (found, rest) := Delete(t.students, id);
    if found {
      var i := FindStudent(t.students, id).value;
      RemoveAtKeepsOrder(t.students, i);
    }
  }

  /** `activateStudent` (flag true) and `deactivateStudent` (flag false): sets the
      active flag of the record with key `id`; true when there is one. */
  function SetActive(t: Tables, id: nat, flag: bool): (r: (bool, Tables))
    ensures r.0 <==> exists i :: 0 <= i < |t.students| && t.students[i].id == id
    ensures !r.0 ==> r.1 == t
  {
    match FindStudent(t.students, id)
    case None => (false, t)
    case Some(i) => (true, t.(students := t.students[i := t.students[i].(active := flag)]))
  }

  /** Activation and deactivation change only the active flag of that one record. */
  lemma SetActiveChangesOnlyFlag(t: Tables, id: nat, flag: bool)
    requires WellFormed(t)
    ensures var t' := SetActive(t, id, flag).1;
      && t' == t.(students := t'.students)
      && |t'.students| == |t.students|
      && forall i :: 0 <= i < |t.students| ==>
           t'.students[i] == if t.students[i].id == id then t.students[i].(active := flag) else t.students[i]
    ensures WellFormed(SetActive(t, id, flag).1)
  {
  }

  /** Deactivating and then activating a student gives the same tables as
      activating it alone: the record is active again with every other field as
      before. When it was active to begin with, nothing has changed at all. */
  lemma DeactivateThenActivate(t: Tables, id: nat)
    ensures SetActive(SetActive(t, id, false).1, id, true) == SetActive(t, id, true)
    ensures var i := FindStudent(t.students, id);
      i.Some? && t.students[i.value].active ==> SetActive(SetActive(t, id, false).1, id, true).1 == t
  {
    match FindStudent(t.students, id)
    case None =>
    case Some(i) =>
      var t1 := SetActive(t, id, false).1;
      FindStudentUpdate(t.students, i, t1.students[i]);
      assert t1.students[i := t1.students[i].(active := true)] == t.students[i := t.students[i].(active := true)];
  }

  /** The case-folded names of the search example, checked against "an". */
  lemma SearchExampleNames()
    ensures ContainsIgnoreCase("Anna", "an") && !ContainsIgnoreCase("Bob", "an") && ContainsIgnoreCase("JUAN", "an")
  {
    assert Upper("an") == "AN";
    assert Upper("Anna") == "ANNA";
    assert "AN" <= "ANNA";
    assert Upper("Bob") == "BOB";
    assert !IsSubstring("AN", "BOB"[2..]);
    assert !IsSubstring("AN", "BOB"[1..]);
    assert Upper("JUAN") == "JUAN";
    assert "JUAN"[2..] == "AN";
    assert IsSubstring("AN", "JUAN"[2..]);
    assert IsSubstring("AN", "JUAN"[1..]);
  }

  /** `searchStudentsByName` ignores case: "an" finds both "Anna" and "JUAN",
      and not "Bob". */
  lemma SearchIgnoresCase()
    ensures var t := Tables([Student(1, "Anna", "a@x", "1", true),
                             Student(2, "Bob", "b@x", "2", true),
                             Student(3, "JUAN", "j@x", "3", false)], [], [], 4, 1, 1);
      var found := SearchStudentsByName(t, "an");
      |found| == 2 && found[0].name == "Anna" && found[1].name == "JUAN"
  {
    SearchExampleNames();
  }

  /** The service methods, each one atomic step on the store. */

  method CreateStudent(db: Database, dto: StudentDTO) returns (r: Result<StudentDTO>)
    requires db.Valid()
    modifies db
    ensures db.Valid()
    ensures (r, db.Model()) == Create(old(db.Model()), dto)
  {
    ghost var t := db.Model();
    assert WellFormed(Create(t, dto).1) by { CreatePreservesWellFormed(t, dto); }
    if EmailTaken(db.students, dto.email, db.nextStudentId) {
      return Err(UniqueConstraintViolation);
    }
    var s := ConvertToEntity(dto, db.nextStudentId);
    db.students := db.students + [s];
    db.nextStudentId := db.nextStudentId + 1;
    r := Ok(ConvertToDTO(s, db.Rows()));
    assert db.Model() == Create(t, dto).1;
  }

  method UpdateStudent(db: Database, id: nat, dto: StudentDTO) returns (r: Result<Option<StudentDTO>>)
    requires db.Valid()
    modifies db
    ensures db.Valid()
    ensures (r, db.Model()) == Update(old(db.Model()), id, dto)
  {
    ghost var t := db.Model();
    assert WellFormed(Update(t, id, dto).1) by { UpdatePreservesWellFormed(t, id, dto); }
    match FindStudent(db.students, id)
    case None =>
      r := Ok(None);
    case Some(i) =>
      if EmailTaken(db.students, dto.email, id) {
        r := Err(UniqueConstraintViolation);
      } else {
        var s := db.students[i];
        var s' := s.(name := dto.name, email := dto.email, phone := dto.phone,
                     active := if dto.active.Some? then dto.active.value else s.active);
        db.students := db.students[i := s'];
        r := Ok(Some(ConvertToDTO(s', db.Rows())));
        assert db.Model() == Update(t, id, dto).1;
      }
  }

  /** What happens to the deleted student's enrollment rows is decided by the
      student entity's mapping, which is not part of this model; this method
      states only the student table. */
  method DeleteStudent(db: Database, id: nat) returns (deleted: bool)
    requires db.Valid()
    modifies db
    ensures db.Valid()
    ensures (deleted, db.students) == Delete(old(db.students), id)
    ensures db.courses == old(db.courses)
    ensures db.nextStudentId == old(db.nextStudentId) && db.nextCourseId == old(db.nextCourseId)
    ensures db.nextEnrollmentId == old(db.nextEnrollmentId)
  {
    ghost var t := db.Model();
    assert StudentTableOk(Delete(t.students, id).1, t.nextStudentId) by { DeleteRemovesOnlyThatKey(t, id); }
    var found := FindStudent(db.students, id);
    deleted := found.Some?;
    if deleted {
      var i := found.value;
      db.students := db.students[..i] + db.students[i + 1..];
      assert db.Model() == t.(students := Delete(t.students, id).1);
    }
  }

  method ActivateStudent(db: Database, id: nat) returns (found: bool)
    requires db.Valid()
    modifies db
    ensures db.Valid()
    ensures (found, db.Model()) == SetActive(old(db.Model()), id, true)
  {
    found := SetActiveOn(db, id, true);
  }

  method DeactivateStudent(db: Database, id: nat) returns (found: bool)
    requires db.Valid()
    modifies db
    ensures db.Valid()
    ensures (found, db.Model()) == SetActive(old(db.Model()), id, false)
  {
    found := SetActiveOn(db, id, false);
  }

  /** The shared body of activation and deactivation: find, set the flag, save. */
  method SetActiveOn(db: Database, id: nat, flag: bool) returns (found: bool)
    requires db.Valid()
    modifies db
    ensures db.Valid()
    ensures (found, db.Model()) == SetActive(old(db.Model()), id, flag)
  {
    ghost var t := db.Model();
    assert WellFormed(SetActive(t, id, flag).1) by { SetActiveChangesOnlyFlag(t, id, flag); }
    match FindStudent(db.students, id)
    case None =>
      found := false;
    case Some(i) =>
      db.students := db.students[i := db.students[i].(active := flag)];
      found := true;
  }
}
