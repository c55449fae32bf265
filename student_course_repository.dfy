/** The enrollment queries, as functions over the rows of `student_courses` in
    table order. Each query is declarative in the original: a filter, a
    count, a single-row lookup, or a group-by / order-by count / limit 1. */
module StudentCourseRepository {
  import opened Common
  import opened Entities

  /** The column a count or a group-by is keyed on. */
  datatype Column = StudentColumn | CourseColumn

  function Key(e: Enrollment, col: Column): nat
  {
    match col
    case StudentColumn => e.studentId
    case CourseColumn => e.courseId
  }

  /** Row `e` is ACTIVE and its `col` column holds `k`. */
  predicate ActiveFor(e: Enrollment, col: Column, k: nat)
  {
    e.status == ACTIVE && Key(e, col) == k
  }

  /** The positions of the rows with status `status`. */
  ghost function StatusIndices(rows: seq<Enrollment>, status: EnrollmentStatus): set<nat>
  {
    set i: nat | i < |rows| && rows[i].status == status
  }

  /** Extending the table by its last row adds that row's position, if it has the status. */
  lemma StatusIndicesSnoc(rows: seq<Enrollment>, status: EnrollmentStatus)
    requires rows != []
    ensures StatusIndices(rows, status)
         == StatusIndices(rows[..|rows| - 1], status)
          + (if rows[|rows| - 1].status == status then {|rows| - 1} else {})
    ensures |rows| - 1 !in StatusIndices(rows[..|rows| - 1], status)
  {
    var n := |rows| - 1;
    var init := rows[..n];
    forall i: nat | i < n ensures init[i] == rows[i] { }
  }

  /** `findByStatus`: the rows whose status is `status`, in table order; one
      entry per such row, so its size is the number of those rows. */
  function FindByStatus(rows: seq<Enrollment>, status: EnrollmentStatus): (r: seq<Enrollment>)
    ensures |r| == |StatusIndices(rows, status)|
    ensures forall e :: e in r <==> e in rows && e.status == status
    ensures r == [] <==> forall i :: 0 <= i < |rows| ==> rows[i].status != status
    decreases |rows|
  {
    if rows == [] then []
    else
      var init, e := rows[..|rows| - 1], rows[|rows| - 1];
      assert rows == init + [e];
      StatusIndicesSnoc(rows, status);
      var r := FindByStatus(init, status);
      if e.status == status then r + [e] else r
  }

  /** `countActiveEnrollmentsByStudent` (for `StudentColumn`) and
      `countActiveEnrollmentsByCourse` (for `CourseColumn`):
      `SELECT COUNT(sc) ... WHERE <col> = k AND sc.status = 'ACTIVE'`. */
  function CountActiveBy(rows: seq<Enrollment>, col: Column, k: nat): (n: nat)
    decreases |rows|
  {
    if rows == [] then 0
    else
      var init, e := rows[..|rows| - 1], rows[|rows| - 1];
      assert rows == init + [e];
      CountActiveBy(init, col, k) + (if ActiveFor(e, col, k) then 1 else 0)
  }

  function CountActiveEnrollmentsByStudent(rows: seq<Enrollment>, studentId: nat): nat
  {
    CountActiveBy(rows, StudentColumn, studentId)
  }

  function CountActiveEnrollmentsByCourse(rows: seq<Enrollment>, courseId: nat): nat
  {
    CountActiveBy(rows, CourseColumn, courseId)
  }

  /** No key has more ACTIVE rows than there are ACTIVE rows. */
  lemma {:induction false} CountActiveByBound(rows: seq<Enrollment>, col: Column, k: nat)
    ensures CountActiveBy(rows, col, k) <= |FindByStatus(rows, ACTIVE)|
    decreases |rows|
  {
    if rows != [] {
      CountActiveByBound(rows[..|rows| - 1], col, k);
    }
  }

  /** A count is zero exactly when no row matches. */
  lemma {:induction false} CountActiveByZeroIff(rows: seq<Enrollment>, col: Column, k: nat)
    ensures CountActiveBy(rows, col, k) == 0 <==> forall i :: 0 <= i < |rows| ==> !ActiveFor(rows[i], col, k)
    decreases |rows|
  {
    if rows != [] {
      var n := |rows| - 1;
      CountActiveByZeroIff(rows[..n], col, k);
      assert forall i :: 0 <= i < n ==> rows[..n][i] == rows[i];
    }
  }

  /** The positions of the rows that `CountActiveBy` counts. */
  ghost function ActiveIndices(rows: seq<Enrollment>, col: Column, k: nat): set<nat>
  {
    set i: nat | i < |rows| && ActiveFor(rows[i], col, k)
  }

  /** Extending the table by its last row adds that row's position, if it matches. */
  lemma ActiveIndicesSnoc(rows: seq<Enrollment>, col: Column, k: nat)
    requires rows != []
    ensures ActiveIndices(rows, col, k)
         == ActiveIndices(rows[..|rows| - 1], col, k)
          + (if ActiveFor(rows[|rows| - 1], col, k) then {|rows| - 1} else {})
  {
    var n := |rows| - 1;
    var init := rows[..n];
    forall i: nat | i < n ensures init[i] == rows[i] { }
  }

  /** The count is the number of matching rows: `COUNT(*)` over the WHERE clause. */
  lemma {:induction false} CountActiveByIsCardinality(rows: seq<Enrollment>, col: Column, k: nat)
    ensures CountActiveBy(rows, col, k) == |ActiveIndices(rows, col, k)|
    decreases |rows|
  {
    if rows != [] {
      var n := |rows| - 1;
      CountActiveByIsCardinality(rows[..n], col, k);
      ActiveIndicesSnoc(rows, col, k);
      assert n !in ActiveIndices(rows[..n], col, k);
    }
  }

  /** Appending one row adds one to the count of its key exactly when it is ACTIVE. */
  lemma CountActiveByAppend(rows: seq<Enrollment>, e: Enrollment, col: Column, k: nat)
    ensures CountActiveBy(rows + [e], col, k)
         == CountActiveBy(rows, col, k) + (if ActiveFor(e, col, k) then 1 else 0)
  {
    assert (rows + [e])[..|rows|] == rows;
  }

  /** Replacing one row changes a count only by what the old and the new row contribute. */
  lemma {:induction false} CountActiveByUpdate(rows: seq<Enrollment>, i: nat, e: Enrollment, col: Column, k: nat)
    requires i < |rows|
    ensures CountActiveBy(rows[i := e], col, k) + (if ActiveFor(rows[i], col, k) then 1 else 0)
         == CountActiveBy(rows, col, k) + (if ActiveFor(e, col, k) then 1 else 0)
    decreases |rows|
  {
    var n := |rows| - 1;
    var updated := rows[i := e];
    if i == n {
      assert updated[..n] == rows[..n];
    } else {
      assert updated[..n] == rows[..n][i := e];
      CountActiveByUpdate(rows[..n], i, e, col, k);
    }
  }

  /** The outcome of a query that may return at most one row (`Optional`):
      no row, exactly one row (by position), or a fault because several match. */
  datatype Lookup = NoResult | Single(index: nat) | NonUnique

  /** Row `e` is an ACTIVE enrollment of student `s` in course `c`. */
  predicate IsActivePair(e: Enrollment, s: nat, c: nat)
  {
    e.studentId == s && e.courseId == c && e.status == ACTIVE
  }

  /** The single-result lookup over the first `n` rows. */
  function ScanActivePair(rows: seq<Enrollment>, s: nat, c: nat, n: nat): (r: Lookup)
    requires n <= |rows|
    ensures r.NoResult? <==> forall i :: 0 <= i < n ==> !IsActivePair(rows[i], s, c)
    ensures r.Single? ==> r.index < n && IsActivePair(rows[r.index], s, c)
    ensures r.Single? ==> forall j :: 0 <= j < n && j != r.index ==> !IsActivePair(rows[j], s, c)
    ensures r.NonUnique? ==>
      exists i, j :: 0 <= i < j < n && IsActivePair(rows[i], s, c) && IsActivePair(rows[j], s, c)
  {
    if n == 0 then NoResult
    else
      var r := ScanActivePair(rows, s, c, n - 1);
      if !IsActivePair(rows[n - 1], s, c) then r
      else if r.NoResult? then Single(n - 1)
      else if r.Single? then NonUnique
      else r
  }

  /** `findActiveEnrollment`: the ACTIVE row of the pair. It is empty exactly when
      no such row exists, and it faults when there are two or more. */
  function FindActiveEnrollment(rows: seq<Enrollment>, s: nat, c: nat): (r: Lookup)
    ensures r.NoResult? <==> forall i :: 0 <= i < |rows| ==> !IsActivePair(rows[i], s, c)
    ensures r.Single? ==> r.index < |rows| && IsActivePair(rows[r.index], s, c)
    ensures r.Single? ==> forall j :: 0 <= j < |rows| && j != r.index ==> !IsActivePair(rows[j], s, c)
    ensures r.NonUnique? <==>
      exists i, j :: 0 <= i < j < |rows| && IsActivePair(rows[i], s, c) && IsActivePair(rows[j], s, c)
  {
    ScanActivePair(rows, s, c, |rows|)
  }

  /** The invariant that the enroll guard maintains: no (student, course) pair has
      two ACTIVE rows. */
  predicate AtMostOneActivePerPair(rows: seq<Enrollment>)
  {
    forall i, j :: 0 <= i < j < |rows| && rows[i].status == ACTIVE && rows[j].status == ACTIVE
      ==> rows[i].studentId != rows[j].studentId || rows[i].courseId != rows[j].courseId
  }

  /** Under the invariant the single-result lookup never faults. */
  lemma AtMostOneActiveNeverFaults(rows: seq<Enrollment>, s: nat, c: nat)
    requires AtMostOneActivePerPair(rows)
    ensures !FindActiveEnrollment(rows, s, c).NonUnique?
  {
  }

  /** The best (key, count) among the keys of the ACTIVE rows in the first `n`
      rows, counting over all rows. A later key replaces the best so far only
      when its count is strictly larger. */
  function MaxAmong(rows: seq<Enrollment>, col: Column, n: nat): (r: Option<(nat, nat)>)
    requires n <= |rows|
    ensures r.None? <==> forall i :: 0 <= i < n ==> rows[i].status != ACTIVE
    ensures r.Some? ==> r.value.1 == CountActiveBy(rows, col, r.value.0)
    ensures r.Some? ==> exists i :: 0 <= i < n && ActiveFor(rows[i], col, r.value.0)
    ensures r.Some? ==> forall i :: 0 <= i < n && rows[i].status == ACTIVE ==>
      CountActiveBy(rows, col, Key(rows[i], col)) <= r.value.1
  {
    if n == 0 then None
    else
      var best := MaxAmong(rows, col, n - 1);
      var e := rows[n - 1];
      if e.status != ACTIVE then best
      else
        var count := CountActiveBy(rows, col, Key(e, col));
        assert ActiveFor(rows[n - 1], col, Key(e, col));
        if best.None? || best.value.1 < count then Some((Key(e, col), count)) else best
  }

  /** `findStudentWithMaxEnrollments` (for `StudentColumn`) and
      `findCourseWithMaxEnrollments` (for `CourseColumn`): group the ACTIVE rows
      by `col`, order by count descending, keep the first. Nothing when there is
      no ACTIVE row; otherwise a key with its count, and no key has a larger
      count. Which of several tied keys is reported is not fixed by the query. */
  function FindMaxBy(rows: seq<Enrollment>, col: Column): (r: Option<(nat, nat)>)
    ensures r.None? <==> FindByStatus(rows, ACTIVE) == []
    ensures r.Some? ==> r.value.1 == CountActiveBy(rows, col, r.value.0)
    ensures r.Some? ==> 1 <= r.value.1 <= |FindByStatus(rows, ACTIVE)|
    ensures r.Some? ==> forall k :: CountActiveBy(rows, col, k) <= r.value.1
  {
    var r := MaxAmong(rows, col, |rows|);
    MaxAmongIsMax(rows, col, r);
    r
  }

  lemma MaxAmongIsMax(rows: seq<Enrollment>, col: Column, r: Option<(nat, nat)>)
    requires r == MaxAmong(rows, col, |rows|)
    ensures r.Some? ==> 1 <= r.value.1 <= |FindByStatus(rows, ACTIVE)|
    ensures r.Some? ==> forall k :: CountActiveBy(rows, col, k) <= r.value.1
  {
    if r.Some? {
      CountActiveByZeroIff(rows, col, r.value.0);
      CountActiveByBound(rows, col, r.value.0);
      forall k | CountActiveBy(rows, col, k) > 0 ensures CountActiveBy(rows, col, k) <= r.value.1 {
        CountActiveByZeroIff(rows, col, k);
        var j :| 0 <= j < |rows| && ActiveFor(rows[j], col, k);
        assert Key(rows[j], col) == k;
      }
    }
  }

  function FindStudentWithMaxEnrollments(rows: seq<Enrollment>): Option<(nat, nat)>
  {
    FindMaxBy(rows, StudentColumn)
  }

  function FindCourseWithMaxEnrollments(rows: seq<Enrollment>): Option<(nat, nat)>
  {
    FindMaxBy(rows, CourseColumn)
  }
}
