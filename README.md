# Student management: enrollment core

This project models the service layer of a Spring student-management backend,
together with the enrollment queries that layer relies on, and proves
properties of the model. The backend keeps three tables. `students` and
`courses` hold records with an active flag. `student_courses` holds
enrollment rows, each linking one student to one course with a status
(ACTIVE, COMPLETED, DROPPED or SUSPENDED) and the name of the admin who
created it.

- `Common`: optional values and results, store faults, Java's
  `Long.intValue()` narrowing, and the case-insensitive substring test.
- `Entities`: the records. `StudentCourse` is a class, because the admin
  service changes its status in place.
- `StudentCourseRepository`: the enrollment queries as functions over the
  rows, in table order. These are the status filter, the two ACTIVE counts,
  the single-result lookup of a pair's ACTIVE row (it faults when two rows
  match) and the two group-by / limit-1 maximum queries.
- `Store`: the state. `Tables` is its value and `WellFormed` its invariant:
  ascending keys, keys below the identity counters, unique emails and course
  codes, and rows that refer to keys already handed out. `Database` holds the
  same state in mutable fields, with the enrollment rows as `StudentCourse`
  objects.
- `Students`, `Courses` and `Admin`: the three services. Every state change is
  a pure transition on `Tables`, and its lemmas prove what the transition
  does. A method on `Database` performs the change. Each method is proved
  equal to its transition, except `DeleteStudent`, which is proved only for
  the student table, the course table and the counters (see "## Left out").

The central invariant is `AtMostOneActivePerPair`: no (student, course) pair
has two ACTIVE rows. The enroll guard maintains it, and so do unenroll and
course deletion. A status change does not: `ChangeStatusCanBreakInvariant`
shows a well-formed store in which reactivating a DROPPED row gives a pair two
ACTIVE rows. `BrokenInvariantFaults` shows that afterwards both enroll and
unenroll of that pair fault in the single-result lookup.

## Model

| member | source | states |
|---|---|---|
| Common.IntValue | src/main/java/com/studentmanagement/service/StudentService.java:123-124 | `Long.intValue()` keeps the low 32 bits: the result is an int, congruent to the count modulo 2^32, and equal to it when the count fits |
| Common.Upper | src/main/java/com/studentmanagement/service/StudentService.java:55-60 | upper-casing keeps the length and folds every character in place |
| Common.IsSubstringIffOccurs | src/main/java/com/studentmanagement/service/StudentService.java:55-60 | the executable "name contains" test holds exactly when the fragment occurs at some position |
| Common.FirstIndex | src/main/java/com/studentmanagement/service/StudentService.java:45-48 | a by-key lookup finds the first matching record, and finds none exactly when no record matches |
| Entities.StudentCourse.constructor | src/main/java/com/studentmanagement/entity/StudentCourse.java:30-46 | a new enrollment records the student, the course and the admin, has no key yet, and starts in the default status ACTIVE |
| Entities.StudentCourse.SetStatus | src/main/java/com/studentmanagement/entity/StudentCourse.java:93-95 | the status is overwritten with the given value, whatever it was |
| StudentCourseRepository.FindByStatus | src/main/java/com/studentmanagement/repository/StudentCourseRepository.java:14 | exactly the rows with that status, one entry per such row, so its size is their number; empty exactly when no row has it |
| StudentCourseRepository.CountActiveByIsCardinality | src/main/java/com/studentmanagement/repository/StudentCourseRepository.java:22-26 | each ACTIVE count is the number of ACTIVE rows with that key |
| StudentCourseRepository.CountActiveByZeroIff | src/main/java/com/studentmanagement/repository/StudentCourseRepository.java:22-26 | a count is zero exactly when no ACTIVE row has that key |
| StudentCourseRepository.CountActiveByBound | src/main/java/com/studentmanagement/repository/StudentCourseRepository.java:22-26 | no key's count exceeds the number of ACTIVE rows |
| StudentCourseRepository.CountActiveByAppend | src/main/java/com/studentmanagement/repository/StudentCourseRepository.java:22-26 | appending a row adds one to its key's count exactly when the row is ACTIVE |
| StudentCourseRepository.CountActiveByUpdate | src/main/java/com/studentmanagement/repository/StudentCourseRepository.java:22-26 | replacing a row changes each count only by what the old and new row contribute |
| StudentCourseRepository.ScanActivePair | src/main/java/com/studentmanagement/repository/StudentCourseRepository.java:46-47 | over a prefix of the rows: no result exactly when no row matches the pair; a single result is the only match; a fault means two matches |
| StudentCourseRepository.FindActiveEnrollment | src/main/java/com/studentmanagement/repository/StudentCourseRepository.java:46-47 | empty exactly when the pair has no ACTIVE row; one row when it has one; a fault exactly when it has two or more |
| StudentCourseRepository.AtMostOneActiveNeverFaults | src/main/java/com/studentmanagement/repository/StudentCourseRepository.java:46-47 | when no pair has two ACTIVE rows, the lookup never faults |
| StudentCourseRepository.MaxAmong | src/main/java/com/studentmanagement/repository/StudentCourseRepository.java:29-35 | over a prefix: nothing exactly when it has no ACTIVE row, otherwise a key of an ACTIVE row with its full count, and no ACTIVE row's key has more |
| StudentCourseRepository.FindMaxBy | src/main/java/com/studentmanagement/repository/StudentCourseRepository.java:29-44 | nothing exactly when there is no ACTIVE row; otherwise a key, its ACTIVE count (between 1 and the number of ACTIVE rows), and no key has a larger count |
| Students.ToDTOs | src/main/java/com/studentmanagement/service/StudentService.java:24-29 | the listing converts every record, in table order |
| Students.Where | src/main/java/com/studentmanagement/service/StudentService.java:31-43 | a derived query returns exactly the records that match it |
| Students.WhereActiveMember | src/main/java/com/studentmanagement/service/StudentService.java:31-43 | a record is in the active (inactive) listing exactly when it is in the full listing with that flag |
| Students.WhereAppend | src/main/java/com/studentmanagement/service/StudentService.java:31-43 | a query over two tables in sequence gives the two answers in sequence |
| Students.WhereActiveCount | src/main/java/com/studentmanagement/service/StudentService.java:31-43 | the active (inactive) listing has one entry per student with that flag |
| Students.WherePartition | src/main/java/com/studentmanagement/service/StudentService.java:31-43 | the active and inactive listings together are as long as the table |
| Students.ActiveInactivePartitionAll | src/main/java/com/studentmanagement/service/StudentService.java:24-43 | the active and inactive listings split the full listing by the active flag |
| Students.GetStudentById | src/main/java/com/studentmanagement/service/StudentService.java:45-48 | empty exactly when no record has the key; otherwise that record as listed |
| Students.GetStudentByEmail | src/main/java/com/studentmanagement/service/StudentService.java:50-53 | empty exactly when no record has the email; otherwise a record with that email as listed |
| Students.SearchStudentsByName | src/main/java/com/studentmanagement/service/StudentService.java:55-60 | exactly the students whose name contains the fragment, ignoring case |
| Students.SearchExampleNames | src/main/java/com/studentmanagement/service/StudentService.java:55-60 | "an" matches "Anna" and "JUAN" and not "Bob" |
| Students.SearchIgnoresCase | src/main/java/com/studentmanagement/service/StudentService.java:55-60 | searching "an" among Anna, Bob and JUAN returns Anna and JUAN, in table order |
| Students.EnrolledCountIsActiveRows | src/main/java/com/studentmanagement/service/StudentService.java:108-127 | the reported count is the number of the student's ACTIVE rows; the converted record carries it when it fits in an int |
| Students.Create | src/main/java/com/studentmanagement/service/StudentService.java:62-66 | a refusal (unique constraint) happens exactly when another student has the email, and leaves the store unchanged |
| Students.CreateStoresRequest | src/main/java/com/studentmanagement/service/StudentService.java:129-135 | the new record has the request's fields, is active unless the request says false, and is appended under the next key; nothing else changes |
| Students.CreatedIsNew | src/main/java/com/studentmanagement/service/StudentService.java:62-66 | the new key was unused, the answer is what getStudentById reads back, and its count is 0 |
| Students.CreatePreservesWellFormed | src/main/java/com/studentmanagement/service/StudentService.java:62-66 | create keeps the store well formed |
| Students.Update | src/main/java/com/studentmanagement/service/StudentService.java:68-80 | empty exactly when the key is absent; a refusal exactly when another student has the email; both leave the store unchanged |
| Students.UpdateOverwritesFields | src/main/java/com/studentmanagement/service/StudentService.java:68-80 | only that record changes: name, email and phone from the request, the flag only when the request has one |
| Students.UpdateReadsBack | src/main/java/com/studentmanagement/service/StudentService.java:68-80 | the answer is what getStudentById reads back afterwards |
| Students.UpdatePreservesWellFormed | src/main/java/com/studentmanagement/service/StudentService.java:68-80 | update keeps the store well formed |
| Students.Delete | src/main/java/com/studentmanagement/service/StudentService.java:82-88 | true exactly when a record has the key; nothing changes otherwise |
| Students.DeleteRemovesOnlyThatKey | src/main/java/com/studentmanagement/service/StudentService.java:82-88 | afterwards the key is not found, every other record remains, and the table stays ordered |
| Students.SetActive | src/main/java/com/studentmanagement/service/StudentService.java:90-106 | true exactly when a record has the key; nothing changes otherwise |
| Students.SetActiveChangesOnlyFlag | src/main/java/com/studentmanagement/service/StudentService.java:90-106 | only that record's active flag changes, and the store stays well formed |
| Students.DeactivateThenActivate | src/main/java/com/studentmanagement/service/StudentService.java:90-106 | deactivating then activating equals activating alone, and restores an active student's store exactly |
| Students.CreateStudent | src/main/java/com/studentmanagement/service/StudentService.java:62-66 | the method performs `Students.Create` on the database and keeps it valid |
| Students.UpdateStudent | src/main/java/com/studentmanagement/service/StudentService.java:68-80 | the method performs `Students.Update` and keeps the database valid |
| Students.DeleteStudent | src/main/java/com/studentmanagement/service/StudentService.java:82-88 | the student table becomes `Students.Delete` of the old one; the courses and all three counters are unchanged; the database stays valid |
| Students.ActivateStudent | src/main/java/com/studentmanagement/service/StudentService.java:90-97 | the method performs `SetActive` with true |
| Students.DeactivateStudent | src/main/java/com/studentmanagement/service/StudentService.java:99-106 | the method performs `SetActive` with false |
| Students.SetActiveOn | src/main/java/com/studentmanagement/service/StudentService.java:90-106 | the shared find-set-save step performs `SetActive` and keeps the database valid |
| Courses.ToDTOs | src/main/java/com/studentmanagement/service/CourseService.java:24-29 | the listing converts every course, in table order |
| Courses.Where | src/main/java/com/studentmanagement/service/CourseService.java:31-43 | a derived query returns exactly the courses that match it |
| Courses.WhereActiveMember | src/main/java/com/studentmanagement/service/CourseService.java:31-43 | a course is in the active (inactive) listing exactly when it is in the full listing with that flag |
| Courses.WhereAppend | src/main/java/com/studentmanagement/service/CourseService.java:31-43 | a query over two tables in sequence gives the two answers in sequence |
| Courses.WhereActiveCount | src/main/java/com/studentmanagement/service/CourseService.java:31-43 | the active (inactive) listing has one entry per course with that flag |
| Courses.WherePartition | src/main/java/com/studentmanagement/service/CourseService.java:31-43 | the two listings together are as long as the table |
| Courses.ActiveInactivePartitionAll | src/main/java/com/studentmanagement/service/CourseService.java:24-43 | the active and inactive listings split the full listing by the active flag |
| Courses.GetCourseById | src/main/java/com/studentmanagement/service/CourseService.java:45-48 | empty exactly when no course has the key; otherwise that course as listed |
| Courses.GetCourseByCourseCode | src/main/java/com/studentmanagement/service/CourseService.java:50-53 | empty exactly when no course has the code; otherwise a course with that code as listed |
| Courses.SearchCoursesByName | src/main/java/com/studentmanagement/service/CourseService.java:55-60 | exactly the courses whose name contains the fragment, ignoring case |
| Courses.EnrolledCountIsActiveRows | src/main/java/com/studentmanagement/service/CourseService.java:110-131 | the reported count is the number of the course's ACTIVE rows; the converted course carries it when it fits in an int |
| Courses.Create | src/main/java/com/studentmanagement/service/CourseService.java:62-66 | a refusal (unique constraint on the course code) happens exactly when another course has the code, and leaves the store unchanged |
| Courses.CreateStoresRequest | src/main/java/com/studentmanagement/service/CourseService.java:133-142 | the new course has the request's fields, is active unless the request says false, and is appended under the next key; nothing else changes |
| Courses.CreatedIsNew | src/main/java/com/studentmanagement/service/CourseService.java:62-66 | the new key was unused, the answer is what getCourseById reads back, and its count is 0 |
| Courses.CreatePreservesWellFormed | src/main/java/com/studentmanagement/service/CourseService.java:62-66 | create keeps the store well formed |
| Courses.Update | src/main/java/com/studentmanagement/service/CourseService.java:68-82 | empty exactly when the key is absent; a refusal exactly when another course has the code; both leave the store unchanged |
| Courses.UpdateOverwritesFields | src/main/java/com/studentmanagement/service/CourseService.java:68-82 | only that course changes: name, description, code, credits and fee from the request, the flag only when the request has one |
| Courses.UpdateReadsBack | src/main/java/com/studentmanagement/service/CourseService.java:68-82 | the answer is what getCourseById reads back afterwards |
| Courses.UpdatePreservesWellFormed | src/main/java/com/studentmanagement/service/CourseService.java:68-82 | update keeps the store well formed |
| Courses.WithoutCourse | src/main/java/com/studentmanagement/entity/Course.java:51 | the cascade keeps exactly the rows of other courses |
| Courses.WithoutCourseAscends | src/main/java/com/studentmanagement/entity/Course.java:51 | the surviving rows keep their key order |
| Courses.WithoutCourseKeepsTable | src/main/java/com/studentmanagement/entity/Course.java:51 | the surviving rows form a well-formed enrollment table |
| Courses.WithoutCourseKeepsAtMostOne | src/main/java/com/studentmanagement/entity/Course.java:51 | the cascade cannot give a pair a second ACTIVE row |
| Courses.WithoutCourseCounts | src/main/java/com/studentmanagement/entity/Course.java:51 | after the cascade no row refers to the course and its ACTIVE count is zero |
| Courses.WithoutCourseObjects | src/main/java/com/studentmanagement/entity/Course.java:51 | the surviving objects are stored objects whose rows are exactly the surviving rows |
| Courses.Delete | src/main/java/com/studentmanagement/service/CourseService.java:84-90 | true exactly when a course has the key; nothing changes otherwise |
| Courses.DeleteRemovesCourseAndRows | src/main/java/com/studentmanagement/service/CourseService.java:84-90 | afterwards the key is not found, every other course remains, exactly the rows of other courses remain, and students are untouched |
| Courses.DeletePreservesWellFormed | src/main/java/com/studentmanagement/service/CourseService.java:84-90 | delete keeps the store well formed and keeps at most one ACTIVE row per pair |
| Courses.SetActive | src/main/java/com/studentmanagement/service/CourseService.java:92-108 | true exactly when a course has the key; nothing changes otherwise |
| Courses.SetActiveChangesOnlyFlag | src/main/java/com/studentmanagement/service/CourseService.java:92-108 | only that course's active flag changes, and the store stays well formed |
| Courses.DeactivateThenActivate | src/main/java/com/studentmanagement/service/CourseService.java:92-108 | deactivating then activating equals activating alone, and restores an active course's store exactly |
| Courses.CreateCourse | src/main/java/com/studentmanagement/service/CourseService.java:62-66 | the method performs `Courses.Create` and keeps the database valid |
| Courses.UpdateCourse | src/main/java/com/studentmanagement/service/CourseService.java:68-82 | the method performs `Courses.Update` and keeps the database valid |
| Courses.DeleteCourse | src/main/java/com/studentmanagement/service/CourseService.java:84-90 | the method performs `Courses.Delete`, cascade included, and keeps the database valid |
| Courses.DropCourseRows | src/main/java/com/studentmanagement/entity/Course.java:51 | the stored rows become the surviving rows; nothing else changes |
| Courses.ActivateCourse | src/main/java/com/studentmanagement/service/CourseService.java:92-99 | the method performs `SetActive` with true |
| Courses.DeactivateCourse | src/main/java/com/studentmanagement/service/CourseService.java:101-108 | the method performs `SetActive` with false |
| Courses.SetActiveOn | src/main/java/com/studentmanagement/service/CourseService.java:92-108 | the shared find-set-save step performs `SetActive` and keeps the database valid |
| Admin.Enroll | src/main/java/com/studentmanagement/service/AdminService.java:31-65 | any answer other than true leaves the store unchanged; a fault is only the non-unique lookup |
| Admin.EnrollSucceedsIff | src/main/java/com/studentmanagement/service/AdminService.java:31-65 | enroll succeeds exactly when the student and the course exist and are active and the pair has no ACTIVE row; it faults exactly when the guards pass and the pair has two |
| Admin.EnrollRefusesInactiveStudent | src/main/java/com/studentmanagement/service/AdminService.java:33-36 | an absent or inactive student is refused first, whatever the course and rows |
| Admin.EnrollRefusesInactiveCourse | src/main/java/com/studentmanagement/service/AdminService.java:39-42 | with an active student, an absent or inactive course is refused |
| Admin.EnrollAppendsRow | src/main/java/com/studentmanagement/service/AdminService.java:52-64 | success appends one ACTIVE row for the pair and the admin under the next key, and nothing else changes |
| Admin.EnrollPreservesInvariants | src/main/java/com/studentmanagement/service/AdminService.java:44-49 | enroll keeps the store well formed and at most one ACTIVE row per pair |
| Admin.EnrollCounts | src/main/java/com/studentmanagement/service/AdminService.java:55-64 | success adds one to the student's and the course's ACTIVE counts and to no other count |
| Admin.EnrollTwiceRefused | src/main/java/com/studentmanagement/service/AdminService.java:44-49 | a second enroll of the same pair is refused and changes nothing |
| Admin.Unenroll | src/main/java/com/studentmanagement/service/AdminService.java:67-77 | false exactly when the pair has no ACTIVE row; any answer other than true leaves the store unchanged |
| Admin.UnenrollDropsTheRow | src/main/java/com/studentmanagement/service/AdminService.java:67-77 | under the invariant it never faults; exactly the pair's ACTIVE row becomes DROPPED, and the pair has no ACTIVE row afterwards |
| Admin.UnenrollIgnoresRecords | src/main/java/com/studentmanagement/service/AdminService.java:67-77 | unenroll reads neither the students nor the courses |
| Admin.UnenrollPreservesInvariants | src/main/java/com/studentmanagement/service/AdminService.java:67-77 | unenroll keeps the store well formed and at most one ACTIVE row per pair |
| Admin.UnenrollCounts | src/main/java/com/studentmanagement/service/AdminService.java:67-77 | success takes one from the student's and the course's ACTIVE counts and from no other |
| Admin.EnrollThenUnenrollRestoresCounts | src/main/java/com/studentmanagement/service/AdminService.java:31-77 | enrolling a new pair and then unenrolling it succeeds and leaves every ACTIVE count as before |
| Admin.ChangeStatus | src/main/java/com/studentmanagement/service/AdminService.java:128-136 | true exactly when a row has the key; nothing changes otherwise |
| Admin.ChangeStatusRewritesOneRow | src/main/java/com/studentmanagement/service/AdminService.java:128-136 | only that row's status changes, the lookup by key reads the new status, and the store stays well formed |
| Admin.ReactivationExampleWellFormed | src/main/java/com/studentmanagement/service/AdminService.java:128-136 | the stores of the reactivation example are well formed |
| Admin.ReenrollmentReachesExample | src/main/java/com/studentmanagement/service/AdminService.java:31-77 | enrolling, unenrolling and enrolling the same pair again all succeed and produce the example store with a DROPPED and an ACTIVE row |
| Admin.ChangeStatusCanBreakInvariant | src/main/java/com/studentmanagement/service/AdminService.java:128-136 | from a store with at most one ACTIVE row per pair, reactivating a DROPPED row gives the pair two ACTIVE rows |
| Admin.BrokenInvariantFaults | src/main/java/com/studentmanagement/repository/StudentCourseRepository.java:46-47 | with two ACTIVE rows for a pair, enroll and unenroll of that pair both fault |
| Admin.MaxStudentEntry | src/main/java/com/studentmanagement/service/AdminService.java:87-104 | absent exactly when there is no ACTIVE row or the reported student no longer exists; otherwise a student's name and email with a count that no student exceeds |
| Admin.MaxCourseEntry | src/main/java/com/studentmanagement/service/AdminService.java:106-123 | absent exactly when there is no ACTIVE row or the reported course no longer exists; otherwise a course's name and code with a count that no course exceeds |
| Admin.GetEnrollmentStats | src/main/java/com/studentmanagement/service/AdminService.java:79-126 | the totals are the numbers of active students, active courses and ACTIVE rows, each counted as a set of positions, and the two entries are the maxima |
| Admin.StatsOfEmptyStore | src/main/java/com/studentmanagement/service/AdminService.java:79-126 | an empty store reports zero totals and no maxima |
| Admin.StatsExampleCounts | src/main/java/com/studentmanagement/repository/StudentCourseRepository.java:22-26 | in the example store, key 1 has two ACTIVE rows and key 2 has one, by student and by course |
| Admin.StatsExampleActiveRows | src/main/java/com/studentmanagement/repository/StudentCourseRepository.java:14 | the example's DROPPED row is not among the ACTIVE rows |
| Admin.StatsExampleStudentMax | src/main/java/com/studentmanagement/service/AdminService.java:87-104 | in the example Ann, with two courses, is the student with the most courses |
| Admin.StatsExampleCourseMax | src/main/java/com/studentmanagement/service/AdminService.java:106-123 | in the example Logic, with two students, is the course with the most students |
| Admin.StatsExample | src/main/java/com/studentmanagement/service/AdminService.java:79-126 | the example's statistics name Ann and Logic and count three ACTIVE rows |
| Admin.EnrollStudentToCourse | src/main/java/com/studentmanagement/service/AdminService.java:31-65 | the method performs `Admin.Enroll` on the database and keeps it valid |
| Admin.NewEnrollment | src/main/java/com/studentmanagement/service/AdminService.java:56-61 | the new object's row is the pair, the admin, the given key and status ACTIVE |
| Admin.Save | src/main/java/com/studentmanagement/service/AdminService.java:63 | saving appends the new row under the next key and changes nothing else |
| Admin.UnenrollStudentFromCourse | src/main/java/com/studentmanagement/service/AdminService.java:67-77 | the method performs `Admin.Unenroll` by writing the status in place, and keeps the database valid |
| Admin.ChangeEnrollmentStatus | src/main/java/com/studentmanagement/service/AdminService.java:128-136 | the method performs `Admin.ChangeStatus` by writing the status in place, and keeps the database valid |
| Admin.WriteStatus | src/main/java/com/studentmanagement/service/AdminService.java:131-132 | writing one object's status changes exactly that row, because distinct rows are distinct objects |

## Left out

- The HTTP controllers, Spring Security and the DTO classes' accessors are not modelled. The signed-in admin's name, which the source reads from the security context, is a parameter of enroll.
- Transactions and concurrency are not modelled: every service call is one atomic step. The check-then-insert race of enroll under concurrent requests is therefore not represented.
- Timestamps (`createdAt`, `updatedAt`, `enrolledAt`) are not modelled, because they come from the clock.
- Bean Validation constraints (non-blank names, email format, code length, credits of at least 1) are not modelled. These are the annotations on the entities and on the request bodies; a save that violates one fails.
- `null` arguments and `null` string fields are not modelled. Keys are natural numbers and strings are sequences. Only the nullable `active` field of a request is an `Option`.
- `BigDecimal` fees are carried as an unscaled value and a scale, with no arithmetic.
- The unused repository queries `findByStudentId`, `findByCourseId` and `findByStudentIdAndCourseId` are not modelled, because no service calls them.
- The `notes` field of an enroll request is accepted and ignored, as in the source.
- The native queries' `Object[]` result shape is modelled as an optional (key, count) pair.
- `Students.DeleteStudent`: does not state what happens to the deleted student's enrollment rows. That depends on the student entity's mapping, and Student.java is not part of this model.
- `Common.ContainsIgnoreCase`: folds only ASCII letters. The database's `UPPER` folds all of Unicode.
- `StudentCourseRepository.FindMaxBy`: among tied keys it returns the first in row order. The SQL query leaves that choice to the engine, so the contract states only what every tie-break satisfies.
- `Students.Create`, `Students.Update`, `Courses.Create` and `Courses.Update`: a duplicate email or course code is modelled as a refusal that changes nothing. The source raises the store's exception when the change is flushed, and the transaction rolls back; neither the exception nor the rollback is modelled.
