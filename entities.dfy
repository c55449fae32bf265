/** The three stored records. Students and courses are values that the services
    replace in their table; an enrollment (`StudentCourse`) is an object whose
    status the admin operations overwrite in place. Identifiers are the
    store-generated keys; references to a student or a course are held by key.
    Timestamps are not modelled. */
module Entities {

  datatype Student = Student(id: nat, name: string, email: string, phone: string, active: bool)

  /** A `BigDecimal` as unscaled value and scale; the model does no arithmetic on it. */
  datatype Decimal = Decimal(unscaled: int, scale: int)

  datatype Course = Course(
    id: nat,
    name: string,
    description: string,
    courseCode: string,
    credits: int,
    fee: Decimal,
    active: bool)

  /** The four enrollment states; any state may be set from any other. */
  datatype EnrollmentStatus = ACTIVE | COMPLETED | DROPPED | SUSPENDED

  /** The value of one `student_courses` row, as the queries see it. */
  datatype Enrollment = Enrollment(
    id: nat,
    studentId: nat,
    courseId: nat,
    enrolledBy: string,
    status: EnrollmentStatus)

  /** The enrollment entity. An `id` of 0 stands for the null id of an entity
      that has not been saved yet; saved rows get keys from 1 upwards. */
  class StudentCourse {
    var id: nat
    var studentId: nat
    var courseId: nat
    var enrolledBy: string
    var status: EnrollmentStatus

    /** The three-argument constructor: records the student, the course and the
        admin, and starts in the field's default status ACTIVE. */
    constructor (studentId: nat, courseId: nat, enrolledBy: string)
      ensures this.id == 0
      ensures this.studentId == studentId && this.courseId == courseId
      ensures this.enrolledBy == enrolledBy
      ensures this.status == ACTIVE
    {
      this.id := 0;
      this.studentId := studentId;
      this.courseId := courseId;
      this.enrolledBy := enrolledBy;
      this.status := ACTIVE;
    }

    /** Overwrites the status, whatever it was; no other field changes. */
    method SetStatus(status: EnrollmentStatus)
      modifies this`status
      ensures this.status == status
    {
      this.status := status;
    }

    function Snapshot(): Enrollment
      reads this
    {
      Enrollment(id, studentId, courseId, enrolledBy, status)
    }
  }
}
