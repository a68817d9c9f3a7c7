/**
 * The database the data-access objects talk to: the `students`, `courses` and
 * `registrations` tables in storage order, and the next value of each table's
 * AUTO_INCREMENT key.
 */
module Store {
  import opened Wrappers
  import opened Rows
  import opened Model

  datatype Db = Db(
    students: seq<Student>,
    courses: seq<Course>,
    registrations: seq<Registration>,
    nextStudentId: int,
    nextCourseId: int,
    nextRegistrationId: int)

  /** A freshly created schema: empty tables, keys counting from 1. */
  function Empty(): Db {
    Db([], [], [], 1, 1, 1)
  }

  /** What a write returns: the new state and the DAO's boolean result. */
  datatype Step = Step(db: Db, ok: bool)

  /** What an insert returns: also the caller's object, with the generated key stored into it. */
  datatype Added<T> = Added(db: Db, ok: bool, entity: T)

  function StudentKey(s: Student): int { s.studentId }
  function CourseKey(c: Course): int { c.courseId }
  function RegistrationKey(r: Registration): int { r.registrationId }

  /** A `students` row as the table holds it: the server has stamped `enrollment_date`. */
  predicate StoredStudent(s: Student) {
    s.enrollmentDate.Some?
  }

  predicate StoredCourse(c: Course) {
    c.createdDate.Some?
  }

  /** A `registrations` row: stamped, with a status, and no joined snapshots. */
  predicate StoredRegistration(r: Registration) {
    r.registrationDate.Some? && r.status.Some? && r.student.None? && r.course.None?
  }

  /**
   * The invariant every reachable state keeps: primary keys are distinct,
   * positive and below the AUTO_INCREMENT counter, and every row has the
   * shape the table stores.
   */
  ghost predicate Wf(db: Db) {
    && 0 < db.nextStudentId && 0 < db.nextCourseId && 0 < db.nextRegistrationId
    && (forall s :: s in db.students ==> 0 < s.studentId < db.nextStudentId && StoredStudent(s))
    && (forall c :: c in db.courses ==> 0 < c.courseId < db.nextCourseId && StoredCourse(c))
    && (forall r :: r in db.registrations ==> 0 < r.registrationId < db.nextRegistrationId && StoredRegistration(r))
    && Distinct(db.students, StudentKey)
    && Distinct(db.courses, CourseKey)
    && Distinct(db.registrations, RegistrationKey)
  }

  lemma EmptyWf()
    ensures Wf(Empty())
  {
  }
}
