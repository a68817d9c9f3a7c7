/**
 * The three entities of the registration system. Every Java object reference
 * (String, LocalDate, LocalDateTime, the status enum, the joined snapshots)
 * may be null, so each is an `Option`; `int` fields are never null and default
 * to 0. Dates are opaque, ordered clock readings.
 */
module Model {
  import opened Wrappers
  import opened Text

  /** A database timestamp (`registration_date`, `enrollment_date`, `created_date`). */
  type Timestamp = nat
  /** A calendar date (`date_of_birth`), e.g. a day number. */
  type Date = int

  datatype RegistrationStatus = Active | Dropped | Completed

  datatype Student = Student(
    studentId: int,
    firstName: Option<string>,
    lastName: Option<string>,
    email: Option<string>,
    phone: Option<string>,
    dateOfBirth: Option<Date>,
    enrollmentDate: Option<Timestamp>)

  datatype Course = Course(
    courseId: int,
    courseCode: Option<string>,
    courseName: Option<string>,
    description: Option<string>,
    credits: int,
    instructor: Option<string>,
    createdDate: Option<Timestamp>)

  /**
   * A registration row, plus the display-only snapshots of its student and
   * course that the join queries fill in; those are never written back.
   */
  datatype Registration = Registration(
    registrationId: int,
    studentId: int,
    courseId: int,
    registrationDate: Option<Timestamp>,
    grade: Option<string>,
    status: Option<RegistrationStatus>,
    student: Option<Student>,
    course: Option<Course>)

  // ---- Student ----

  /** `new Student()`: every reference null, id 0. */
  function DefaultStudent(): Student {
    Student(0, None, None, None, None, None, None)
  }

  /** `new Student(firstName, lastName, email, phone, dateOfBirth)`, for a student not yet stored. */
  function NewStudent(firstName: Option<string>, lastName: Option<string>, email: Option<string>,
                      phone: Option<string>, dateOfBirth: Option<Date>): Student {
    DefaultStudent().(firstName := firstName, lastName := lastName, email := email,
                      phone := phone, dateOfBirth := dateOfBirth)
  }

  /** `getFullName()`: first and last name joined by one space, nulls rendered as "null". */
  function FullName(s: Student): string {
    JavaString(s.firstName) + " " + JavaString(s.lastName)
  }

  /** `equals`: same class and same `studentId`; nothing else is compared. */
  predicate StudentEquals(a: Student, other: Option<Student>) {
    other.Some? && other.value.studentId == a.studentId
  }

  /** `hashCode`: `Integer.hashCode(studentId)`, which is the id itself. */
  function StudentHash(s: Student): int {
    s.studentId
  }

  // ---- Course ----

  /** `new Course()`: every reference null, id and credits 0. */
  function DefaultCourse(): Course {
    Course(0, None, None, None, 0, None, None)
  }

  /** `new Course(courseCode, courseName, description, credits, instructor)`. */
  function NewCourse(courseCode: Option<string>, courseName: Option<string>, description: Option<string>,
                     credits: int, instructor: Option<string>): Course {
    DefaultCourse().(courseCode := courseCode, courseName := courseName, description := description,
                     credits := credits, instructor := instructor)
  }

  predicate CourseEquals(a: Course, other: Option<Course>) {
    other.Some? && other.value.courseId == a.courseId
  }

  function CourseHash(c: Course): int {
    c.courseId
  }

  // ---- Registration ----

  /** `new Registration()`: ids 0, every reference (status included) null. */
  function DefaultRegistration(): Registration {
    Registration(0, 0, 0, None, None, None, None, None)
  }

  /** `new Registration(studentId, courseId)`: a fresh ACTIVE registration. */
  function NewRegistration(studentId: int, courseId: int): Registration {
    DefaultRegistration().(studentId := studentId, courseId := courseId, status := Some(Active))
  }

  /** The six-argument constructor: the joined snapshots stay null. */
  function FullRegistration(registrationId: int, studentId: int, courseId: int,
                            registrationDate: Option<Timestamp>, grade: Option<string>,
                            status: Option<RegistrationStatus>): Registration {
    Registration(registrationId, studentId, courseId, registrationDate, grade, status, None, None)
  }

  predicate RegistrationEquals(a: Registration, other: Option<Registration>) {
    other.Some? && other.value.registrationId == a.registrationId
  }

  function RegistrationHash(r: Registration): int {
    r.registrationId
  }
}
