/**
 * Properties of the entity classes: the three-valued status, what each
 * constructor leaves unset, identity-only equality with a consistent hash,
 * and the full-name rendering.
 */
module ModelProperties {
  import opened Wrappers
  import opened Model

  lemma StatusHasThreeValues(s: RegistrationStatus)
    ensures s == Active || s == Dropped || s == Completed
    ensures Active != Dropped && Dropped != Completed && Active != Completed
  {
  }

  /** `new Registration(studentId, courseId)` is ACTIVE, ungraded, undated, with id 0. */
  lemma NewRegistrationDefaults(studentId: int, courseId: int)
    ensures var r := NewRegistration(studentId, courseId);
            && r.registrationId == 0 && r.studentId == studentId && r.courseId == courseId
            && r.status == Some(Active) && r.grade.None? && r.registrationDate.None?
            && r.student.None? && r.course.None?
  {
  }

  /** The no-argument constructor leaves even the status null. */
  lemma DefaultRegistrationHasNoStatus()
    ensures DefaultRegistration().status.None? && DefaultRegistration().registrationId == 0
  {
  }

  lemma FullRegistrationStoresArguments(id: int, studentId: int, courseId: int, date: Option<Timestamp>,
                                        grade: Option<string>, status: Option<RegistrationStatus>)
    ensures var r := FullRegistration(id, studentId, courseId, date, grade, status);
            && r.registrationId == id && r.studentId == studentId && r.courseId == courseId
            && r.registrationDate == date && r.grade == grade && r.status == status
            && r.student.None? && r.course.None?
  {
  }

  /** `new Student(first, last, email, phone, dob)`: id 0, no enrollment date, the five fields as given. */
  lemma NewStudentDefaults(first: Option<string>, last: Option<string>, email: Option<string>,
                           phone: Option<string>, dob: Option<Date>)
    ensures NewStudent(first, last, email, phone, dob) == Student(0, first, last, email, phone, dob, None)
  {
  }

  /** `new Course(code, name, description, credits, instructor)`: id 0, no created date, the five fields as given. */
  lemma NewCourseDefaults(code: Option<string>, name: Option<string>, description: Option<string>,
                          credits: int, instructor: Option<string>)
    ensures NewCourse(code, name, description, credits, instructor) == Course(0, code, name, description, credits, instructor, None)
  {
  }

  /** Equality looks at the key alone, never equals null, is an equivalence, and agrees with the hash. */
  lemma RegistrationIdentity(a: Registration, b: Registration, c: Registration)
    ensures RegistrationEquals(a, Some(b)) <==> a.registrationId == b.registrationId
    ensures !RegistrationEquals(a, None)
    ensures RegistrationEquals(a, Some(a))
    ensures RegistrationEquals(a, Some(b)) ==> RegistrationEquals(b, Some(a))
    ensures RegistrationEquals(a, Some(b)) && RegistrationEquals(b, Some(c)) ==> RegistrationEquals(a, Some(c))
    ensures RegistrationEquals(a, Some(b)) ==> RegistrationHash(a) == RegistrationHash(b)
  {
  }

  lemma StudentIdentity(a: Student, b: Student, c: Student)
    ensures StudentEquals(a, Some(b)) <==> a.studentId == b.studentId
    ensures !StudentEquals(a, None)
    ensures StudentEquals(a, Some(a))
    ensures StudentEquals(a, Some(b)) ==> StudentEquals(b, Some(a))
    ensures StudentEquals(a, Some(b)) && StudentEquals(b, Some(c)) ==> StudentEquals(a, Some(c))
    ensures StudentEquals(a, Some(b)) ==> StudentHash(a) == StudentHash(b)
  {
  }

  lemma CourseIdentity(a: Course, b: Course, c: Course)
    ensures CourseEquals(a, Some(b)) <==> a.courseId == b.courseId
    ensures !CourseEquals(a, None)
    ensures CourseEquals(a, Some(a))
    ensures CourseEquals(a, Some(b)) ==> CourseEquals(b, Some(a))
    ensures CourseEquals(a, Some(b)) && CourseEquals(b, Some(c)) ==> CourseEquals(a, Some(c))
    ensures CourseEquals(a, Some(b)) ==> CourseHash(a) == CourseHash(b)
  {
  }

  /** Two students that differ in every field but the key are still equal. */
  lemma StudentEqualityIgnoresFields(a: Student)
    ensures StudentEquals(a, Some(DefaultStudent().(studentId := a.studentId)))
  {
  }

  /** The full name splits back into the first name, one space, and the last name. */
  lemma FullNameSplits(s: Student)
    requires s.firstName.Some? && s.lastName.Some?
    ensures var n, f, l := FullName(s), s.firstName.value, s.lastName.value;
            && |n| == |f| + 1 + |l|
            && n[..|f|] == f && n[|f|] == ' ' && n[|f| + 1..] == l
  {
  }

  /** Null names render as "null", as Java's string concatenation does. */
  lemma FullNameOfNullNames()
    ensures FullName(DefaultStudent()) == "null null"
  {
  }
}
