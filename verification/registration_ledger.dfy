/**
 * The registration ledger (`RegistrationDAOImpl`): the `registrations` table
 * relating students to courses. Registering checks for an existing row for
 * the (student, course) pair before inserting; the raw insert does not.
 * Dropping deletes rows outright, whereas setting the status to DROPPED keeps
 * the row. Grade and status updates are unconditional, counts see only ACTIVE
 * rows, and the listings are inner joins against the two catalogs.
 */
module RegistrationLedger {
  import opened Wrappers
  import opened Rows
  import opened Sorting
  import opened Model
  import opened Store
  import StudentCatalog
  import CourseCatalog

  /** `WHERE registration_id = id`. */
  function HasId(id: int): Registration -> bool {
    (x: Registration) => x.registrationId == id
  }

  /** `WHERE student_id = ? AND course_id = ?`. */
  function HasPair(studentId: int, courseId: int): Registration -> bool {
    (x: Registration) => x.studentId == studentId && x.courseId == courseId
  }

  /** `WHERE course_id = ? AND status = 'ACTIVE'`. */
  function ActiveInCourse(courseId: int): Registration -> bool {
    (x: Registration) => x.courseId == courseId && x.status == Some(Active)
  }

  /** `WHERE student_id = ? AND status = 'ACTIVE'`. */
  function ActiveForStudent(studentId: int): Registration -> bool {
    (x: Registration) => x.studentId == studentId && x.status == Some(Active)
  }

  function Pair(x: Registration): (int, int) {
    (x.studentId, x.courseId)
  }

  /** The ledger's intended invariant: at most one row per (student, course) pair. */
  ghost predicate UniquePairs(db: Db) {
    Distinct(db.registrations, Pair)
  }

  // ---- Ordering of the listings ----

  /** Ascending timestamp order with NULL first. */
  predicate NotLater(a: Option<Timestamp>, b: Option<Timestamp>) {
    a.None? || (b.Some? && a.value <= b.value)
  }

  /** `ORDER BY r.registration_date DESC`. */
  predicate NewestFirst(a: Registration, b: Registration) {
    NotLater(b.registrationDate, a.registrationDate)
  }

  /** `ORDER BY s.last_name, s.first_name` over the joined student snapshot. */
  predicate ByEnrollee(a: Registration, b: Registration) {
    StudentCatalog.ByName(a.student.GetOr(DefaultStudent()), b.student.GetOr(DefaultStudent()))
  }

  lemma NewestFirstTotalPreorder()
    ensures TotalPreorder(NewestFirst)
  {
  }

  lemma ByEnrolleeTotalPreorder()
    ensures TotalPreorder(ByEnrollee)
  {
    StudentCatalog.ByNameTotalPreorder();
    forall x: Registration, y: Registration ensures ByEnrollee(x, y) || ByEnrollee(y, x) {
      assert StudentCatalog.ByName(x.student.GetOr(DefaultStudent()), y.student.GetOr(DefaultStudent()))
          || StudentCatalog.ByName(y.student.GetOr(DefaultStudent()), x.student.GetOr(DefaultStudent()));
    }
    forall x: Registration, y: Registration, z: Registration | ByEnrollee(x, y) && ByEnrollee(y, z)
      ensures ByEnrollee(x, z)
    {
      var a, b, c := x.student.GetOr(DefaultStudent()), y.student.GetOr(DefaultStudent()), z.student.GetOr(DefaultStudent());
      assert StudentCatalog.ByName(a, b) && StudentCatalog.ByName(b, c);
    }
  }

  // ---- Writes ----

  /** `isStudentRegisteredForCourse`: `COUNT(*) > 0` over the pair's rows, whatever their status. */
  function IsStudentRegisteredForCourse(db: Db, studentId: int, courseId: int): (r: bool)
    ensures r <==> exists x :: x in db.registrations && x.studentId == studentId && x.courseId == courseId
  {
    CountWhere(db.registrations, HasPair(studentId, courseId)) > 0
  }

  /**
   * `addRegistration`: inserts student id, course id and status, with no check
   * for an existing row; the server assigns the key and stamps the date, and
   * the grade is not written. `addRegistration` calls `getStatus().name()`
   * while binding the insert, so a null status throws and is outside its
   * contract.
   */
  function AddRegistration(db: Db, reg: Registration, now: Timestamp): (r: Added<Registration>)
    requires reg.status.Some?
    ensures r.ok
    ensures r.entity == reg.(registrationId := db.nextRegistrationId)
    ensures r.db.registrations ==
              db.registrations + [FullRegistration(r.entity.registrationId, reg.studentId, reg.courseId, Some(now), None, reg.status)]
    ensures Wf(db) ==> forall x :: x in db.registrations ==> x.registrationId != r.entity.registrationId
    ensures r.db == db.(registrations := r.db.registrations, nextRegistrationId := db.nextRegistrationId + 1)
  {
    var id := db.nextRegistrationId;
    var row := DefaultRegistration().(registrationId := id, studentId := reg.studentId, courseId := reg.courseId,
                                      registrationDate := Some(now), status := reg.status);
    Added(db.(registrations := db.registrations + [row], nextRegistrationId := id + 1), true, reg.(registrationId := id))
  }

  /**
   * `registerStudentToCourse`: refuses, changing nothing, when any row for the
   * pair exists (an ACTIVE, DROPPED or COMPLETED one alike); otherwise inserts
   * a new ACTIVE, ungraded registration.
   */
  function RegisterStudentToCourse(db: Db, studentId: int, courseId: int, now: Timestamp): (r: Step)
    ensures r.ok <==> !IsStudentRegisteredForCourse(db, studentId, courseId)
    ensures !r.ok ==> r.db == db
    ensures r.ok ==>
              r.db.registrations == db.registrations + [FullRegistration(db.nextRegistrationId, studentId, courseId, Some(now), None, Some(Active))]
    ensures r.ok ==>
              r.db == db.(registrations := r.db.registrations, nextRegistrationId := db.nextRegistrationId + 1)
    ensures IsStudentRegisteredForCourse(r.db, studentId, courseId)
  {
    if IsStudentRegisteredForCourse(db, studentId, courseId) then Step(db, false)
    else
      var added := AddRegistration(db, NewRegistration(studentId, courseId), now);
      assert added.db.registrations[|db.registrations|] in added.db.registrations;
      Step(added.db, added.ok)
  }

  /** `getRegistrationById`: the row with that key, or null. */
  function GetRegistrationById(db: Db, id: int): (r: Option<Registration>)
    ensures r.Some? ==> r.value in db.registrations && r.value.registrationId == id
    ensures r.None? <==> forall x :: x in db.registrations ==> x.registrationId != id
  {
    First(db.registrations, HasId(id))
  }

  /** Keys are unique in a well-formed store, so the lookup finds the very row holding the key. */
  lemma GetRegistrationByIdFindsRow(db: Db, x: Registration)
    requires Wf(db)
    requires x in db.registrations
    ensures GetRegistrationById(db, x.registrationId) == Some(x)
  {
    var r := GetRegistrationById(db, x.registrationId);
    var i :| 0 <= i < |db.registrations| && db.registrations[i] == r.value;
    var j :| 0 <= j < |db.registrations| && db.registrations[j] == x;
  }

  /**
   * `updateRegistration`: writes the argument's grade and status into the row
   * with its key; true iff such a row exists. It calls `getStatus().name()`
   * too, so a null status is outside its contract, as for `addRegistration`.
   */
  function UpdateRegistration(db: Db, reg: Registration): (r: Step)
    requires reg.status.Some?
    ensures r.ok <==> exists x :: x in db.registrations && x.registrationId == reg.registrationId
    ensures |r.db.registrations| == |db.registrations|
    ensures forall i :: 0 <= i < |db.registrations| ==>
              r.db.registrations[i] == if db.registrations[i].registrationId == reg.registrationId
                                       then db.registrations[i].(grade := reg.grade, status := reg.status)
                                       else db.registrations[i]
    ensures r.db == db.(registrations := r.db.registrations)
  {
    var set2 := (x: Registration) => x.(grade := reg.grade, status := reg.status);
    Step(db.(registrations := UpdateWhere(db.registrations, HasId(reg.registrationId), set2)),
         CountWhere(db.registrations, HasId(reg.registrationId)) > 0)
  }

  /**
   * `dropStudentFromCourse`: deletes every row for the pair (a hard delete, not
   * a status change); true iff at least one row went.
   */
  function DropStudentFromCourse(db: Db, studentId: int, courseId: int): (r: Step)
    ensures r.ok <==> IsStudentRegisteredForCourse(db, studentId, courseId)
    ensures forall x :: x in r.db.registrations <==>
              x in db.registrations && !(x.studentId == studentId && x.courseId == courseId)
    ensures !IsStudentRegisteredForCourse(r.db, studentId, courseId)
    ensures |r.db.registrations| + CountWhere(db.registrations, HasPair(studentId, courseId)) == |db.registrations|
    ensures r.db == db.(registrations := r.db.registrations)
  {
    DeleteWhereCount(db.registrations, HasPair(studentId, courseId));
    Step(db.(registrations := DeleteWhere(db.registrations, HasPair(studentId, courseId))),
         CountWhere(db.registrations, HasPair(studentId, courseId)) > 0)
  }

  /**
   * `updateGrade`: stores the grade verbatim (any string, or null) in the
   * pair's rows, whatever their status; true iff some row matched.
   */
  function UpdateGrade(db: Db, studentId: int, courseId: int, grade: Option<string>): (r: Step)
    ensures r.ok <==> IsStudentRegisteredForCourse(db, studentId, courseId)
    ensures |r.db.registrations| == |db.registrations|
    ensures forall i :: 0 <= i < |db.registrations| ==>
              r.db.registrations[i] == if Pair(db.registrations[i]) == (studentId, courseId)
                                       then db.registrations[i].(grade := grade)
                                       else db.registrations[i]
    ensures r.db == db.(registrations := r.db.registrations)
  {
    Step(db.(registrations := UpdateWhere(db.registrations, HasPair(studentId, courseId), (x: Registration) => x.(grade := grade))),
         CountWhere(db.registrations, HasPair(studentId, courseId)) > 0)
  }

  /**
   * `updateRegistrationStatus`: overwrites the status of the pair's rows with
   * no transition check; true iff some row matched.
   */
  function UpdateRegistrationStatus(db: Db, studentId: int, courseId: int, status: RegistrationStatus): (r: Step)
    ensures r.ok <==> IsStudentRegisteredForCourse(db, studentId, courseId)
    ensures |r.db.registrations| == |db.registrations|
    ensures forall i :: 0 <= i < |db.registrations| ==>
              r.db.registrations[i] == if Pair(db.registrations[i]) == (studentId, courseId)
                                       then db.registrations[i].(status := Some(status))
                                       else db.registrations[i]
    ensures r.db == db.(registrations := r.db.registrations)
  {
    Step(db.(registrations := UpdateWhere(db.registrations, HasPair(studentId, courseId), (x: Registration) => x.(status := Some(status)))),
         CountWhere(db.registrations, HasPair(studentId, courseId)) > 0)
  }

  // ---- Counts ----

  /** `getEnrollmentCount`: the course's ACTIVE rows. */
  function GetEnrollmentCount(db: Db, courseId: int): (n: int)
    ensures 0 <= n <= |db.registrations|
    ensures n > 0 <==> exists x :: x in db.registrations && x.courseId == courseId && x.status == Some(Active)
    ensures n == |set i | 0 <= i < |db.registrations| && db.registrations[i].courseId == courseId
                                                      && db.registrations[i].status == Some(Active)|
  {
    CountWhereIndices(db.registrations, ActiveInCourse(courseId));
    assert Positions(db.registrations, ActiveInCourse(courseId))
        == (set i | 0 <= i < |db.registrations| && db.registrations[i].courseId == courseId
                                                && db.registrations[i].status == Some(Active));
    CountWhere(db.registrations, ActiveInCourse(courseId))
  }

  /** `getRegistrationCount`: the student's ACTIVE rows. */
  function GetRegistrationCount(db: Db, studentId: int): (n: int)
    ensures 0 <= n <= |db.registrations|
    ensures n > 0 <==> exists x :: x in db.registrations && x.studentId == studentId && x.status == Some(Active)
    ensures n == |set i | 0 <= i < |db.registrations| && db.registrations[i].studentId == studentId
                                                      && db.registrations[i].status == Some(Active)|
  {
    CountWhereIndices(db.registrations, ActiveForStudent(studentId));
    assert Positions(db.registrations, ActiveForStudent(studentId))
        == (set i | 0 <= i < |db.registrations| && db.registrations[i].studentId == studentId
                                                && db.registrations[i].status == Some(Active));
    CountWhere(db.registrations, ActiveForStudent(studentId))
  }

  // ---- Joined listings ----

  /** The student columns the full listing selects: id, names and email; the rest stay null. */
  function StudentSummary(s: Student): Student {
    DefaultStudent().(studentId := s.studentId, firstName := s.firstName, lastName := s.lastName, email := s.email)
  }

  /** The course columns the full listing selects: id, code and name; the rest stay null (credits 0). */
  function CourseSummary(c: Course): Course {
    DefaultCourse().(courseId := c.courseId, courseCode := c.courseCode, courseName := c.courseName)
  }

  /** Both ends of the registration still exist: the row survives both inner joins. */
  function Joinable(db: Db): Registration -> bool {
    (x: Registration) => StudentCatalog.GetStudentById(db, x.studentId).Some? && CourseCatalog.GetCourseById(db, x.courseId).Some?
  }

  /** A row of the full listing: the registration with both summaries attached. */
  function WithSummaries(db: Db): Registration -> Registration {
    (x: Registration) =>
      x.(student := match StudentCatalog.GetStudentById(db, x.studentId)
                    case Some(s) => Some(StudentSummary(s))
                    case None => None,
         course := match CourseCatalog.GetCourseById(db, x.courseId)
                   case Some(c) => Some(CourseSummary(c))
                   case None => None)
  }

  /** `getAllRegistrations`: every registration whose student and course exist, with their summaries, newest first. */
  function GetAllRegistrations(db: Db): (r: seq<Registration>)
    ensures |r| == CountWhere(db.registrations, Joinable(db))
    ensures forall v :: v in r <==> exists x :: x in db.registrations && Joinable(db)(x) && v == WithSummaries(db)(x)
    ensures forall v :: v in r ==> v.student.Some? && v.course.Some?
    ensures Sorted(r, NewestFirst)
  {
    var joined := SelectWhere(db.registrations, Joinable(db), WithSummaries(db));
    NewestFirstTotalPreorder();
    SortSorted(joined, NewestFirst);
    SortSameElements(joined, NewestFirst);
    Sort(joined, NewestFirst)
  }

  /** The student's registrations whose course exists. */
  function OfStudentWithCourse(db: Db, studentId: int): Registration -> bool {
    (x: Registration) => x.studentId == studentId && CourseCatalog.GetCourseById(db, x.courseId).Some?
  }

  /** The course's registrations whose student exists. */
  function OfCourseWithStudent(db: Db, courseId: int): Registration -> bool {
    (x: Registration) => x.courseId == courseId && StudentCatalog.GetStudentById(db, x.studentId).Some?
  }

  /**
   * `getCoursesForStudent`: the student's registrations, any status, whose
   * course exists, each carrying that course's full row, newest first.
   */
  function GetCoursesForStudent(db: Db, studentId: int): (r: seq<Registration>)
    ensures |r| == CountWhere(db.registrations, OfStudentWithCourse(db, studentId))
    ensures forall v :: v in r <==>
              exists x :: x in db.registrations && x.studentId == studentId
                          && CourseCatalog.GetCourseById(db, x.courseId).Some?
                          && v == x.(course := CourseCatalog.GetCourseById(db, x.courseId))
    ensures Sorted(r, NewestFirst)
  {
    var joined := SelectWhere(db.registrations, OfStudentWithCourse(db, studentId),
                              (x: Registration) => x.(course := CourseCatalog.GetCourseById(db, x.courseId)));
    NewestFirstTotalPreorder();
    SortSorted(joined, NewestFirst);
    SortSameElements(joined, NewestFirst);
    Sort(joined, NewestFirst)
  }

  /**
   * `getStudentsForCourse`: the course's registrations, any status, whose
   * student exists, each carrying that student's full row, ordered by the
   * student's last then first name.
   */
  function GetStudentsForCourse(db: Db, courseId: int): (r: seq<Registration>)
    ensures |r| == CountWhere(db.registrations, OfCourseWithStudent(db, courseId))
    ensures forall v :: v in r <==>
              exists x :: x in db.registrations && x.courseId == courseId
                          && StudentCatalog.GetStudentById(db, x.studentId).Some?
                          && v == x.(student := StudentCatalog.GetStudentById(db, x.studentId))
    ensures Sorted(r, ByEnrollee)
  {
    var joined := SelectWhere(db.registrations, OfCourseWithStudent(db, courseId),
                              (x: Registration) => x.(student := StudentCatalog.GetStudentById(db, x.studentId)));
    ByEnrolleeTotalPreorder();
    SortSorted(joined, ByEnrollee);
    SortSameElements(joined, ByEnrollee);
    Sort(joined, ByEnrollee)
  }
}
