/**
 * The student catalog (`StudentDAOImpl`): keyed CRUD over the `students`
 * table, lookup and existence by email, substring search on names, and the
 * listing ordered by last name then first name. Email uniqueness is left to
 * callers: nothing here checks it.
 */
module StudentCatalog {
  import opened Wrappers
  import opened Rows
  import opened Text
  import opened Sorting
  import opened Model
  import opened Store

  /** `WHERE student_id = id`. */
  function HasId(id: int): Student -> bool {
    (s: Student) => s.studentId == id
  }

  /** `WHERE email = ?`: SQL equality, so a null parameter matches no row. */
  function HasEmail(email: Option<string>): Student -> bool {
    (s: Student) => email.Some? && s.email == email
  }

  /** `WHERE first_name LIKE '%name%' OR last_name LIKE '%name%'`. */
  function NameMatches(name: Option<string>): Student -> bool {
    (s: Student) => ContainsLike(s.firstName, name) || ContainsLike(s.lastName, name)
  }

  /** `ORDER BY last_name, first_name`. */
  predicate ByName(a: Student, b: Student) {
    NullsFirstLe(a.lastName, b.lastName) && (a.lastName == b.lastName ==> NullsFirstLe(a.firstName, b.firstName))
  }

  lemma ByNameTotalPreorder()
    ensures TotalPreorder(ByName)
  {
    forall x: Student, y: Student ensures ByName(x, y) || ByName(y, x) {
      NullsFirstTotal(x.lastName, y.lastName);
      NullsFirstTotal(x.firstName, y.firstName);
    }
    forall x: Student, y: Student, z: Student | ByName(x, y) && ByName(y, z) ensures ByName(x, z) {
      NullsFirstTransitive(x.lastName, y.lastName, z.lastName);
      if x.lastName == z.lastName {
        NullsFirstAntisymmetric(x.lastName, y.lastName);
        NullsFirstTransitive(x.firstName, y.firstName, z.firstName);
      }
    }
  }

  /**
   * `addStudent`: inserts the five caller-supplied columns; the server assigns
   * the next key and stamps `enrollment_date`, and the key is stored back into
   * the caller's object.
   */
  function AddStudent(db: Db, s: Student, now: Timestamp): (r: Added<Student>)
    ensures r.ok
    ensures r.entity == s.(studentId := db.nextStudentId)
    ensures r.db.students == db.students + [Student(r.entity.studentId, s.firstName, s.lastName, s.email, s.phone, s.dateOfBirth, Some(now))]
    ensures Wf(db) ==> forall x :: x in db.students ==> x.studentId != r.entity.studentId
    ensures r.db == db.(students := r.db.students, nextStudentId := db.nextStudentId + 1)
  {
    var id := db.nextStudentId;
    var row := DefaultStudent().(studentId := id, firstName := s.firstName, lastName := s.lastName, email := s.email,
                                 phone := s.phone, dateOfBirth := s.dateOfBirth, enrollmentDate := Some(now));
    Added(db.(students := db.students + [row], nextStudentId := id + 1), true, s.(studentId := id))
  }

  /** `getStudentById`: the row with that key, or null. */
  function GetStudentById(db: Db, id: int): (r: Option<Student>)
    ensures r.Some? ==> r.value in db.students && r.value.studentId == id
    ensures r.None? <==> forall x :: x in db.students ==> x.studentId != id
  {
    First(db.students, HasId(id))
  }

  /** Keys are unique in a well-formed store, so the lookup finds the very row holding the key. */
  lemma GetStudentByIdFindsRow(db: Db, s: Student)
    requires Wf(db)
    requires s in db.students
    ensures GetStudentById(db, s.studentId) == Some(s)
  {
    var r := GetStudentById(db, s.studentId);
    var i :| 0 <= i < |db.students| && db.students[i] == r.value;
    var j :| 0 <= j < |db.students| && db.students[j] == s;
  }

  /** `getStudentByEmail`: a row whose email equals the argument exactly, or null. */
  function GetStudentByEmail(db: Db, email: Option<string>): (r: Option<Student>)
    ensures r.Some? ==> r.value in db.students && r.value.email == email && email.Some?
    ensures r.None? <==> forall x :: x in db.students ==> email.None? || x.email != email
  {
    First(db.students, HasEmail(email))
  }

  /** `studentExists`: `COUNT(*) > 0` over the rows with that email. */
  function StudentExists(db: Db, email: Option<string>): (r: bool)
    ensures r <==> exists x :: x in db.students && email.Some? && x.email == email
  {
    CountWhere(db.students, HasEmail(email)) > 0
  }

  /** `getAllStudents`: every row, ordered by last name then first name. */
  function GetAllStudents(db: Db): (r: seq<Student>)
    ensures multiset(r) == multiset(db.students)
    ensures Sorted(r, ByName)
  {
    ByNameTotalPreorder();
    SortSorted(db.students, ByName);
    Sort(db.students, ByName)
  }

  /**
   * `updateStudent`: overwrites first name, last name, email, phone and date of
   * birth of the row keyed by the argument's id; true iff such a row exists.
   */
  function UpdateStudent(db: Db, s: Student): (r: Step)
    ensures r.ok <==> exists x :: x in db.students && x.studentId == s.studentId
    ensures |r.db.students| == |db.students|
    ensures forall i :: 0 <= i < |db.students| && db.students[i].studentId != s.studentId ==>
              r.db.students[i] == db.students[i]
    ensures forall i :: 0 <= i < |db.students| && db.students[i].studentId == s.studentId ==>
              r.db.students[i] == s.(enrollmentDate := db.students[i].enrollmentDate)
    ensures r.db == db.(students := r.db.students)
  {
    var set5 := (x: Student) => x.(firstName := s.firstName, lastName := s.lastName, email := s.email,
                                   phone := s.phone, dateOfBirth := s.dateOfBirth);
    Step(db.(students := UpdateWhere(db.students, HasId(s.studentId), set5)),
         CountWhere(db.students, HasId(s.studentId)) > 0)
  }

  /** `deleteStudent`: removes the row with that key; true iff one was removed. Registrations are untouched. */
  function DeleteStudent(db: Db, id: int): (r: Step)
    ensures r.ok <==> exists x :: x in db.students && x.studentId == id
    ensures forall x :: x in r.db.students <==> x in db.students && x.studentId != id
    ensures |r.db.students| + CountWhere(db.students, HasId(id)) == |db.students|
    ensures r.db == db.(students := r.db.students)
  {
    DeleteWhereCount(db.students, HasId(id));
    Step(db.(students := DeleteWhere(db.students, HasId(id))), CountWhere(db.students, HasId(id)) > 0)
  }

  /**
   * `searchStudentsByName`: the rows whose first or last name contains the
   * query, each as often as stored, ordered by last name then first name.
   */
  function SearchStudentsByName(db: Db, name: Option<string>): (r: seq<Student>)
    ensures forall x :: multiset(r)[x] == if NameMatches(name)(x) then multiset(db.students)[x] else 0
    ensures forall x :: x in r <==> x in db.students && (ContainsLike(x.firstName, name) || ContainsLike(x.lastName, name))
    ensures Sorted(r, ByName)
  {
    var hits := Where(db.students, NameMatches(name));
    ByNameTotalPreorder();
    SortSorted(hits, ByName);
    SortSameElements(hits, ByName);
    forall x ensures multiset(hits)[x] == if NameMatches(name)(x) then multiset(db.students)[x] else 0 {
      WhereMultiplicity(db.students, NameMatches(name), x);
    }
    Sort(hits, ByName)
  }
}
