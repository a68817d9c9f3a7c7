/**
 * The course catalog (`CourseDAOImpl`): keyed CRUD over the `courses` table,
 * lookup and existence by course code, substring search on name and
 * instructor, and listings ordered by course code. Code uniqueness and
 * upper-casing are left to callers.
 */
module CourseCatalog {
  import opened Wrappers
  import opened Rows
  import opened Text
  import opened Sorting
  import opened Model
  import opened Store

  /** `WHERE course_id = id`. */
  function HasId(id: int): Course -> bool {
    (c: Course) => c.courseId == id
  }

  /** `WHERE course_code = ?`: SQL equality, so a null parameter matches no row. */
  function HasCode(code: Option<string>): Course -> bool {
    (c: Course) => code.Some? && c.courseCode == code
  }

  /** `WHERE course_name LIKE '%name%'`. */
  function NameMatches(name: Option<string>): Course -> bool {
    (c: Course) => ContainsLike(c.courseName, name)
  }

  /** `WHERE instructor LIKE '%instructor%'`: a course with no instructor never matches. */
  function InstructorMatches(instructor: Option<string>): Course -> bool {
    (c: Course) => ContainsLike(c.instructor, instructor)
  }

  /** `ORDER BY course_code`. */
  predicate ByCode(a: Course, b: Course) {
    NullsFirstLe(a.courseCode, b.courseCode)
  }

  lemma ByCodeTotalPreorder()
    ensures TotalPreorder(ByCode)
  {
    forall x: Course, y: Course ensures ByCode(x, y) || ByCode(y, x) {
      NullsFirstTotal(x.courseCode, y.courseCode);
    }
    forall x: Course, y: Course, z: Course | ByCode(x, y) && ByCode(y, z) ensures ByCode(x, z) {
      NullsFirstTransitive(x.courseCode, y.courseCode, z.courseCode);
    }
  }

  /**
   * `addCourse`: inserts the five caller-supplied columns; the server assigns
   * the next key and stamps `created_date`, and the key is stored back into
   * the caller's object.
   */
  function AddCourse(db: Db, c: Course, now: Timestamp): (r: Added<Course>)
    ensures r.ok
    ensures r.entity == c.(courseId := db.nextCourseId)
    ensures r.db.courses == db.courses + [Course(r.entity.courseId, c.courseCode, c.courseName, c.description, c.credits, c.instructor, Some(now))]
    ensures Wf(db) ==> forall x :: x in db.courses ==> x.courseId != r.entity.courseId
    ensures r.db == db.(courses := r.db.courses, nextCourseId := db.nextCourseId + 1)
  {
    var id := db.nextCourseId;
    var row := DefaultCourse().(courseId := id, courseCode := c.courseCode, courseName := c.courseName,
                                description := c.description, credits := c.credits, instructor := c.instructor,
                                createdDate := Some(now));
    Added(db.(courses := db.courses + [row], nextCourseId := id + 1), true, c.(courseId := id))
  }

  /** `getCourseById`: the row with that key, or null. */
  function GetCourseById(db: Db, id: int): (r: Option<Course>)
    ensures r.Some? ==> r.value in db.courses && r.value.courseId == id
    ensures r.None? <==> forall x :: x in db.courses ==> x.courseId != id
  {
    First(db.courses, HasId(id))
  }

  /** Keys are unique in a well-formed store, so the lookup finds the very row holding the key. */
  lemma GetCourseByIdFindsRow(db: Db, c: Course)
    requires Wf(db)
    requires c in db.courses
    ensures GetCourseById(db, c.courseId) == Some(c)
  {
    var r := GetCourseById(db, c.courseId);
    var i :| 0 <= i < |db.courses| && db.courses[i] == r.value;
    var j :| 0 <= j < |db.courses| && db.courses[j] == c;
  }

  /** `getCourseByCode`: a row whose code equals the argument exactly, or null. */
  function GetCourseByCode(db: Db, code: Option<string>): (r: Option<Course>)
    ensures r.Some? ==> r.value in db.courses && r.value.courseCode == code && code.Some?
    ensures r.None? <==> forall x :: x in db.courses ==> code.None? || x.courseCode != code
  {
    First(db.courses, HasCode(code))
  }

  /** `courseExists`: `COUNT(*) > 0` over the rows with that code. */
  function CourseExists(db: Db, code: Option<string>): (r: bool)
    ensures r <==> exists x :: x in db.courses && code.Some? && x.courseCode == code
  {
    CountWhere(db.courses, HasCode(code)) > 0
  }

  /** `getAllCourses`: every row, ordered by course code. */
  function GetAllCourses(db: Db): (r: seq<Course>)
    ensures multiset(r) == multiset(db.courses)
    ensures Sorted(r, ByCode)
  {
    ByCodeTotalPreorder();
    SortSorted(db.courses, ByCode);
    Sort(db.courses, ByCode)
  }

  /**
   * `updateCourse`: overwrites code, name, description, credits and instructor
   * of the row keyed by the argument's id; true iff such a row exists.
   */
  function UpdateCourse(db: Db, c: Course): (r: Step)
    ensures r.ok <==> exists x :: x in db.courses && x.courseId == c.courseId
    ensures |r.db.courses| == |db.courses|
    ensures forall i :: 0 <= i < |db.courses| && db.courses[i].courseId != c.courseId ==>
              r.db.courses[i] == db.courses[i]
    ensures forall i :: 0 <= i < |db.courses| && db.courses[i].courseId == c.courseId ==>
              r.db.courses[i] == c.(createdDate := db.courses[i].createdDate)
    ensures r.db == db.(courses := r.db.courses)
  {
    var set5 := (x: Course) => x.(courseCode := c.courseCode, courseName := c.courseName, description := c.description,
                                  credits := c.credits, instructor := c.instructor);
    Step(db.(courses := UpdateWhere(db.courses, HasId(c.courseId), set5)),
         CountWhere(db.courses, HasId(c.courseId)) > 0)
  }

  /** `deleteCourse`: removes the row with that key; true iff one was removed. Registrations are untouched. */
  function DeleteCourse(db: Db, id: int): (r: Step)
    ensures r.ok <==> exists x :: x in db.courses && x.courseId == id
    ensures forall x :: x in r.db.courses <==> x in db.courses && x.courseId != id
    ensures |r.db.courses| + CountWhere(db.courses, HasId(id)) == |db.courses|
    ensures r.db == db.(courses := r.db.courses)
  {
    DeleteWhereCount(db.courses, HasId(id));
    Step(db.(courses := DeleteWhere(db.courses, HasId(id))), CountWhere(db.courses, HasId(id)) > 0)
  }

  /** The rows satisfying `p`, each as often as stored, ordered by course code. */
  function SelectByCode(db: Db, p: Course -> bool): (r: seq<Course>)
    ensures forall x :: multiset(r)[x] == if p(x) then multiset(db.courses)[x] else 0
    ensures forall x :: x in r <==> x in db.courses && p(x)
    ensures Sorted(r, ByCode)
  {
    var hits := Where(db.courses, p);
    ByCodeTotalPreorder();
    SortSorted(hits, ByCode);
    SortSameElements(hits, ByCode);
    forall x ensures multiset(hits)[x] == if p(x) then multiset(db.courses)[x] else 0 {
      WhereMultiplicity(db.courses, p, x);
    }
    Sort(hits, ByCode)
  }

  /** `searchCoursesByName`: the courses whose name contains the query, ordered by code. */
  function SearchCoursesByName(db: Db, name: Option<string>): (r: seq<Course>)
    ensures forall x :: x in r <==> x in db.courses && ContainsLike(x.courseName, name)
    ensures forall x :: multiset(r)[x] == if ContainsLike(x.courseName, name) then multiset(db.courses)[x] else 0
    ensures Sorted(r, ByCode)
  {
    SelectByCode(db, NameMatches(name))
  }

  /** `getCoursesByInstructor`: the courses whose instructor contains the query, ordered by code. */
  function GetCoursesByInstructor(db: Db, instructor: Option<string>): (r: seq<Course>)
    ensures forall x :: x in r <==> x in db.courses && ContainsLike(x.instructor, instructor)
    ensures forall x :: multiset(r)[x] == if ContainsLike(x.instructor, instructor) then multiset(db.courses)[x] else 0
    ensures Sorted(r, ByCode)
  {
    SelectByCode(db, InstructorMatches(instructor))
  }
}
