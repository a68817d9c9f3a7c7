/**
 * Properties of the two catalogs that relate several calls: the store
 * invariant is kept, a written row reads back, deletes do not cascade,
 * neither business key (email, course code) is kept unique, and name search
 * is substring search only for queries free of `LIKE` wildcards.
 */
module CatalogProperties {
  import opened Wrappers
  import opened Rows
  import opened Model
  import opened Text
  import opened Store
  import opened StudentCatalog
  import CourseCatalog

  // ---- Student catalog ----

  lemma AddStudentKeepsWf(db: Db, s: Student, now: Timestamp)
    requires Wf(db)
    ensures Wf(AddStudent(db, s, now).db)
  {
    var r := AddStudent(db, s, now);
    var row := r.db.students[|db.students|];
    assert r.db.students == db.students + [row];
    DistinctAppend(db.students, row, StudentKey);
  }

  lemma UpdateStudentKeepsWf(db: Db, s: Student)
    requires Wf(db)
    ensures Wf(UpdateStudent(db, s).db)
  {
    var t := UpdateStudent(db, s).db.students;
    forall x | x in t ensures 0 < x.studentId < db.nextStudentId && StoredStudent(x) {
      var i :| 0 <= i < |t| && t[i] == x;
      assert db.students[i] in db.students;
    }
    forall i, j | 0 <= i < j < |t| ensures StudentKey(t[i]) != StudentKey(t[j]) {
      assert StudentKey(db.students[i]) != StudentKey(db.students[j]);
    }
  }

  lemma DeleteStudentKeepsWf(db: Db, id: int)
    requires Wf(db)
    ensures Wf(DeleteStudent(db, id).db)
  {
    DistinctDeleteWhere(db.students, StudentKey, HasId(id));
  }

  /** An added student reads back by its new key with every supplied field, and a server-stamped enrollment date. */
  lemma AddThenGetStudent(db: Db, s: Student, now: Timestamp)
    requires Wf(db)
    ensures var r := AddStudent(db, s, now);
            GetStudentById(r.db, r.entity.studentId) == Some(r.entity.(enrollmentDate := Some(now)))
  {
    var r := AddStudent(db, s, now);
    AddStudentKeepsWf(db, s, now);
    var row := r.db.students[|db.students|];
    assert row in r.db.students;
    GetStudentByIdFindsRow(r.db, row);
  }

  /** An update reads back as the caller's object, except that the enrollment date stays as stored. */
  lemma UpdateThenGetStudent(db: Db, s: Student, stored: Student)
    requires Wf(db)
    requires stored in db.students && stored.studentId == s.studentId
    ensures var r := UpdateStudent(db, s);
            r.ok && GetStudentById(r.db, s.studentId) == Some(s.(enrollmentDate := stored.enrollmentDate))
  {
    var r := UpdateStudent(db, s);
    var i :| 0 <= i < |db.students| && db.students[i] == stored;
    UpdateStudentKeepsWf(db, s);
    assert r.db.students[i] in r.db.students;
    GetStudentByIdFindsRow(r.db, r.db.students[i]);
  }

  /** After a delete the key is gone, while the student's registrations all stay behind. */
  lemma DeleteStudentLeavesRegistrations(db: Db, id: int)
    ensures var r := DeleteStudent(db, id);
            GetStudentById(r.db, id).None? && r.db.registrations == db.registrations
  {
  }

  /** `getStudentByEmail` finds a row exactly when `studentExists` says so. */
  lemma StudentExistsIffFound(db: Db, email: Option<string>)
    ensures StudentExists(db, email) <==> GetStudentByEmail(db, email).Some?
  {
  }

  /** Adding a student whose email is taken still succeeds, and the email then appears on two rows. */
  lemma {:induction false} AddStudentDuplicatesEmail(db: Db, s: Student, now: Timestamp)
    requires StudentExists(db, s.email)
    ensures var r := AddStudent(db, s, now);
            r.ok && CountWhere(r.db.students, HasEmail(s.email)) == CountWhere(db.students, HasEmail(s.email)) + 1 >= 2
  {
    var r := AddStudent(db, s, now);
    var row := r.db.students[|db.students|];
    WhereAppend(db.students, row, HasEmail(s.email));
  }

  /** A search for a query free of `%` and `_` finds exactly the students with the query as a substring of either name. */
  lemma SearchLiteralIsSubstring(db: Db, name: string)
    requires Literal(name)
    ensures forall x :: x in SearchStudentsByName(db, Some(name)) <==>
              x in db.students && ((x.firstName.Some? && Contains(x.firstName.value, name))
                                   || (x.lastName.Some? && Contains(x.lastName.value, name)))
  {
    var r := SearchStudentsByName(db, Some(name));
    forall x: Student
      ensures x in r <==> x in db.students && ((x.firstName.Some? && Contains(x.firstName.value, name))
                                               || (x.lastName.Some? && Contains(x.lastName.value, name)))
    {
      if x.firstName.Some? {
        LikeLiteralIsContains(x.firstName.value, name);
      }
      if x.lastName.Some? {
        LikeLiteralIsContains(x.lastName.value, name);
      }
    }
  }

  /** The query "_" is not taken literally: it finds every student with a non-empty first or last name. */
  lemma SearchUnderscoreFindsAll(db: Db)
    ensures forall x :: x in SearchStudentsByName(db, Some("_")) <==>
              x in db.students && ((x.firstName.Some? && |x.firstName.value| > 0)
                                   || (x.lastName.Some? && |x.lastName.value| > 0))
  {
    var r := SearchStudentsByName(db, Some("_"));
    assert "%" + JavaString(Some("_")) + "%" == "%_%";
    forall x: Student
      ensures x in r <==> x in db.students && ((x.firstName.Some? && |x.firstName.value| > 0)
                                               || (x.lastName.Some? && |x.lastName.value| > 0))
    {
      if x.firstName.Some? {
        UnderscoreMatchesAnyCharacter(x.firstName.value);
      }
      if x.lastName.Some? {
        UnderscoreMatchesAnyCharacter(x.lastName.value);
      }
    }
  }

  // ---- Course catalog ----

  lemma AddCourseKeepsWf(db: Db, c: Course, now: Timestamp)
    requires Wf(db)
    ensures Wf(CourseCatalog.AddCourse(db, c, now).db)
  {
    var r := CourseCatalog.AddCourse(db, c, now);
    var row := r.db.courses[|db.courses|];
    DistinctAppend(db.courses, row, CourseKey);
  }

  lemma UpdateCourseKeepsWf(db: Db, c: Course)
    requires Wf(db)
    ensures Wf(CourseCatalog.UpdateCourse(db, c).db)
  {
    var t := CourseCatalog.UpdateCourse(db, c).db.courses;
    forall x | x in t ensures 0 < x.courseId < db.nextCourseId && StoredCourse(x) {
      var i :| 0 <= i < |t| && t[i] == x;
      assert db.courses[i] in db.courses;
    }
    forall i, j | 0 <= i < j < |t| ensures CourseKey(t[i]) != CourseKey(t[j]) {
      assert CourseKey(db.courses[i]) != CourseKey(db.courses[j]);
    }
  }

  lemma DeleteCourseKeepsWf(db: Db, id: int)
    requires Wf(db)
    ensures Wf(CourseCatalog.DeleteCourse(db, id).db)
  {
    DistinctDeleteWhere(db.courses, CourseKey, CourseCatalog.HasId(id));
  }

  /** An added course reads back by its new key with every supplied field (negative credits included) and a created date. */
  lemma AddThenGetCourse(db: Db, c: Course, now: Timestamp)
    requires Wf(db)
    ensures var r := CourseCatalog.AddCourse(db, c, now);
            CourseCatalog.GetCourseById(r.db, r.entity.courseId) == Some(r.entity.(createdDate := Some(now)))
  {
    var r := CourseCatalog.AddCourse(db, c, now);
    AddCourseKeepsWf(db, c, now);
    var row := r.db.courses[|db.courses|];
    assert row in r.db.courses;
    CourseCatalog.GetCourseByIdFindsRow(r.db, row);
  }

  /** An update reads back as the caller's object, except that the created date stays as stored. */
  lemma UpdateThenGetCourse(db: Db, c: Course, stored: Course)
    requires Wf(db)
    requires stored in db.courses && stored.courseId == c.courseId
    ensures var r := CourseCatalog.UpdateCourse(db, c);
            r.ok && CourseCatalog.GetCourseById(r.db, c.courseId) == Some(c.(createdDate := stored.createdDate))
  {
    var r := CourseCatalog.UpdateCourse(db, c);
    var i :| 0 <= i < |db.courses| && db.courses[i] == stored;
    UpdateCourseKeepsWf(db, c);
    assert r.db.courses[i] in r.db.courses;
    CourseCatalog.GetCourseByIdFindsRow(r.db, r.db.courses[i]);
  }

  lemma DeleteCourseLeavesRegistrations(db: Db, id: int)
    ensures var r := CourseCatalog.DeleteCourse(db, id);
            CourseCatalog.GetCourseById(r.db, id).None? && r.db.registrations == db.registrations
  {
  }

  lemma CourseExistsIffFound(db: Db, code: Option<string>)
    ensures CourseCatalog.CourseExists(db, code) <==> CourseCatalog.GetCourseByCode(db, code).Some?
  {
  }

  /** Adding a course whose code is taken still succeeds, and the code then appears on two rows. */
  lemma {:induction false} AddCourseDuplicatesCode(db: Db, c: Course, now: Timestamp)
    requires CourseCatalog.CourseExists(db, c.courseCode)
    ensures var r := CourseCatalog.AddCourse(db, c, now);
            r.ok && CountWhere(r.db.courses, CourseCatalog.HasCode(c.courseCode))
                    == CountWhere(db.courses, CourseCatalog.HasCode(c.courseCode)) + 1 >= 2
  {
    var r := CourseCatalog.AddCourse(db, c, now);
    var row := r.db.courses[|db.courses|];
    WhereAppend(db.courses, row, CourseCatalog.HasCode(c.courseCode));
  }
}
