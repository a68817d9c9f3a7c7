/**
 * Two end-to-end runs from an empty database, with every result worked out:
 * enrolling one student in one course and grading it, and the ACTIVE-only
 * enrollment count.
 */
module Scenarios {
  import opened Wrappers
  import opened Rows
  import opened Model
  import opened Store
  import opened RegistrationLedger
  import StudentCatalog
  import CourseCatalog

  /**
   * Add Ada Lovelace (key 1) and CS101 (key 1), register her, grade her "A":
   * the registration reads back graded and still ACTIVE, and her course list
   * holds the one course with code "CS101".
   */
  lemma AdaLovelace()
    ensures
      var ada := NewStudent(Some("Ada"), Some("Lovelace"), Some("ada@x.edu"), None, None);
      var s := StudentCatalog.AddStudent(Empty(), ada, 0);
      var c := CourseCatalog.AddCourse(s.db, NewCourse(Some("CS101"), Some("Intro"), None, 3, None), 1);
      var reg := RegisterStudentToCourse(c.db, 1, 1, 2);
      var graded := UpdateGrade(reg.db, 1, 1, Some("A"));
      var listed := GetCoursesForStudent(graded.db, 1);
      && s.entity.studentId == 1 && c.entity.courseId == 1
      && reg.ok && graded.ok
      && GetRegistrationById(graded.db, 1) == Some(FullRegistration(1, 1, 1, Some(2), Some("A"), Some(Active)))
      && |listed| == 1 && listed[0].courseId == 1 && listed[0].course.Some?
      && listed[0].course.value.courseCode == Some("CS101")
  {
    var ada := NewStudent(Some("Ada"), Some("Lovelace"), Some("ada@x.edu"), None, None);
    var s := StudentCatalog.AddStudent(Empty(), ada, 0);
    var c := CourseCatalog.AddCourse(s.db, NewCourse(Some("CS101"), Some("Intro"), None, 3, None), 1);
    var reg := RegisterStudentToCourse(c.db, 1, 1, 2);
    assert reg.db.registrations == [FullRegistration(1, 1, 1, Some(2), None, Some(Active))];
    var graded := UpdateGrade(reg.db, 1, 1, Some("A"));
    var row := FullRegistration(1, 1, 1, Some(2), Some("A"), Some(Active));
    assert graded.db.registrations == [row];
    var course := c.db.courses[0];
    assert CourseCatalog.GetCourseById(graded.db, 1) == Some(course);
    var listed := GetCoursesForStudent(graded.db, 1);
    assert row in graded.db.registrations;
    assert row.(course := Some(course)) in listed;
    assert CountWhere(graded.db.registrations, OfStudentWithCourse(graded.db, 1)) == 1 by {
      assert Where(graded.db.registrations, OfStudentWithCourse(graded.db, 1)) == [row];
    }
  }

  /** Register two students in course 7 and mark one COMPLETED: the enrollment count is 1. */
  lemma CountsOnlyActive()
    ensures
      var first := RegisterStudentToCourse(Empty(), 1, 7, 0);
      var second := RegisterStudentToCourse(first.db, 2, 7, 1);
      var done := UpdateRegistrationStatus(second.db, 1, 7, Completed);
      && first.ok && second.ok && done.ok
      && GetEnrollmentCount(second.db, 7) == 2
      && GetEnrollmentCount(done.db, 7) == 1
  {
    var a := FullRegistration(1, 1, 7, Some(0), None, Some(Active));
    var b := FullRegistration(2, 2, 7, Some(1), None, Some(Active));
    var first := RegisterStudentToCourse(Empty(), 1, 7, 0);
    var second := RegisterStudentToCourse(first.db, 2, 7, 1);
    assert second.db.registrations == [a, b];
    var done := UpdateRegistrationStatus(second.db, 1, 7, Completed);
    assert done.db.registrations == [a.(status := Some(Completed)), b];
    assert Where([a, b], ActiveInCourse(7)) == [a, b] by {
      assert [a, b][1..] == [b];
    }
    assert Where([a.(status := Some(Completed)), b], ActiveInCourse(7)) == [b] by {
      assert [a.(status := Some(Completed)), b][1..] == [b];
    }
  }
}
