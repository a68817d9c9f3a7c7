/**
 * Properties of the registration ledger that relate several calls: the store
 * invariant and the one-row-per-pair invariant are kept by every checked
 * write and broken by the unchecked insert; drop and re-register round-trip;
 * a DROPPED status still blocks registering; counts move with registration;
 * and deleting a catalog row leaves orphans that the joins no longer show.
 */
module LedgerProperties {
  import opened Wrappers
  import opened Rows
  import opened Model
  import opened Store
  import opened RegistrationLedger
  import StudentCatalog
  import CourseCatalog

  // ---- The store invariant ----

  lemma AddRegistrationKeepsWf(db: Db, reg: Registration, now: Timestamp)
    requires Wf(db)
    requires reg.status.Some?
    ensures Wf(AddRegistration(db, reg, now).db)
  {
    var r := AddRegistration(db, reg, now);
    DistinctAppend(db.registrations, r.db.registrations[|db.registrations|], RegistrationKey);
  }

  lemma RegisterKeepsWf(db: Db, studentId: int, courseId: int, now: Timestamp)
    requires Wf(db)
    ensures Wf(RegisterStudentToCourse(db, studentId, courseId, now).db)
  {
    if !IsStudentRegisteredForCourse(db, studentId, courseId) {
      AddRegistrationKeepsWf(db, NewRegistration(studentId, courseId), now);
    }
  }

  lemma DropKeepsWf(db: Db, studentId: int, courseId: int)
    requires Wf(db)
    ensures Wf(DropStudentFromCourse(db, studentId, courseId).db)
  {
    DistinctDeleteWhere(db.registrations, RegistrationKey, HasPair(studentId, courseId));
  }

  /** A rewrite that keeps every row's key, shape and bound keeps the store well formed. */
  lemma RowwiseRewriteKeepsWf(db: Db, t: seq<Registration>)
    requires Wf(db)
    requires |t| == |db.registrations|
    requires forall i :: 0 <= i < |t| ==> t[i].registrationId == db.registrations[i].registrationId
    requires forall i :: 0 <= i < |t| ==> StoredRegistration(db.registrations[i]) ==> StoredRegistration(t[i])
    ensures Wf(db.(registrations := t))
  {
    forall x | x in t ensures 0 < x.registrationId < db.nextRegistrationId && StoredRegistration(x) {
      var i :| 0 <= i < |t| && t[i] == x;
      assert db.registrations[i] in db.registrations;
    }
    forall i, j | 0 <= i < j < |t| ensures RegistrationKey(t[i]) != RegistrationKey(t[j]) {
      assert RegistrationKey(db.registrations[i]) != RegistrationKey(db.registrations[j]);
    }
  }

  lemma UpdatesKeepWf(db: Db, reg: Registration, studentId: int, courseId: int, grade: Option<string>, status: RegistrationStatus)
    requires Wf(db)
    requires reg.status.Some?
    ensures Wf(UpdateRegistration(db, reg).db)
    ensures Wf(UpdateGrade(db, studentId, courseId, grade).db)
    ensures Wf(UpdateRegistrationStatus(db, studentId, courseId, status).db)
  {
    RowwiseRewriteKeepsWf(db, UpdateRegistration(db, reg).db.registrations);
    RowwiseRewriteKeepsWf(db, UpdateGrade(db, studentId, courseId, grade).db.registrations);
    RowwiseRewriteKeepsWf(db, UpdateRegistrationStatus(db, studentId, courseId, status).db.registrations);
  }

  // ---- Writes read back ----

  /** An inserted registration reads back by its new key: the supplied pair and status, a stamped date, no grade. */
  lemma AddThenGetRegistration(db: Db, reg: Registration, now: Timestamp)
    requires Wf(db)
    requires reg.status.Some?
    ensures var r := AddRegistration(db, reg, now);
            GetRegistrationById(r.db, r.entity.registrationId)
              == Some(FullRegistration(db.nextRegistrationId, reg.studentId, reg.courseId, Some(now), None, reg.status))
  {
    var r := AddRegistration(db, reg, now);
    AddRegistrationKeepsWf(db, reg, now);
    var row := r.db.registrations[|db.registrations|];
    assert row in r.db.registrations;
    GetRegistrationByIdFindsRow(r.db, row);
  }

  /** A successful registration reads back under the key it was given: ACTIVE, ungraded, stamped. */
  lemma RegisterThenGetRegistration(db: Db, studentId: int, courseId: int, now: Timestamp)
    requires Wf(db)
    requires !IsStudentRegisteredForCourse(db, studentId, courseId)
    ensures var r := RegisterStudentToCourse(db, studentId, courseId, now);
            GetRegistrationById(r.db, db.nextRegistrationId)
              == Some(FullRegistration(db.nextRegistrationId, studentId, courseId, Some(now), None, Some(Active)))
  {
    AddThenGetRegistration(db, NewRegistration(studentId, courseId), now);
  }

  // ---- At most one row per (student, course) pair ----

  /** Under the pair invariant, the existence check counts at most one row. */
  lemma AtMostOneRowPerPair(db: Db, studentId: int, courseId: int)
    requires UniquePairs(db)
    ensures CountWhere(db.registrations, HasPair(studentId, courseId)) <= 1
  {
    var w := Where(db.registrations, HasPair(studentId, courseId));
    DistinctWhere(db.registrations, Pair, HasPair(studentId, courseId));
    forall i | 0 <= i < |w| ensures Pair(w[i]) == (studentId, courseId) {
      assert w[i] in w;
    }
    assert |w| <= 1 || Pair(w[0]) != Pair(w[1]);
  }

  lemma RegisterKeepsUniquePairs(db: Db, studentId: int, courseId: int, now: Timestamp)
    requires UniquePairs(db)
    ensures UniquePairs(RegisterStudentToCourse(db, studentId, courseId, now).db)
  {
    var r := RegisterStudentToCourse(db, studentId, courseId, now);
    if r.ok {
      DistinctAppend(db.registrations, r.db.registrations[|db.registrations|], Pair);
    }
  }

  lemma DropKeepsUniquePairs(db: Db, studentId: int, courseId: int)
    requires UniquePairs(db)
    ensures UniquePairs(DropStudentFromCourse(db, studentId, courseId).db)
  {
    DistinctDeleteWhere(db.registrations, Pair, HasPair(studentId, courseId));
  }

  /** Grade, status and by-key updates never move a row to another pair. */
  lemma UpdatesKeepUniquePairs(db: Db, reg: Registration, studentId: int, courseId: int, grade: Option<string>, status: RegistrationStatus)
    requires UniquePairs(db)
    requires reg.status.Some?
    ensures UniquePairs(UpdateRegistration(db, reg).db)
    ensures UniquePairs(UpdateGrade(db, studentId, courseId, grade).db)
    ensures UniquePairs(UpdateRegistrationStatus(db, studentId, courseId, status).db)
  {
    DistinctUpdateWhere(db.registrations, Pair, HasId(reg.registrationId),
                        (x: Registration) => x.(grade := reg.grade, status := reg.status));
    DistinctUpdateWhere(db.registrations, Pair, HasPair(studentId, courseId), (x: Registration) => x.(grade := grade));
    DistinctUpdateWhere(db.registrations, Pair, HasPair(studentId, courseId), (x: Registration) => x.(status := Some(status)));
  }

  /** The unchecked insert does break the invariant: inserting for a pair that already has a row duplicates it. */
  lemma AddRegistrationBreaksUniquePairs(db: Db, reg: Registration, now: Timestamp)
    requires reg.status.Some?
    requires IsStudentRegisteredForCourse(db, reg.studentId, reg.courseId)
    ensures !UniquePairs(AddRegistration(db, reg, now).db)
  {
    var t := AddRegistration(db, reg, now).db.registrations;
    var x :| x in db.registrations && x.studentId == reg.studentId && x.courseId == reg.courseId;
    var i :| 0 <= i < |db.registrations| && db.registrations[i] == x;
    assert t[i] == x && Pair(t[i]) == Pair(t[|db.registrations|]);
  }

  // ---- Register, drop, re-register ----

  /** Registering the same pair twice: the second call is refused and changes nothing. */
  lemma RegisterTwiceRefused(db: Db, studentId: int, courseId: int, t1: Timestamp, t2: Timestamp)
    ensures var first := RegisterStudentToCourse(db, studentId, courseId, t1);
            var second := RegisterStudentToCourse(first.db, studentId, courseId, t2);
            !second.ok && second.db == first.db
  {
  }

  /**
   * Register, drop, register again: the drop removes the pair's row, after
   * which registering succeeds anew with a fresh ACTIVE row under a new key.
   */
  lemma RegisterDropRegister(db: Db, studentId: int, courseId: int, t1: Timestamp, t2: Timestamp)
    requires !IsStudentRegisteredForCourse(db, studentId, courseId)
    ensures var first := RegisterStudentToCourse(db, studentId, courseId, t1);
            var dropped := DropStudentFromCourse(first.db, studentId, courseId);
            var again := RegisterStudentToCourse(dropped.db, studentId, courseId, t2);
            && first.ok && dropped.ok && !IsStudentRegisteredForCourse(dropped.db, studentId, courseId)
            && again.ok
            && again.db.registrations == dropped.db.registrations +
                 [FullRegistration(db.nextRegistrationId + 1, studentId, courseId, Some(t2), None, Some(Active))]
  {
  }

  /** Setting the status to DROPPED keeps the row: the pair still counts as registered and registering stays refused. */
  lemma StatusDroppedStillRegistered(db: Db, studentId: int, courseId: int, now: Timestamp)
    requires IsStudentRegisteredForCourse(db, studentId, courseId)
    ensures var u := UpdateRegistrationStatus(db, studentId, courseId, Dropped);
            && u.ok && IsStudentRegisteredForCourse(u.db, studentId, courseId)
            && !RegisterStudentToCourse(u.db, studentId, courseId, now).ok
  {
    var u := UpdateRegistrationStatus(db, studentId, courseId, Dropped);
    var x :| x in db.registrations && x.studentId == studentId && x.courseId == courseId;
    var i :| 0 <= i < |db.registrations| && db.registrations[i] == x;
    assert u.db.registrations[i] in u.db.registrations;
  }

  /** A rewrite that keeps every row's pair neither creates nor removes a registration for any pair. */
  lemma RowwiseRewriteKeepsRegistered(db: Db, t: seq<Registration>, s: int, c: int)
    requires |t| == |db.registrations|
    requires forall i :: 0 <= i < |t| ==> Pair(t[i]) == Pair(db.registrations[i])
    ensures IsStudentRegisteredForCourse(db.(registrations := t), s, c) == IsStudentRegisteredForCourse(db, s, c)
  {
    if IsStudentRegisteredForCourse(db, s, c) {
      var x :| x in db.registrations && x.studentId == s && x.courseId == c;
      var i :| 0 <= i < |db.registrations| && db.registrations[i] == x;
      assert Pair(t[i]) == Pair(x) && t[i] in t;
    }
    if IsStudentRegisteredForCourse(db.(registrations := t), s, c) {
      var x :| x in t && x.studentId == s && x.courseId == c;
      var i :| 0 <= i < |t| && t[i] == x;
      assert Pair(t[i]) == Pair(db.registrations[i]) && db.registrations[i] in db.registrations;
    }
  }

  /** Neither the grade nor the status update creates or removes a registration for any pair. */
  lemma UpdatesKeepRegisteredPairs(db: Db, studentId: int, courseId: int, grade: Option<string>, status: RegistrationStatus, s: int, c: int)
    ensures IsStudentRegisteredForCourse(UpdateGrade(db, studentId, courseId, grade).db, s, c)
              == IsStudentRegisteredForCourse(db, s, c)
    ensures IsStudentRegisteredForCourse(UpdateRegistrationStatus(db, studentId, courseId, status).db, s, c)
              == IsStudentRegisteredForCourse(db, s, c)
  {
    RowwiseRewriteKeepsRegistered(db, UpdateGrade(db, studentId, courseId, grade).db.registrations, s, c);
    RowwiseRewriteKeepsRegistered(db, UpdateRegistrationStatus(db, studentId, courseId, status).db.registrations, s, c);
  }

  // ---- Counts ----

  /** A successful registration adds one ACTIVE row: both counts of its pair go up by one, other courses' counts stay. */
  lemma {:induction false} RegisterCountsOnce(db: Db, studentId: int, courseId: int, now: Timestamp)
    requires !IsStudentRegisteredForCourse(db, studentId, courseId)
    ensures var r := RegisterStudentToCourse(db, studentId, courseId, now);
            && GetEnrollmentCount(r.db, courseId) == GetEnrollmentCount(db, courseId) + 1
            && GetRegistrationCount(r.db, studentId) == GetRegistrationCount(db, studentId) + 1
            && forall c :: c != courseId ==> GetEnrollmentCount(r.db, c) == GetEnrollmentCount(db, c)
  {
    var r := RegisterStudentToCourse(db, studentId, courseId, now);
    var row := FullRegistration(db.nextRegistrationId, studentId, courseId, Some(now), None, Some(Active));
    WhereAppend(db.registrations, row, ActiveInCourse(courseId));
    WhereAppend(db.registrations, row, ActiveForStudent(studentId));
    forall c | c != courseId ensures GetEnrollmentCount(r.db, c) == GetEnrollmentCount(db, c) {
      WhereAppend(db.registrations, row, ActiveInCourse(c));
    }
  }

  // ---- Orphans and the joins ----

  /**
   * Deleting a student leaves its registrations in the table (still blocking
   * re-registration), but none of them appears in the joined listings.
   */
  lemma DeletedStudentOrphansVanish(db: Db, studentId: int, courseId: int)
    ensures var d := StudentCatalog.DeleteStudent(db, studentId);
            && IsStudentRegisteredForCourse(d.db, studentId, courseId) == IsStudentRegisteredForCourse(db, studentId, courseId)
            && (forall v :: v in GetAllRegistrations(d.db) ==> v.studentId != studentId)
            && (forall v :: v in GetStudentsForCourse(d.db, courseId) ==> v.studentId != studentId)
  {
    var d := StudentCatalog.DeleteStudent(db, studentId);
    assert StudentCatalog.GetStudentById(d.db, studentId).None?;
  }

  /** Deleting a course likewise leaves its registrations behind, hidden from the joined listings. */
  lemma DeletedCourseOrphansVanish(db: Db, courseId: int, studentId: int)
    ensures var d := CourseCatalog.DeleteCourse(db, courseId);
            && IsStudentRegisteredForCourse(d.db, studentId, courseId) == IsStudentRegisteredForCourse(db, studentId, courseId)
            && (forall v :: v in GetAllRegistrations(d.db) ==> v.courseId != courseId)
            && (forall v :: v in GetCoursesForStudent(d.db, studentId) ==> v.courseId != courseId)
  {
    var d := CourseCatalog.DeleteCourse(db, courseId);
    assert CourseCatalog.GetCourseById(d.db, courseId).None?;
  }
}
