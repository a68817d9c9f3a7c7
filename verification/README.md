# Student registration: catalogs and registration ledger

This project models the data-access core of a student registration system in Dafny. The core is three DAOs (data-access objects) over three tables:

- the **student catalog** (`StudentDAOImpl`) over `students`;
- the **course catalog** (`CourseDAOImpl`) over `courses`;
- the **registration ledger** (`RegistrationDAOImpl`) over `registrations`, which relates students to courses.

Each DAO method runs one short SQL statement, except `registerStudentToCourse`, which runs an existence count and then, if the pair is new, an insert. Here each method is a pure function over an immutable database value `Store.Db`. The value holds the three tables as sequences of rows in storage order, plus each table's AUTO_INCREMENT counter. A write returns the new database and the method's boolean result (`Step`). An insert also returns the caller's object with the generated key written into it (`Added`). A query returns the rows, or `None` where the Java returns null.

The entities `Student`, `Course` and `Registration` are datatypes in module `Model`. Every Java object reference that can be null is an `Option`. Equality and hash follow the Java `equals`/`hashCode`: only the key is compared.

Files:

- `rows.dfy`: the SQL building blocks: `WHERE`, `COUNT(*)`, first row, `UPDATE … WHERE`, `DELETE … WHERE`, projection, key uniqueness.
- `text.dfy`: Java's "null" rendering, substring matching, and the string order with NULLs first.
- `sorting.dfy`: `ORDER BY` as a stable insertion sort. It is proved to give a sorted permutation.
- `model.dfy`, `store.dfy`: the entities, and the database with its invariant `Wf`. `Wf` says keys are unique, positive and below the counter, and rows have the stored shape.
- `student_catalog.dfy`, `course_catalog.dfy`, `registration_ledger.dfy`: one function per DAO method.
- `catalog_properties.dfy`, `ledger_properties.dfy`, `model_properties.dfy`, `scenarios.dfy`: lemmas relating several calls.

Four behaviours of the Java code are worth stating explicitly:

- `registerStudentToCourse` returns a boolean; the new registration's key is not returned to its caller.
- `addStudent` and `addCourse` insert without looking for an existing email or course code: see `CatalogProperties.AddStudentDuplicatesEmail` and `CatalogProperties.AddCourseDuplicatesCode`.
- `addCourse` and `updateCourse` store any credits value, negative ones included.
- None of the queries sets a collation, so whether names and codes compare case-insensitively is up to the database; the model compares characters exactly.

## Model

| member | source | states |
|---|---|---|
| `StudentCatalog.AddStudent` | src/main/java/com/studentregistration/dao/StudentDAOImpl.java:48-82 | always succeeds; appends one row with the five supplied fields, the next key and a server-stamped enrollment date; the key is new in a well-formed store and is written back into the caller's object; the student counter advances by one; other tables and counters untouched; no email check |
| `StudentCatalog.GetStudentById` | src/main/java/com/studentregistration/dao/StudentDAOImpl.java:84-102 | returns a stored row carrying that key, and null exactly when no row has it |
| `StudentCatalog.GetStudentByIdFindsRow` | src/main/java/com/studentregistration/dao/StudentDAOImpl.java:23-24 | keys are unique in a well-formed store, so lookup by key returns the very row holding it |
| `StudentCatalog.GetStudentByEmail` | src/main/java/com/studentregistration/dao/StudentDAOImpl.java:104-122 | returns a stored row whose email equals the argument exactly; null exactly when none does (always for a null argument) |
| `StudentCatalog.StudentExists` | src/main/java/com/studentregistration/dao/StudentDAOImpl.java:214-232 | true iff some row has exactly that email |
| `StudentCatalog.GetAllStudents` | src/main/java/com/studentregistration/dao/StudentDAOImpl.java:124-142 | a permutation of the whole table, sorted by last name then first name |
| `StudentCatalog.ByNameTotalPreorder` | src/main/java/com/studentregistration/dao/StudentDAOImpl.java:29-30 | ordering by last name then first name compares every pair of students and is transitive |
| `StudentCatalog.UpdateStudent` | src/main/java/com/studentregistration/dao/StudentDAOImpl.java:144-170 | true iff a row has the argument's key; that row becomes the argument except for its stored enrollment date; every other row and table is unchanged |
| `StudentCatalog.DeleteStudent` | src/main/java/com/studentregistration/dao/StudentDAOImpl.java:172-187 | true iff a row had the key; exactly the rows with that key go, so the table shrinks by their number; the registrations table is untouched |
| `StudentCatalog.SearchStudentsByName` | src/main/java/com/studentregistration/dao/StudentDAOImpl.java:189-212 | exactly the students whose first or last name matches `'%' + query + '%'` under `LIKE`, each as often as stored, sorted by last then first name; a null query searches for "null"; a NULL name never matches |
| `CourseCatalog.AddCourse` | src/main/java/com/studentregistration/dao/CourseDAOImpl.java:50-78 | always succeeds; appends one row with the five supplied fields (credits unchecked), the next key and a created date; the key is new and written back; the course counter advances by one, all else untouched; no code check |
| `CourseCatalog.GetCourseById` | src/main/java/com/studentregistration/dao/CourseDAOImpl.java:80-98 | returns a stored row carrying that key, and null exactly when no row has it |
| `CourseCatalog.GetCourseByIdFindsRow` | src/main/java/com/studentregistration/dao/CourseDAOImpl.java:22-23 | in a well-formed store, lookup by key returns the very row holding it |
| `CourseCatalog.GetCourseByCode` | src/main/java/com/studentregistration/dao/CourseDAOImpl.java:100-118 | returns a stored row whose code equals the argument exactly; null exactly when none does |
| `CourseCatalog.CourseExists` | src/main/java/com/studentregistration/dao/CourseDAOImpl.java:227-245 | true iff some row has exactly that code |
| `CourseCatalog.GetAllCourses` | src/main/java/com/studentregistration/dao/CourseDAOImpl.java:120-138 | a permutation of the whole table, sorted by course code |
| `CourseCatalog.ByCodeTotalPreorder` | src/main/java/com/studentregistration/dao/CourseDAOImpl.java:28-29 | ordering by course code compares every pair of courses and is transitive |
| `CourseCatalog.UpdateCourse` | src/main/java/com/studentregistration/dao/CourseDAOImpl.java:140-160 | true iff a row has the argument's key; that row becomes the argument except for its stored created date; nothing else changes |
| `CourseCatalog.DeleteCourse` | src/main/java/com/studentregistration/dao/CourseDAOImpl.java:162-177 | true iff a row had the key; exactly the rows with that key go, so the table shrinks by their number; registrations untouched |
| `CourseCatalog.SelectByCode` | src/main/java/com/studentregistration/dao/CourseDAOImpl.java:37-41 | a filtered course listing holds exactly the satisfying rows, each as often as stored, sorted by code |
| `CourseCatalog.SearchCoursesByName` | src/main/java/com/studentregistration/dao/CourseDAOImpl.java:179-201 | exactly the courses whose name matches `'%' + query + '%'` under `LIKE`, each as often as stored, sorted by code |
| `CourseCatalog.GetCoursesByInstructor` | src/main/java/com/studentregistration/dao/CourseDAOImpl.java:203-225 | exactly the courses whose instructor matches `'%' + query + '%'` under `LIKE`, sorted by code; a course with no instructor never appears |
| `RegistrationLedger.IsStudentRegisteredForCourse` | src/main/java/com/studentregistration/dao/RegistrationDAOImpl.java:294-313 | true iff some row has that (student, course) pair, whatever its status |
| `RegistrationLedger.AddRegistration` | src/main/java/com/studentregistration/dao/RegistrationDAOImpl.java:88-114 | inserts with no existence check; appends one row with the argument's pair and status, the next key, a stamped date and no grade; the key is new and written back into the object; the registration counter advances by one, all else untouched |
| `RegistrationLedger.RegisterStudentToCourse` | src/main/java/com/studentregistration/dao/RegistrationDAOImpl.java:76-86 | false, with the database unchanged, iff a row for the pair exists; otherwise appends exactly one ACTIVE, ungraded row under the next key and advances only the registration counter; afterwards the pair is registered either way |
| `RegistrationLedger.GetRegistrationById` | src/main/java/com/studentregistration/dao/RegistrationDAOImpl.java:116-134 | returns a stored row with that key, and null exactly when none has it |
| `RegistrationLedger.GetRegistrationByIdFindsRow` | src/main/java/com/studentregistration/dao/RegistrationDAOImpl.java:25-26 | keys are unique in a well-formed store, so lookup by key returns the very row holding it |
| `RegistrationLedger.UpdateRegistration` | src/main/java/com/studentregistration/dao/RegistrationDAOImpl.java:173-190 | true iff a row has the argument's key; that row takes the argument's grade and status, all else unchanged |
| `RegistrationLedger.DropStudentFromCourse` | src/main/java/com/studentregistration/dao/RegistrationDAOImpl.java:192-208 | true iff the pair was registered; removes exactly the pair's rows (a delete, not a status change), shrinking the table by their number; afterwards the pair is not registered |
| `RegistrationLedger.UpdateGrade` | src/main/java/com/studentregistration/dao/RegistrationDAOImpl.java:315-332 | true iff the pair is registered; the pair's rows get the grade verbatim with status, keys and dates kept; other rows unchanged |
| `RegistrationLedger.UpdateRegistrationStatus` | src/main/java/com/studentregistration/dao/RegistrationDAOImpl.java:334-351 | true iff the pair is registered; the pair's rows get the new status whatever the old one; other rows unchanged |
| `RegistrationLedger.GetEnrollmentCount` | src/main/java/com/studentregistration/dao/RegistrationDAOImpl.java:353-371 | exactly the number of stored rows for the course whose status is ACTIVE (rows of other statuses are not counted); positive iff such a row exists |
| `RegistrationLedger.GetRegistrationCount` | src/main/java/com/studentregistration/dao/RegistrationDAOImpl.java:373-391 | exactly the number of stored rows for the student whose status is ACTIVE; positive iff such a row exists |
| `RegistrationLedger.GetAllRegistrations` | src/main/java/com/studentregistration/dao/RegistrationDAOImpl.java:136-171 | exactly the registrations whose student and course both exist, each with their summary snapshots, as many as such rows, newest first |
| `RegistrationLedger.GetCoursesForStudent` | src/main/java/com/studentregistration/dao/RegistrationDAOImpl.java:210-248 | exactly the student's registrations (any status) whose course exists, each carrying that course's row, newest first |
| `RegistrationLedger.GetStudentsForCourse` | src/main/java/com/studentregistration/dao/RegistrationDAOImpl.java:250-292 | exactly the course's registrations (any status) whose student exists, each carrying that student's row, ordered by last then first name |
| `RegistrationLedger.NewestFirstTotalPreorder` | src/main/java/com/studentregistration/dao/RegistrationDAOImpl.java:28-33 | newest-first date order (NULL last) compares every pair and is transitive |
| `RegistrationLedger.ByEnrolleeTotalPreorder` | src/main/java/com/studentregistration/dao/RegistrationDAOImpl.java:49-55 | ordering registrations by the joined student's last then first name compares every pair and is transitive |
| `LedgerProperties.AddRegistrationKeepsWf` | src/main/java/com/studentregistration/dao/RegistrationDAOImpl.java:22-23 | the raw insert keeps keys unique and below the counter, and rows stamped |
| `LedgerProperties.RegisterKeepsWf` | src/main/java/com/studentregistration/dao/RegistrationDAOImpl.java:76-86 | registering keeps the store invariant |
| `LedgerProperties.DropKeepsWf` | src/main/java/com/studentregistration/dao/RegistrationDAOImpl.java:38-39 | dropping keeps the store invariant |
| `LedgerProperties.UpdatesKeepWf` | src/main/java/com/studentregistration/dao/RegistrationDAOImpl.java:35-36 | the by-key, grade and status updates keep the store invariant |
| `LedgerProperties.AddThenGetRegistration` | src/main/java/com/studentregistration/dao/RegistrationDAO.java:22-34 | an inserted registration reads back by its new key with the supplied pair and status, a non-null date and no grade |
| `LedgerProperties.RegisterThenGetRegistration` | src/main/java/com/studentregistration/dao/RegistrationDAOImpl.java:76-86 | a successful registration reads back under the next key as ACTIVE, ungraded, with a non-null date |
| `LedgerProperties.AtMostOneRowPerPair` | src/main/java/com/studentregistration/dao/RegistrationDAOImpl.java:57-58 | under the pair invariant the existence count is 0 or 1 |
| `LedgerProperties.RegisterKeepsUniquePairs` | src/main/java/com/studentregistration/dao/RegistrationDAOImpl.java:76-86 | check-then-insert keeps at most one row per (student, course) pair |
| `LedgerProperties.DropKeepsUniquePairs` | src/main/java/com/studentregistration/dao/RegistrationDAOImpl.java:192-208 | dropping keeps at most one row per pair |
| `LedgerProperties.UpdatesKeepUniquePairs` | src/main/java/com/studentregistration/dao/RegistrationDAOImpl.java:60-64 | updates by key, grade and status keep at most one row per pair |
| `LedgerProperties.AddRegistrationBreaksUniquePairs` | src/main/java/com/studentregistration/dao/RegistrationDAOImpl.java:88-114 | the unchecked insert, for a pair already registered, leaves two rows for that pair |
| `LedgerProperties.RegisterTwiceRefused` | src/main/java/com/studentregistration/dao/RegistrationDAOImpl.java:78-82 | registering a pair twice: the second call returns false and changes nothing |
| `LedgerProperties.RegisterDropRegister` | src/main/java/com/studentregistration/dao/RegistrationDAO.java:49-55 | register, drop, register: the drop succeeds and unregisters the pair, and registering again succeeds with a fresh ACTIVE row under a new key |
| `LedgerProperties.StatusDroppedStillRegistered` | src/main/java/com/studentregistration/dao/RegistrationDAOImpl.java:63-64 | setting status DROPPED succeeds but keeps the row, so the pair stays registered and registering is still refused |
| `LedgerProperties.RowwiseRewriteKeepsRegistered` | src/main/java/com/studentregistration/dao/RegistrationDAOImpl.java:57-58 | any rewrite that keeps each row's pair leaves the existence check unchanged for every pair |
| `LedgerProperties.UpdatesKeepRegisteredPairs` | src/main/java/com/studentregistration/dao/RegistrationDAOImpl.java:60-64 | grade and status updates neither register nor unregister any pair |
| `LedgerProperties.RegisterCountsOnce` | src/main/java/com/studentregistration/dao/RegistrationDAOImpl.java:66-70 | a successful registration raises the course's enrollment count and the student's registration count by exactly one and leaves other courses' counts alone |
| `LedgerProperties.DeletedStudentOrphansVanish` | src/main/java/com/studentregistration/dao/RegistrationDAOImpl.java:49-55 | deleting a student leaves its registrations stored (still counted by the existence check) but absent from the full listing and every course's student list |
| `LedgerProperties.DeletedCourseOrphansVanish` | src/main/java/com/studentregistration/dao/RegistrationDAOImpl.java:41-47 | deleting a course leaves its registrations stored but absent from the full listing and every student's course list |
| `CatalogProperties.AddStudentKeepsWf` | src/main/java/com/studentregistration/dao/StudentDAOImpl.java:20-21 | adding a student keeps keys unique and below the counter |
| `CatalogProperties.UpdateStudentKeepsWf` | src/main/java/com/studentregistration/dao/StudentDAOImpl.java:32-33 | updating a student keeps the store invariant |
| `CatalogProperties.DeleteStudentKeepsWf` | src/main/java/com/studentregistration/dao/StudentDAOImpl.java:35-36 | deleting a student keeps the store invariant |
| `CatalogProperties.AddThenGetStudent` | src/main/java/com/studentregistration/dao/StudentDAO.java:20-25 | an added student reads back by its new key with every supplied field and a non-null enrollment date |
| `CatalogProperties.UpdateThenGetStudent` | src/main/java/com/studentregistration/dao/StudentDAO.java:40-45 | an update of a stored key succeeds and reads back as the caller's object with the old enrollment date |
| `CatalogProperties.DeleteStudentLeavesRegistrations` | src/main/java/com/studentregistration/dao/StudentDAO.java:47-52 | after delete the key is not found and the registrations table is unchanged |
| `CatalogProperties.StudentExistsIffFound` | src/main/java/com/studentregistration/dao/StudentDAO.java:61-66 | the existence check by email agrees with lookup by email |
| `CatalogProperties.AddStudentDuplicatesEmail` | src/main/java/com/studentregistration/dao/StudentDAOImpl.java:48-82 | adding a student with an email already present succeeds and raises that email's row count by one, to at least two |
| `CatalogProperties.SearchLiteralIsSubstring` | src/main/java/com/studentregistration/dao/StudentDAOImpl.java:189-212 | for a query without `%` or `_`, the name search returns exactly the students having the query as a substring of the first or the last name |
| `CatalogProperties.SearchUnderscoreFindsAll` | src/main/java/com/studentregistration/dao/StudentDAOImpl.java:192 | the query "_" keeps its wildcard meaning: the search returns every student with a non-empty first or last name |
| `Text.LikeLiteralIsContains` | src/main/java/com/studentregistration/dao/CourseDAOImpl.java:182 | for a query without wildcards, `LIKE '%' + query + '%'` holds exactly when the query occurs as a contiguous substring |
| `Text.UnderscoreMatchesAnyCharacter` | src/main/java/com/studentregistration/dao/CourseDAOImpl.java:206 | the pattern `'%_%'` matches exactly the non-empty strings |
| `Text.ContainsAt` | src/main/java/com/studentregistration/dao/StudentDAOImpl.java:38-39 | substring containment holds exactly when the query sits at some position of the string |
| `Sorting.Sort` | src/main/java/com/studentregistration/dao/StudentDAOImpl.java:29-30 | `ORDER BY` returns the same rows, as a multiset, in the same number |
| `Sorting.SortSorted` | src/main/java/com/studentregistration/dao/CourseDAOImpl.java:28-29 | under a total preorder, the `ORDER BY` result is ordered: every row sorts no later than every row after it |
| `Text.LexLeTotal` | src/main/java/com/studentregistration/dao/CourseDAOImpl.java:28-29 | any two codes compare one way or the other under the string order |
| `Text.LexLeTransitive` | src/main/java/com/studentregistration/dao/CourseDAOImpl.java:28-29 | the string order is transitive |
| `Text.LexLeAntisymmetric` | src/main/java/com/studentregistration/dao/CourseDAOImpl.java:28-29 | two strings each no greater than the other are equal |
| `CatalogProperties.AddCourseKeepsWf` | src/main/java/com/studentregistration/dao/CourseDAOImpl.java:19-20 | adding a course keeps the store invariant |
| `CatalogProperties.UpdateCourseKeepsWf` | src/main/java/com/studentregistration/dao/CourseDAOImpl.java:31-32 | updating a course keeps the store invariant |
| `CatalogProperties.DeleteCourseKeepsWf` | src/main/java/com/studentregistration/dao/CourseDAOImpl.java:34-35 | deleting a course keeps the store invariant |
| `CatalogProperties.AddThenGetCourse` | src/main/java/com/studentregistration/dao/CourseDAO.java:19-24 | an added course reads back by its new key with every supplied field, negative credits included, and a non-null created date |
| `CatalogProperties.UpdateThenGetCourse` | src/main/java/com/studentregistration/dao/CourseDAO.java:39-44 | an update of a stored key succeeds and reads back as the caller's object with the old created date |
| `CatalogProperties.DeleteCourseLeavesRegistrations` | src/main/java/com/studentregistration/dao/CourseDAO.java:46-51 | after delete the key is not found and registrations are unchanged |
| `CatalogProperties.CourseExistsIffFound` | src/main/java/com/studentregistration/dao/CourseDAO.java:67-72 | the existence check by code agrees with lookup by code |
| `CatalogProperties.AddCourseDuplicatesCode` | src/main/java/com/studentregistration/dao/CourseDAOImpl.java:50-78 | adding a course with a code already present succeeds, leaving at least two rows with that code |
| `ModelProperties.StatusHasThreeValues` | src/main/java/com/studentregistration/model/Registration.java:22-24 | the status is ACTIVE, DROPPED or COMPLETED, three distinct values |
| `ModelProperties.NewRegistrationDefaults` | src/main/java/com/studentregistration/model/Registration.java:30-34 | the two-argument constructor gives key 0, the given pair, status ACTIVE, no grade, no date, no snapshots |
| `ModelProperties.DefaultRegistrationHasNoStatus` | src/main/java/com/studentregistration/model/Registration.java:27 | the no-argument constructor leaves the status null and the key 0 |
| `ModelProperties.FullRegistrationStoresArguments` | src/main/java/com/studentregistration/model/Registration.java:37-45 | the six-argument constructor stores every argument verbatim and no snapshots |
| `ModelProperties.NewStudentDefaults` | src/main/java/com/studentregistration/model/Student.java:23-29 | the five-argument constructor leaves key 0 and no enrollment date, and stores the rest verbatim |
| `ModelProperties.NewCourseDefaults` | src/main/java/com/studentregistration/model/Course.java:22-28 | the five-argument constructor leaves key 0 and no created date, and stores the rest verbatim |
| `ModelProperties.RegistrationIdentity` | src/main/java/com/studentregistration/model/Registration.java:127-138 | equality compares keys only, is false against null, is an equivalence, and equal objects hash alike |
| `ModelProperties.StudentIdentity` | src/main/java/com/studentregistration/model/Student.java:111-122 | equality compares keys only, is false against null, is an equivalence, and equal objects hash alike |
| `ModelProperties.CourseIdentity` | src/main/java/com/studentregistration/model/Course.java:105-116 | equality compares keys only, is false against null, is an equivalence, and equal objects hash alike |
| `ModelProperties.StudentEqualityIgnoresFields` | src/main/java/com/studentregistration/model/Student.java:112-117 | a student equals a blank student carrying the same key |
| `ModelProperties.FullNameSplits` | src/main/java/com/studentregistration/model/Student.java:101-103 | the full name is the first name, one space, then the last name |
| `ModelProperties.FullNameOfNullNames` | src/main/java/com/studentregistration/model/Student.java:101-103 | with both names null the full name is "null null" |
| `Scenarios.AdaLovelace` | src/main/java/com/studentregistration/dao/RegistrationDAOImpl.java:315-332 | from an empty database: student key 1, course key 1, registration succeeds, grading succeeds, the row reads back graded "A" and still ACTIVE, and the student's course list is that one course, code CS101 |
| `Scenarios.CountsOnlyActive` | src/main/java/com/studentregistration/dao/RegistrationDAOImpl.java:66-67 | two registrations in one course count 2; after one is set COMPLETED the count is 1 |

## Left out

- Storage faults are not modelled: the model describes runs in which every statement succeeds, so the inserts always return true. Each DAO method catches `SQLException`, logs it and returns false, null, 0 or the list built so far, but a fault does not always leave the data unchanged:
  - In `registerStudentToCourse`, a fault in the existence count makes `isStudentRegisteredForCourse` return false, and the insert then runs unchecked. The result is the same as the raw insert of `LedgerProperties.AddRegistrationBreaksUniquePairs`: a sequential run can leave two rows for one pair. `LedgerProperties.RegisterKeepsUniquePairs` and `LedgerProperties.RegisterTwiceRefused` hold only for runs in which the check does not fault.
  - In `addStudent`, `addCourse` and `addRegistration`, a fault while reading the generated key comes after `executeUpdate` has stored the row. The method returns false and the caller's object keeps whatever key it had, yet the row is in the table.
  - In the listing methods, a fault part-way through reading the result returns the rows read so far, not an empty list.
- The schema's own constraints are not modelled (NOT NULL columns, foreign keys, any unique index on email, code or (student, course)). The schema is not part of this model. Only the AUTO_INCREMENT primary keys are, and rows that refer to deleted students or courses are possible.
- The check-then-insert race in registering is not modelled: the model is sequential.
- Connection handling (`DatabaseConnection`), JDBC statement and result-set mechanics, and the console application are not part of this model. The same goes for logging, the message printed when a registration is refused, and `toString`.
- Collation is not modelled. MySQL may compare, match and order strings case-insensitively, depending on a schema not shown. The model compares characters exactly and orders by character code, with NULL first.
- The `LIKE` escape character (backslash) is not modelled. The wildcards `%` and `_` are, including when they come from the user's query.
- Ties under `ORDER BY` come back in storage order. SQL leaves their order unspecified, so the listing contracts promise only a sorted permutation.
- Java's 32-bit `int` is not modelled: keys, credits and counts are unbounded integers, and AUTO_INCREMENT overflow is out of scope.
- Timestamps are not modelled as real time. The database fills them from its clock; here they are a `now` parameter to each insert, and dates of birth are opaque integers.
- The inner joins are modelled as lookup of the one row with the referenced key. This equals the join whenever keys are unique, which `Wf` guarantees.
- The full seven-argument constructors of `Student` and `Course`, and the eight-argument constructor of `Registration`, are the datatype constructors themselves. Getters are field selection and setters are datatype update, so they have no members of their own; `setCredits` accepts any int.
- The DAO interfaces (`RegistrationDAO`, `StudentDAO`, `CourseDAO`) have no separate abstract declaration. Their documented promises are stated on the implementing functions and in the lemmas above.
- RegistrationLedger.AddRegistration: with a null status `addRegistration` throws `NullPointerException` from `getStatus().name()` while binding the insert, before it executes. The model excludes that case with `requires reg.status.Some?` rather than modelling the crash.
- RegistrationLedger.UpdateRegistration: `updateRegistration` also calls `getStatus().name()`, so the same null-status `NullPointerException` is excluded by the same precondition.
- RegistrationLedger.UpdateRegistrationStatus: takes a non-null status, because `updateRegistrationStatus` calls `status.name()` while binding the update, so a null throws before it executes.
