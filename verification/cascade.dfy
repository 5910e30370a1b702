/** The application-level cascading deletes of the "Delete Records" page. The
    page deletes a student's Attendance, TermMark and EmailNotificationLog rows
    itself before the Student row, and a parent's students (with their rows)
    before the Parent row. The schema is not part of this model; the order of
    the statements, and the comment "Delete dependent records first", suggest
    a store with foreign keys from the child tables to Student and from
    Student to Parent, StudentID as the primary key of Student, and no
    ON DELETE CASCADE. Those are the assumptions `Blocked` and
    `UniqueStudentIds` state. */
module Cascade {
  import opened Tables
  import opened Schema
  import opened Statements

  /** `after` is `before` less exactly the Student rows whose id is in `sids`,
      every Attendance, TermMark and EmailNotificationLog row of those students,
      and the Parent rows whose id is in `pids`. Class rows and all other rows
      stay, each as often as before. */
  ghost predicate RemovesOnly(before: Db, after: Db, sids: set<StudentId>, pids: set<ParentId>)
  {
    && after.classes == before.classes
    && RemovedExactly(before.parents, after.parents, ParentKey, pids)
    && RemovedExactly(before.students, after.students, StudentKey, sids)
    && RemovedExactly(before.attendance, after.attendance, AttendanceStudent, sids)
    && RemovedExactly(before.termMarks, after.termMarks, TermMarkStudent, sids)
    && RemovedExactly(before.emailLogs, after.emailLogs, EmailLogStudent, sids)
  }

  lemma RemovesOnlyTrans(a: Db, b: Db, c: Db, s1: set<StudentId>, p1: set<ParentId>, s2: set<StudentId>, p2: set<ParentId>)
    requires RemovesOnly(a, b, s1, p1)
    requires RemovesOnly(b, c, s2, p2)
    ensures RemovesOnly(a, c, s1 + s2, p1 + p2)
  {
    RemovedExactlyTrans(a.parents, b.parents, c.parents, ParentKey, p1, p2);
    RemovedExactlyTrans(a.students, b.students, c.students, StudentKey, s1, s2);
    RemovedExactlyTrans(a.attendance, b.attendance, c.attendance, AttendanceStudent, s1, s2);
    RemovedExactlyTrans(a.termMarks, b.termMarks, c.termMarks, TermMarkStudent, s1, s2);
    RemovedExactlyTrans(a.emailLogs, b.emailLogs, c.emailLogs, EmailLogStudent, s1, s2);
  }

  // ---------------------------------------------------------------------------
  // Delete Student

  /** The four statements the "Delete Student" button sends, dependents first. */
  function StudentCascade(sid: StudentId): seq<Stmt>
  {
    [DeleteAttendanceOf(sid), DeleteTermMarksOf(sid), DeleteEmailLogsOf(sid), DeleteStudentRow(sid)]
  }

  /** The store after each statement of the student cascade. */
  lemma StudentCascadeSteps(db: Db, sid: StudentId)
    ensures Run(db, StudentCascade(sid))
         == Exec(Exec(Exec(Exec(db, DeleteAttendanceOf(sid)), DeleteTermMarksOf(sid)),
                      DeleteEmailLogsOf(sid)), DeleteStudentRow(sid))
  {
    var d1 := Exec(db, DeleteAttendanceOf(sid));
    var d2 := Exec(d1, DeleteTermMarksOf(sid));
    var d3 := Exec(d2, DeleteEmailLogsOf(sid));
    assert StudentCascade(sid) == [DeleteAttendanceOf(sid)] + ([DeleteTermMarksOf(sid)] + ([DeleteEmailLogsOf(sid)] + [DeleteStudentRow(sid)]));
    RunCons(db, DeleteAttendanceOf(sid), [DeleteTermMarksOf(sid)] + ([DeleteEmailLogsOf(sid)] + [DeleteStudentRow(sid)]));
    RunCons(d1, DeleteTermMarksOf(sid), [DeleteEmailLogsOf(sid)] + [DeleteStudentRow(sid)]);
    RunCons(d2, DeleteEmailLogsOf(sid), [DeleteStudentRow(sid)]);
    RunCons(d3, DeleteStudentRow(sid), []);
  }

  /** The student cascade filters each of the four tables once. */
  lemma StudentCascadeTables(db: Db, sid: StudentId)
    ensures Run(db, StudentCascade(sid))
         == db.(attendance := Remove(db.attendance, AttendanceStudent, sid),
                termMarks := Remove(db.termMarks, TermMarkStudent, sid),
                emailLogs := Remove(db.emailLogs, EmailLogStudent, sid),
                students := Remove(db.students, StudentKey, sid))
  {
    StudentCascadeSteps(db, sid);
    var d1 := Exec(db, DeleteAttendanceOf(sid));
    assert d1 == db.(attendance := Remove(db.attendance, AttendanceStudent, sid));
    var d2 := Exec(d1, DeleteTermMarksOf(sid));
    assert d2 == d1.(termMarks := Remove(db.termMarks, TermMarkStudent, sid));
    var d3 := Exec(d2, DeleteEmailLogsOf(sid));
    assert d3 == d2.(emailLogs := Remove(db.emailLogs, EmailLogStudent, sid));
  }

  /** Deleting student `sid`: every row of the student goes, and nothing else. */
  function DeleteStudent(db: Db, sid: StudentId): (r: Db)
    ensures RemovesOnly(db, r, {sid}, {})
    ensures r.parents == db.parents
    ensures sid !in StudentIds(r) && Dependents(r, sid) == 0
    ensures TotalRows(r) == TotalRows(db) - Dependents(db, sid) - Count(db.students, StudentKey, sid)
  {
    StudentCascadeTables(db, sid);
    RemoveMeaning(db.attendance, AttendanceStudent, sid);
    RemoveMeaning(db.termMarks, TermMarkStudent, sid);
    RemoveMeaning(db.emailLogs, EmailLogStudent, sid);
    RemoveMeaning(db.students, StudentKey, sid);
    RemovedNothing(db.parents, ParentKey);
    Run(db, StudentCascade(sid))
  }

  /** No statement of the student cascade is ever refused by the store's
      foreign keys: by the time the Student row is deleted, nothing names it. */
  lemma DeleteStudentGoesThrough(db: Db, sid: StudentId)
    ensures GoesThrough(db, StudentCascade(sid))
    ensures RunChecked(db, StudentCascade(sid)) == Executed(DeleteStudent(db, sid))
  {
    var d1 := Exec(db, DeleteAttendanceOf(sid));
    var d2 := Exec(d1, DeleteTermMarksOf(sid));
    var d3 := Exec(d2, DeleteEmailLogsOf(sid));
    assert Dependents(d3, sid) == 0;
    assert StudentCascade(sid) == [DeleteAttendanceOf(sid)] + ([DeleteTermMarksOf(sid)] + ([DeleteEmailLogsOf(sid)] + [DeleteStudentRow(sid)]));
    GoesThroughCons(d3, DeleteStudentRow(sid), []);
    GoesThroughCons(d2, DeleteEmailLogsOf(sid), [DeleteStudentRow(sid)]);
    GoesThroughCons(d1, DeleteTermMarksOf(sid), [DeleteEmailLogsOf(sid)] + [DeleteStudentRow(sid)]);
    GoesThroughCons(db, DeleteAttendanceOf(sid), [DeleteTermMarksOf(sid)] + ([DeleteEmailLogsOf(sid)] + [DeleteStudentRow(sid)]));
    RunCheckedMeaning(db, StudentCascade(sid));
  }

  /** Deleting dependents before the Student row keeps a consistent store
      consistent in every intermediate state. */
  lemma DeleteStudentKeepsIntegrity(db: Db, sid: StudentId)
    requires Integrity(db)
    ensures IntactThroughout(db, StudentCascade(sid))
    ensures Integrity(DeleteStudent(db, sid))
  {
    DeleteStudentGoesThrough(db, sid);
    CheckedRunKeepsIntegrity(db, StudentCascade(sid));
  }

  /** Why the order matters: a store that checks its foreign keys refuses the
      Student row's delete while the student still has dependent rows, so
      deleting an existing student's row first would stop the cascade at once. */
  lemma StudentRowFirstIsRefused(db: Db, sid: StudentId)
    requires sid in StudentIds(db)
    requires Dependents(db, sid) > 0
    ensures RunChecked(db, [DeleteStudentRow(sid)] + StudentCascade(sid)[..3]) == Refused(0, db)
  {
    CountZero(db.students, StudentKey, sid);
  }

  /** A student with no dependent rows: only the Student row goes. With
      StudentID a primary key, that is one row. */
  lemma DeleteStudentWithoutDependents(db: Db, sid: StudentId)
    requires Dependents(db, sid) == 0
    ensures DeleteStudent(db, sid) == db.(students := Remove(db.students, StudentKey, sid))
    ensures UniqueStudentIds(db) && sid in StudentIds(db) ==>
              TotalRows(DeleteStudent(db, sid)) == TotalRows(db) - 1
  {
    OnlyStudentRowGoes(db, sid);
    if UniqueStudentIds(db) && sid in StudentIds(db) {
      CountUnderUniqueKey(db.students, StudentKey, sid);
    }
  }

  lemma OnlyStudentRowGoes(db: Db, sid: StudentId)
    requires Dependents(db, sid) == 0
    ensures DeleteStudent(db, sid) == db.(students := Remove(db.students, StudentKey, sid))
  {
    StudentCascadeTables(db, sid);
    assert Remove(db.attendance, AttendanceStudent, sid) == db.attendance;
    assert Remove(db.termMarks, TermMarkStudent, sid) == db.termMarks;
    assert Remove(db.emailLogs, EmailLogStudent, sid) == db.emailLogs;
  }

  /** With StudentID a primary key, deleting an existing student removes its
      N Attendance, M TermMark and K EmailNotificationLog rows and the one
      Student row: N + M + K + 1 rows. */
  lemma DeleteStudentRowsRemoved(db: Db, sid: StudentId)
    requires UniqueStudentIds(db)
    requires sid in StudentIds(db)
    ensures TotalRows(db) - TotalRows(DeleteStudent(db, sid)) == Dependents(db, sid) + 1
  {
    CountUnderUniqueKey(db.students, StudentKey, sid);
  }

  // ---------------------------------------------------------------------------
  // Delete Parent

  /** SELECT StudentID FROM Student WHERE ParentID = ?: the students of `pid`,
      read once before any delete. */
  function StudentsOf(db: Db, pid: ParentId): (sids: seq<StudentId>)
    ensures Elements(sids) == FamilyIds(db, pid)
    ensures |sids| == Count(db.students, StudentParent, pid)
  {
    Select(db.students, StudentParent, pid, StudentKey)
  }

  /** Ids of the students whose ParentID is `pid`. */
  ghost function FamilyIds(db: Db, pid: ParentId): set<StudentId>
  {
    set s | s in db.students && s.parentId == pid :: s.id
  }

  /** The loop body of the "Delete Parent" button, once per student read. */
  function StudentCascades(sids: seq<StudentId>): seq<Stmt>
    decreases |sids|
  {
    if |sids| == 0 then [] else StudentCascade(sids[0]) + StudentCascades(sids[1..])
  }

  /** Everything the "Delete Parent" button sends: the students' cascades, then
      the Parent row. */
  function ParentCascade(pid: ParentId, sids: seq<StudentId>): seq<Stmt>
  {
    StudentCascades(sids) + [DeleteParentRow(pid)]
  }

  lemma RemovesNothing(db: Db)
    ensures RemovesOnly(db, db, {}, {})
  {
    RemovedNothing(db.parents, ParentKey);
    RemovedNothing(db.students, StudentKey);
    RemovedNothing(db.attendance, AttendanceStudent);
    RemovedNothing(db.termMarks, TermMarkStudent);
    RemovedNothing(db.emailLogs, EmailLogStudent);
  }

  /** Deleting the students `sids` one after another. */
  function DeleteStudents(db: Db, sids: seq<StudentId>): (r: Db)
    ensures RemovesOnly(db, r, Elements(sids), {})
    ensures r.parents == db.parents
    decreases |sids|
  {
    if |sids| == 0 then
      RemovesNothing(db);
      db
    else
      var d := DeleteStudent(db, sids[0]);
      var r := DeleteStudents(d, sids[1..]);
      RemovesOnlyTrans(db, d, r, {sids[0]}, {}, Elements(sids[1..]), {});
      ElementsCons(sids);
      r
  }

  /** Running the students' cascades is deleting the students one by one: the
      parent loop body is exactly the student delete. */
  lemma {:induction false} StudentCascadesAreDeletes(db: Db, sids: seq<StudentId>)
    ensures Run(db, StudentCascades(sids)) == DeleteStudents(db, sids)
    ensures GoesThrough(db, StudentCascades(sids))
    decreases |sids|
  {
    if |sids| > 0 {
      var d := DeleteStudent(db, sids[0]);
      RunAppend(db, StudentCascade(sids[0]), StudentCascades(sids[1..]));
      GoesThroughAppend(db, StudentCascade(sids[0]), StudentCascades(sids[1..]));
      DeleteStudentGoesThrough(db, sids[0]);
      StudentCascadesAreDeletes(d, sids[1..]);
    }
  }

  /** The store after the parent cascade: the students' deletes, then the
      Parent row. */
  lemma ParentCascadeSteps(db: Db, pid: ParentId, sids: seq<StudentId>)
    ensures Run(db, ParentCascade(pid, sids)) == Exec(DeleteStudents(db, sids), DeleteParentRow(pid))
    ensures GoesThrough(db, ParentCascade(pid, sids)) <==>
              !Blocked(DeleteStudents(db, sids), DeleteParentRow(pid))
  {
    StudentCascadesAreDeletes(db, sids);
    RunAppend(db, StudentCascades(sids), [DeleteParentRow(pid)]);
    GoesThroughAppend(db, StudentCascades(sids), [DeleteParentRow(pid)]);
    var d := DeleteStudents(db, sids);
    assert [DeleteParentRow(pid)][1..] == [];
    assert Run(d, [DeleteParentRow(pid)]) == Exec(d, DeleteParentRow(pid));
  }

  /** Deleting the Parent row `pid` removes exactly the Parent rows with that id. */
  lemma ParentRowRemovesOnly(db: Db, pid: ParentId)
    ensures RemovesOnly(db, Exec(db, DeleteParentRow(pid)), {}, {pid})
  {
    RemoveMeaning(db.parents, ParentKey, pid);
    RemovedNothing(db.students, StudentKey);
    RemovedNothing(db.attendance, AttendanceStudent);
    RemovedNothing(db.termMarks, TermMarkStudent);
    RemovedNothing(db.emailLogs, EmailLogStudent);
  }

  /** After the Parent row's delete no Parent row carries `pid`, and the
      Student table is as it was. */
  lemma ParentRowGone(db: Db, pid: ParentId)
    ensures pid !in ParentIds(Exec(db, DeleteParentRow(pid)))
    ensures Exec(db, DeleteParentRow(pid)).students == db.students
  {
    RemoveMeaning(db.parents, ParentKey, pid);
  }

  /** After the students of `pid` are deleted, no Student row names `pid`,
      whatever order the ids were read in. */
  lemma FamilyGone(db: Db, pid: ParentId, sids: seq<StudentId>)
    requires Elements(sids) == FamilyIds(db, pid)
    ensures Count(DeleteStudents(db, sids).students, StudentParent, pid) == 0
  {
    var d := DeleteStudents(db, sids);
    forall s | s in d.students
      ensures s.parentId != pid
    {
      assert s in db.students && s.id !in FamilyIds(db, pid);
    }
    CountZero(d.students, StudentParent, pid);
  }

  /** The students' deletes followed by the Parent row's delete remove those
      students with their rows, and the Parent row. */
  lemma StudentsThenParentRemovesOnly(db: Db, pid: ParentId, sids: seq<StudentId>)
    ensures RemovesOnly(db, Exec(DeleteStudents(db, sids), DeleteParentRow(pid)), Elements(sids), {pid})
  {
    var d := DeleteStudents(db, sids);
    ParentRowRemovesOnly(d, pid);
    RemovesOnlyTrans(db, d, Exec(d, DeleteParentRow(pid)), Elements(sids), {}, {}, {pid});
    assert Elements(sids) + {} == Elements(sids);
    assert {} + {pid} == {pid};
  }

  /** Deleting parent `pid`: its students as read up front, every row of those
      students, and the Parent row go, and nothing else. */
  function DeleteParent(db: Db, pid: ParentId): (r: Db)
    ensures RemovesOnly(db, r, FamilyIds(db, pid), {pid})
    ensures pid !in ParentIds(r)
    ensures Count(r.students, StudentParent, pid) == 0
  {
    var sids := StudentsOf(db, pid);
    ParentCascadeSteps(db, pid, sids);
    StudentsThenParentRemovesOnly(db, pid, sids);
    ParentRowGone(DeleteStudents(db, sids), pid);
    FamilyGone(db, pid, StudentsOf(db, pid));
    Run(db, ParentCascade(pid, sids))
  }

  /** The compositional reading of the "Delete Parent" loop: it is the
      "Delete Student" cascade folded over the students read up front,
      followed by the delete of the Parent row. */
  lemma DeleteParentFoldsDeleteStudent(db: Db, pid: ParentId)
    ensures DeleteParent(db, pid) == Exec(DeleteStudents(db, StudentsOf(db, pid)), DeleteParentRow(pid))
  {
    ParentCascadeSteps(db, pid, StudentsOf(db, pid));
  }

  /** No statement of the parent cascade is ever refused by the store's
      foreign keys: when the Parent row goes, none of its students is left. */
  lemma DeleteParentGoesThrough(db: Db, pid: ParentId)
    ensures GoesThrough(db, ParentCascade(pid, StudentsOf(db, pid)))
    ensures RunChecked(db, ParentCascade(pid, StudentsOf(db, pid))) == Executed(DeleteParent(db, pid))
  {
    var sids := StudentsOf(db, pid);
    ParentCascadeSteps(db, pid, sids);
    FamilyGone(db, pid, StudentsOf(db, pid));
    RunCheckedMeaning(db, ParentCascade(pid, sids));
  }

  /** The SELECT that reads the students has no ORDER BY, so the store may
      return the ids in any order, or repeat one. The outcome does not depend
      on it: any list holding exactly the parent's students goes through and
      removes the same rows. */
  lemma DeleteParentAnyOrder(db: Db, pid: ParentId, sids: seq<StudentId>)
    requires Elements(sids) == FamilyIds(db, pid)
    ensures GoesThrough(db, ParentCascade(pid, sids))
    ensures RemovesOnly(db, Run(db, ParentCascade(pid, sids)), FamilyIds(db, pid), {pid})
  {
    ParentCascadeSteps(db, pid, sids);
    StudentsThenParentRemovesOnly(db, pid, sids);
    FamilyGone(db, pid, sids);
  }

  /** A consistent store stays consistent through every statement of the
      parent cascade. */
  lemma DeleteParentKeepsIntegrity(db: Db, pid: ParentId)
    requires Integrity(db)
    ensures IntactThroughout(db, ParentCascade(pid, StudentsOf(db, pid)))
    ensures Integrity(DeleteParent(db, pid))
  {
    DeleteParentGoesThrough(db, pid);
    CheckedRunKeepsIntegrity(db, ParentCascade(pid, StudentsOf(db, pid)));
  }

  /** A parent with no students: only the Parent row goes. */
  lemma DeleteParentChildless(db: Db, pid: ParentId)
    requires forall s :: s in db.students ==> s.parentId != pid
    ensures DeleteParent(db, pid) == db.(parents := Remove(db.parents, ParentKey, pid))
  {
    CountZero(db.students, StudentParent, pid);
    var sids := StudentsOf(db, pid);
    assert |sids| == 0;
    ParentCascadeSteps(db, pid, sids);
  }

  /** Under the primary key, a StudentID names one Student row. */
  lemma SameIdSameStudent(db: Db, s1: Student, s2: Student)
    requires UniqueStudentIds(db)
    requires s1 in db.students && s2 in db.students && s1.id == s2.id
    ensures s1 == s2
  {
    var i :| 0 <= i < |db.students| && db.students[i] == s1;
    var j :| 0 <= j < |db.students| && db.students[j] == s2;
    assert StudentKey(db.students[i]) == StudentKey(db.students[j]);
  }

  /** Ids of the students whose ParentID is not `pid`. */
  ghost function OtherFamiliesIds(db: Db, pid: ParentId): set<StudentId>
  {
    set s | s in db.students && s.parentId != pid :: s.id
  }

  /** With StudentID a primary key, the students of other parents and all
      their rows survive the delete of `pid`, each as often as before. */
  lemma DeleteParentSparesOtherFamilies(db: Db, pid: ParentId)
    requires UniqueStudentIds(db)
    ensures forall s :: s in db.students && s.parentId != pid ==> s in DeleteParent(db, pid).students
    ensures forall a :: a in db.attendance && a.studentId in OtherFamiliesIds(db, pid) ==>
              multiset(DeleteParent(db, pid).attendance)[a] == multiset(db.attendance)[a]
    ensures forall m :: m in db.termMarks && m.studentId in OtherFamiliesIds(db, pid) ==>
              multiset(DeleteParent(db, pid).termMarks)[m] == multiset(db.termMarks)[m]
    ensures forall l :: l in db.emailLogs && l.studentId in OtherFamiliesIds(db, pid) ==>
              multiset(DeleteParent(db, pid).emailLogs)[l] == multiset(db.emailLogs)[l]
  {
    forall t | t in FamilyIds(db, pid) && t in OtherFamiliesIds(db, pid)
      ensures false
    {
      var s1 :| s1 in db.students && s1.parentId == pid && s1.id == t;
      var s2 :| s2 in db.students && s2.parentId != pid && s2.id == t;
      SameIdSameStudent(db, s1, s2);
    }
  }
}
