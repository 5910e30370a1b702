/** The DELETE statements the "Delete Records" page sends to the store, their
    effect on a `Db`, and the foreign-key check the store is assumed to make,
    which refuses a statement that would leave a row pointing at a deleted
    Student or Parent. */
module Statements {
  import opened Tables
  import opened Schema

  datatype Stmt =
    | DeleteAttendanceOf(sid: StudentId)   // DELETE FROM Attendance WHERE StudentID = ?
    | DeleteTermMarksOf(sid: StudentId)    // DELETE FROM TermMark WHERE StudentID = ?
    | DeleteEmailLogsOf(sid: StudentId)    // DELETE FROM EmailNotificationLog WHERE StudentID = ?
    | DeleteStudentRow(sid: StudentId)     // DELETE FROM Student WHERE StudentID = ?
    | DeleteParentRow(pid: ParentId)       // DELETE FROM Parent WHERE ParentID = ?

  /** The effect of one statement: a filter over the one table it names. */
  function Exec(db: Db, s: Stmt): Db
  {
    match s
    case DeleteAttendanceOf(sid) => db.(attendance := Remove(db.attendance, AttendanceStudent, sid))
    case DeleteTermMarksOf(sid) => db.(termMarks := Remove(db.termMarks, TermMarkStudent, sid))
    case DeleteEmailLogsOf(sid) => db.(emailLogs := Remove(db.emailLogs, EmailLogStudent, sid))
    case DeleteStudentRow(sid) => db.(students := Remove(db.students, StudentKey, sid))
    case DeleteParentRow(pid) => db.(parents := Remove(db.parents, ParentKey, pid))
  }

  /** Whether the store's foreign keys refuse `s`: a delete that would remove
      a Student row that an Attendance, TermMark or EmailNotificationLog row
      still names, or a Parent row that a Student still names. A delete that
      matches no row removes nothing and so is never refused; nothing
      references the three child tables, so deleting from them is never
      refused either. */
  predicate Blocked(db: Db, s: Stmt)
  {
    match s
    case DeleteStudentRow(sid) =>
      Count(db.students, StudentKey, sid) > 0 && Dependents(db, sid) > 0
    case DeleteParentRow(pid) =>
      Count(db.parents, ParentKey, pid) > 0 && Count(db.students, StudentParent, pid) > 0
    case _ => false
  }

  /** A Student delete that matches no row is not refused and changes nothing. */
  lemma DeleteOfMissingStudent(db: Db, sid: StudentId)
    requires sid !in StudentIds(db)
    ensures !Blocked(db, DeleteStudentRow(sid)) && Exec(db, DeleteStudentRow(sid)) == db
  {
    CountZero(db.students, StudentKey, sid);
  }

  /** A Parent delete that matches no row is not refused and changes nothing. */
  lemma DeleteOfMissingParent(db: Db, pid: ParentId)
    requires pid !in ParentIds(db)
    ensures !Blocked(db, DeleteParentRow(pid)) && Exec(db, DeleteParentRow(pid)) == db
  {
    CountZero(db.parents, ParentKey, pid);
  }

  /** The statements executed one after another, with no checks. */
  function Run(db: Db, stmts: seq<Stmt>): Db
    decreases |stmts|
  {
    if |stmts| == 0 then db else Run(Exec(db, stmts[0]), stmts[1..])
  }

  /** The states a run passes through: the starting state, then the state
      after each statement. */
  function States(db: Db, stmts: seq<Stmt>): (t: seq<Db>)
    ensures |t| == |stmts| + 1
    ensures t[0] == db && t[|stmts|] == Run(db, stmts)
    decreases |stmts|
  {
    if |stmts| == 0 then [db] else [db] + States(Exec(db, stmts[0]), stmts[1..])
  }

  /** Every statement of the run passes the store's foreign-key check at the
      point where it is executed. */
  predicate GoesThrough(db: Db, stmts: seq<Stmt>)
    decreases |stmts|
  {
    |stmts| == 0 || (!Blocked(db, stmts[0]) && GoesThrough(Exec(db, stmts[0]), stmts[1..]))
  }

  /** How far a run got: all statements executed, or refused at statement
      `at` with the state the statements before it left behind. */
  datatype Progress = Executed(db: Db) | Refused(at: nat, db: Db)
  {
    /** The same outcome, for a run preceded by `n` statements that went through. */
    function After(n: nat): Progress
    {
      match this
      case Executed(r) => Executed(r)
      case Refused(i, r) => Refused(i + n, r)
    }
  }

  /** The statements executed one after another by a store that checks its
      foreign keys on every statement and stops at the first refusal. */
  function RunChecked(db: Db, stmts: seq<Stmt>): Progress
    decreases |stmts|
  {
    if |stmts| == 0 then Executed(db)
    else if Blocked(db, stmts[0]) then Refused(0, db)
    else RunChecked(Exec(db, stmts[0]), stmts[1..]).After(1)
  }

  /** What a checked run means: it executes everything exactly when every
      statement goes through, and otherwise stops at the first statement the
      store's foreign keys refuse: every statement before it went through, and
      it holds the state those statements left. */
  lemma {:induction false} RunCheckedMeaning(db: Db, stmts: seq<Stmt>)
    ensures RunChecked(db, stmts).Executed? <==> GoesThrough(db, stmts)
    ensures RunChecked(db, stmts).Executed? ==> RunChecked(db, stmts).db == Run(db, stmts)
    ensures RunChecked(db, stmts).Refused? ==>
              && RunChecked(db, stmts).at < |stmts|
              && GoesThrough(db, stmts[..RunChecked(db, stmts).at])
              && RunChecked(db, stmts).db == States(db, stmts)[RunChecked(db, stmts).at]
              && Blocked(RunChecked(db, stmts).db, stmts[RunChecked(db, stmts).at])
    decreases |stmts|
  {
    RunCheckedRefusal(db, stmts);
    if |stmts| > 0 && !Blocked(db, stmts[0]) {
      RunCheckedMeaning(Exec(db, stmts[0]), stmts[1..]);
    }
  }

  /** Where a checked run stops: at a refused statement that every earlier
      statement led up to without refusal. */
  lemma {:induction false} RunCheckedRefusal(db: Db, stmts: seq<Stmt>)
    ensures RunChecked(db, stmts).Refused? ==>
              && RunChecked(db, stmts).at < |stmts|
              && GoesThrough(db, stmts[..RunChecked(db, stmts).at])
              && RunChecked(db, stmts).db == States(db, stmts)[RunChecked(db, stmts).at]
              && Blocked(RunChecked(db, stmts).db, stmts[RunChecked(db, stmts).at])
    decreases |stmts|
  {
    if |stmts| > 0 && !Blocked(db, stmts[0]) {
      var tail := RunChecked(Exec(db, stmts[0]), stmts[1..]);
      RunCheckedRefusal(Exec(db, stmts[0]), stmts[1..]);
      if tail.Refused? {
        GoesThroughCons(db, stmts[0], stmts[1..][..tail.at]);
        assert stmts[..tail.at + 1] == [stmts[0]] + stmts[1..][..tail.at];
      }
    } else if |stmts| > 0 {
      assert stmts[..0] == [];
    }
  }

  lemma TailOfAppend(a: seq<Stmt>, b: seq<Stmt>)
    requires |a| > 0
    ensures (a + b)[0] == a[0] && (a + b)[1..] == a[1..] + b
  {
  }

  lemma RunCons(db: Db, s: Stmt, rest: seq<Stmt>)
    ensures Run(db, [s] + rest) == Run(Exec(db, s), rest)
  {
    assert ([s] + rest)[1..] == rest;
  }

  lemma GoesThroughCons(db: Db, s: Stmt, rest: seq<Stmt>)
    ensures GoesThrough(db, [s] + rest) <==> !Blocked(db, s) && GoesThrough(Exec(db, s), rest)
  {
    assert ([s] + rest)[1..] == rest;
  }

  /** Running `a ++ b` is running `a`, then `b`. */
  lemma {:induction false} RunAppend(db: Db, a: seq<Stmt>, b: seq<Stmt>)
    ensures Run(db, a + b) == Run(Run(db, a), b)
    decreases |a|
  {
    if |a| > 0 {
      TailOfAppend(a, b);
      RunAppend(Exec(db, a[0]), a[1..], b);
    } else {
      assert a + b == b;
    }
  }

  /** `a ++ b` goes through exactly when `a` does and `b` then does from
      where `a` left the store. */
  lemma {:induction false} GoesThroughAppend(db: Db, a: seq<Stmt>, b: seq<Stmt>)
    ensures GoesThrough(db, a + b) <==> GoesThrough(db, a) && GoesThrough(Run(db, a), b)
    decreases |a|
  {
    if |a| > 0 {
      TailOfAppend(a, b);
      GoesThroughAppend(Exec(db, a[0]), a[1..], b);
    } else {
      assert a + b == b;
    }
  }

  /** The store's check is exactly the integrity condition: on a consistent
      store it refuses a statement if and only if executing it would leave a
      dangling reference. */
  lemma BlockedExactlyWhenOrphaning(db: Db, s: Stmt)
    requires Integrity(db)
    ensures Blocked(db, s) <==> !Integrity(Exec(db, s))
  {
    match s {
      case DeleteAttendanceOf(sid) => ChildRowsKeepIntegrity(db, s);
      case DeleteTermMarksOf(sid) => ChildRowsKeepIntegrity(db, s);
      case DeleteEmailLogsOf(sid) => ChildRowsKeepIntegrity(db, s);
      case DeleteStudentRow(sid) => StudentRowRefusedExactly(db, sid);
      case DeleteParentRow(pid) => ParentRowRefusedExactly(db, pid);
    }
  }

  /** Deleting child rows never breaks integrity: nothing references them. */
  lemma ChildRowsKeepIntegrity(db: Db, s: Stmt)
    requires Integrity(db)
    requires s.DeleteAttendanceOf? || s.DeleteTermMarksOf? || s.DeleteEmailLogsOf?
    ensures Integrity(Exec(db, s))
  {
    match s {
      case DeleteAttendanceOf(sid) => RemoveKeeps(db.attendance, AttendanceStudent, sid);
      case DeleteTermMarksOf(sid) => RemoveKeeps(db.termMarks, TermMarkStudent, sid);
      case DeleteEmailLogsOf(sid) => RemoveKeeps(db.emailLogs, EmailLogStudent, sid);
    }
  }

  lemma StudentRowRefusedExactly(db: Db, sid: StudentId)
    requires Integrity(db)
    ensures Blocked(db, DeleteStudentRow(sid)) <==> !Integrity(Exec(db, DeleteStudentRow(sid)))
  {
    if Dependents(db, sid) == 0 {
      StudentRowKeepsIntegrity(db, sid);
    } else if Count(db.students, StudentKey, sid) > 0 {
      StudentRowLeavesOrphans(db, sid);
    } else {
      assert Exec(db, DeleteStudentRow(sid)) == db;
    }
  }

  lemma ParentRowRefusedExactly(db: Db, pid: ParentId)
    requires Integrity(db)
    ensures Blocked(db, DeleteParentRow(pid)) <==> !Integrity(Exec(db, DeleteParentRow(pid)))
  {
    if Count(db.students, StudentParent, pid) == 0 {
      ParentRowKeepsIntegrity(db, pid);
    } else if Count(db.parents, ParentKey, pid) > 0 {
      ParentRowLeavesOrphans(db, pid);
    } else {
      assert Exec(db, DeleteParentRow(pid)) == db;
    }
  }

  lemma StudentRowLeavesOrphans(db: Db, sid: StudentId)
    requires Dependents(db, sid) > 0
    ensures !Integrity(Exec(db, DeleteStudentRow(sid)))
  {
    var r := Exec(db, DeleteStudentRow(sid));
    RemoveKeeps(db.students, StudentKey, sid);
    CountZero(db.attendance, AttendanceStudent, sid);
    CountZero(db.termMarks, TermMarkStudent, sid);
    CountZero(db.emailLogs, EmailLogStudent, sid);
    assert sid !in StudentIds(r);
    if Count(db.attendance, AttendanceStudent, sid) > 0 {
      var a :| a in db.attendance && a.studentId == sid;
      assert a in r.attendance;
    } else if Count(db.termMarks, TermMarkStudent, sid) > 0 {
      var m :| m in db.termMarks && m.studentId == sid;
      assert m in r.termMarks;
    } else {
      var l :| l in db.emailLogs && l.studentId == sid;
      assert l in r.emailLogs;
    }
  }

  /** The Student row's delete keeps every other student id and adds no row. */
  lemma StudentRowRemoval(db: Db, sid: StudentId)
    ensures forall t :: t in StudentIds(db) && t != sid ==> t in StudentIds(Exec(db, DeleteStudentRow(sid)))
    ensures forall st :: st in Exec(db, DeleteStudentRow(sid)).students ==> st in db.students
  {
    var r := Exec(db, DeleteStudentRow(sid));
    RemoveKeeps(db.students, StudentKey, sid);
    forall t | t in StudentIds(db) && t != sid
      ensures t in StudentIds(r)
    {
      var st :| st in db.students && st.id == t;
      assert st in r.students;
    }
  }

  lemma StudentRowKeepsIntegrity(db: Db, sid: StudentId)
    requires Integrity(db)
    requires Dependents(db, sid) == 0
    ensures Integrity(Exec(db, DeleteStudentRow(sid)))
  {
    var r := Exec(db, DeleteStudentRow(sid));
    StudentRowRemoval(db, sid);
    assert forall a :: a in r.attendance ==> a.studentId in StudentIds(r) by {
      CountZero(db.attendance, AttendanceStudent, sid);
    }
    assert forall m :: m in r.termMarks ==> m.studentId in StudentIds(r) by {
      CountZero(db.termMarks, TermMarkStudent, sid);
    }
    assert forall l :: l in r.emailLogs ==> l.studentId in StudentIds(r) by {
      CountZero(db.emailLogs, EmailLogStudent, sid);
    }
  }

  lemma ParentRowLeavesOrphans(db: Db, pid: ParentId)
    requires Count(db.students, StudentParent, pid) > 0
    ensures !Integrity(Exec(db, DeleteParentRow(pid)))
  {
    var r := Exec(db, DeleteParentRow(pid));
    RemoveKeeps(db.parents, ParentKey, pid);
    CountZero(db.students, StudentParent, pid);
    var st :| st in db.students && st.parentId == pid;
    assert st in r.students;
    assert pid !in ParentIds(r);
  }

  /** The Parent row's delete keeps every other parent id. */
  lemma ParentRowRemoval(db: Db, pid: ParentId)
    ensures forall q :: q in ParentIds(db) && q != pid ==> q in ParentIds(Exec(db, DeleteParentRow(pid)))
  {
    var r := Exec(db, DeleteParentRow(pid));
    RemoveKeeps(db.parents, ParentKey, pid);
    forall q | q in ParentIds(db) && q != pid
      ensures q in ParentIds(r)
    {
      var p :| p in db.parents && p.id == q;
      assert p in r.parents;
    }
  }

  lemma ParentRowKeepsIntegrity(db: Db, pid: ParentId)
    requires Integrity(db)
    requires Count(db.students, StudentParent, pid) == 0
    ensures Integrity(Exec(db, DeleteParentRow(pid)))
  {
    var r := Exec(db, DeleteParentRow(pid));
    ParentRowRemoval(db, pid);
    assert forall st :: st in r.students ==> st.parentId in ParentIds(r) by {
      CountZero(db.students, StudentParent, pid);
    }
  }

  /** Integrity holds before the run and after each of its statements. */
  predicate IntactThroughout(db: Db, stmts: seq<Stmt>)
    decreases |stmts|
  {
    Integrity(db) && (|stmts| == 0 || IntactThroughout(Exec(db, stmts[0]), stmts[1..]))
  }

  /** A store that checks its foreign keys never loses integrity: not where
      a run is refused, and not in any state a run that goes through passes. */
  lemma {:induction false} CheckedRunKeepsIntegrity(db: Db, stmts: seq<Stmt>)
    requires Integrity(db)
    ensures Integrity(RunChecked(db, stmts).db)
    ensures GoesThrough(db, stmts) ==> IntactThroughout(db, stmts)
    decreases |stmts|
  {
    if |stmts| > 0 && !Blocked(db, stmts[0]) {
      BlockedExactlyWhenOrphaning(db, stmts[0]);
      CheckedRunKeepsIntegrity(Exec(db, stmts[0]), stmts[1..]);
    }
  }
}
