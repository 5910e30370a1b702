/** The insert forms: each button checks that the operator filled in the
    required text fields and, if so, sends one INSERT. Dates, times, the
    gender and status choices and the numeric inputs come from widgets that
    always hold a value, so only the text fields are checked. */
module Inserts {
  import opened Tables
  import opened Schema
  import opened Cascade

  datatype Option<T> = None | Some(value: T)

  /** What the page reports after the button is pressed: the row was added,
      a required field was left empty, or the Class ID is not an integer. */
  datatype Feedback = Added | MissingFields | NotAnInteger

  datatype Outcome = Outcome(db: Db, feedback: Feedback)

  /** The Add Class form: the Class ID arrives as text and is converted
      before the INSERT. */
  datatype ClassForm = ClassForm(classId: string, grade: int, section: string)

  /** `after` is `before` with `x` appended at the end. */
  predicate Appended<T(==)>(before: seq<T>, after: seq<T>, x: T)
  {
    |after| == |before| + 1 && after[..|before|] == before && after[|before|] == x
  }

  /** Add Class. `parse` is the text-to-integer conversion the page applies
      to the Class ID; it yields `None` where the conversion raises. */
  function AddClass(db: Db, form: ClassForm, parse: string -> Option<int>): (r: Outcome)
    ensures r.feedback == MissingFields <==> form.classId == "" || form.section == ""
    ensures r.feedback == NotAnInteger <==>
              form.classId != "" && form.section != "" && parse(form.classId).None?
    ensures r.feedback != Added ==> r.db == db
    ensures r.feedback == Added ==>
              && Appended(db.classes, r.db.classes, Class(parse(form.classId).value, form.grade, form.section))
              && r.db == db.(classes := r.db.classes)
    ensures TotalRows(r.db) == TotalRows(db) + (if r.feedback == Added then 1 else 0)
  {
    if form.classId == "" || form.section == "" then Outcome(db, MissingFields)
    else match parse(form.classId)
      case None => Outcome(db, NotAnInteger)
      case Some(id) => Outcome(db.(classes := db.classes + [Class(id, form.grade, form.section)]), Added)
  }

  /** Add Parent: all four text fields are required. */
  function AddParent(db: Db, p: Parent): (r: Outcome)
    ensures r.feedback == Added <==> p.id != "" && p.name != "" && p.email != "" && p.phone != ""
    ensures r.feedback != Added ==> r.feedback == MissingFields && r.db == db
    ensures r.feedback == Added ==> Appended(db.parents, r.db.parents, p) && r.db == db.(parents := r.db.parents)
    ensures TotalRows(r.db) == TotalRows(db) + (if r.feedback == Added then 1 else 0)
  {
    if p.id == "" || p.name == "" || p.email == "" || p.phone == "" then Outcome(db, MissingFields)
    else Outcome(db.(parents := db.parents + [p]), Added)
  }

  /** Add Student: the id, the name, the Class ID and the Parent ID are
      required; the date of birth and gender come from widgets. */
  function AddStudent(db: Db, s: Student): (r: Outcome)
    ensures r.feedback == Added <==> s.id != "" && s.name != "" && s.classId != "" && s.parentId != ""
    ensures r.feedback != Added ==> r.feedback == MissingFields && r.db == db
    ensures r.feedback == Added ==> Appended(db.students, r.db.students, s) && r.db == db.(students := r.db.students)
    ensures TotalRows(r.db) == TotalRows(db) + (if r.feedback == Added then 1 else 0)
  {
    if s.id == "" || s.name == "" || s.classId == "" || s.parentId == "" then Outcome(db, MissingFields)
    else Outcome(db.(students := db.students + [s]), Added)
  }

  /** Add Attendance: only the record id and the Student ID are required. */
  function AddAttendance(db: Db, a: Attendance): (r: Outcome)
    ensures r.feedback == Added <==> a.id != "" && a.studentId != ""
    ensures r.feedback != Added ==> r.feedback == MissingFields && r.db == db
    ensures r.feedback == Added ==> Appended(db.attendance, r.db.attendance, a) && r.db == db.(attendance := r.db.attendance)
    ensures TotalRows(r.db) == TotalRows(db) + (if r.feedback == Added then 1 else 0)
  {
    if a.id == "" || a.studentId == "" then Outcome(db, MissingFields)
    else Outcome(db.(attendance := db.attendance + [a]), Added)
  }

  /** Add Term Mark: the mark id, Student ID, Subject ID and term are
      required; the mark comes from a numeric widget. */
  function AddTermMark(db: Db, m: TermMark): (r: Outcome)
    ensures r.feedback == Added <==> m.id != "" && m.studentId != "" && m.subjectId != "" && m.term != ""
    ensures r.feedback != Added ==> r.feedback == MissingFields && r.db == db
    ensures r.feedback == Added ==> Appended(db.termMarks, r.db.termMarks, m) && r.db == db.(termMarks := r.db.termMarks)
    ensures TotalRows(r.db) == TotalRows(db) + (if r.feedback == Added then 1 else 0)
  {
    if m.id == "" || m.studentId == "" || m.subjectId == "" || m.term == "" then Outcome(db, MissingFields)
    else Outcome(db.(termMarks := db.termMarks + [m]), Added)
  }

  // ---------------------------------------------------------------------------
  // Inserts and referential integrity

  /** Nothing references a Class row in this model, and nothing is required
      of a new Parent row, so these two inserts keep a consistent store
      consistent. */
  lemma AddClassKeepsIntegrity(db: Db, form: ClassForm, parse: string -> Option<int>)
    requires Integrity(db)
    ensures Integrity(AddClass(db, form, parse).db)
  {
  }

  lemma AddParentKeepsIntegrity(db: Db, p: Parent)
    requires Integrity(db)
    ensures Integrity(AddParent(db, p).db)
  {
    var r := AddParent(db, p).db;
    assert ParentIds(db) <= ParentIds(r) by {
      forall q | q in ParentIds(db) ensures q in ParentIds(r) {
        var x :| x in db.parents && x.id == q;
        assert x in r.parents;
      }
    }
  }

  /** An added Student keeps the store consistent exactly when its Parent
      exists. */
  lemma AddStudentIntegrity(db: Db, s: Student)
    requires Integrity(db)
    ensures Integrity(AddStudent(db, s).db) <==> AddStudent(db, s).feedback != Added || s.parentId in ParentIds(db)
  {
    var r := AddStudent(db, s);
    if r.feedback == Added {
      assert s in r.db.students;
      assert StudentIds(db) <= StudentIds(r.db) by {
        forall t | t in StudentIds(db) ensures t in StudentIds(r.db) {
          var x :| x in db.students && x.id == t;
          assert x in r.db.students;
        }
      }
    }
  }

  /** An added Attendance row keeps the store consistent exactly when its
      Student exists. */
  lemma AddAttendanceIntegrity(db: Db, a: Attendance)
    requires Integrity(db)
    ensures Integrity(AddAttendance(db, a).db) <==> AddAttendance(db, a).feedback != Added || a.studentId in StudentIds(db)
  {
    var r := AddAttendance(db, a);
    if r.feedback == Added {
      assert a in r.db.attendance;
    }
  }

  /** An added TermMark row keeps the store consistent exactly when its
      Student exists. */
  lemma AddTermMarkIntegrity(db: Db, m: TermMark)
    requires Integrity(db)
    ensures Integrity(AddTermMark(db, m).db) <==> AddTermMark(db, m).feedback != Added || m.studentId in StudentIds(db)
  {
    var r := AddTermMark(db, m);
    if r.feedback == Added {
      assert m in r.db.termMarks;
    }
  }

  // ---------------------------------------------------------------------------
  // Inserts undone by the cascading deletes

  /** In a consistent store a student id no Student row carries has no
      dependent rows. */
  lemma AbsentStudentHasNoDependents(db: Db, sid: StudentId)
    requires Integrity(db)
    requires sid !in StudentIds(db)
    ensures Dependents(db, sid) == 0
  {
    CountZero(db.attendance, AttendanceStudent, sid);
    CountZero(db.termMarks, TermMarkStudent, sid);
    CountZero(db.emailLogs, EmailLogStudent, sid);
  }

  /** Adding a new student to a consistent store and then deleting it gives
      back the store as it was. */
  lemma AddThenDeleteStudent(db: Db, s: Student)
    requires Integrity(db)
    requires s.id !in StudentIds(db)
    requires AddStudent(db, s).feedback == Added
    ensures DeleteStudent(AddStudent(db, s).db, s.id) == db
  {
    var d := AddStudent(db, s).db;
    assert d.students == db.students + [s];
    AbsentStudentHasNoDependents(db, s.id);
    assert Dependents(d, s.id) == 0;
    DeleteStudentWithoutDependents(d, s.id);
    CountZero(db.students, StudentKey, s.id);
    RemoveAppend(db.students, [s], StudentKey, s.id);
    assert Remove([s], StudentKey, s.id) == [];
  }

  /** Adding a new parent to a consistent store and then deleting it gives
      back the store as it was: a new parent has no students. */
  lemma AddThenDeleteParent(db: Db, p: Parent)
    requires Integrity(db)
    requires p.id !in ParentIds(db)
    requires AddParent(db, p).feedback == Added
    ensures DeleteParent(AddParent(db, p).db, p.id) == db
  {
    var d := AddParent(db, p).db;
    assert d.parents == db.parents + [p];
    assert forall x :: x in d.students ==> x.parentId != p.id;
    DeleteParentChildless(d, p.id);
    CountZero(db.parents, ParentKey, p.id);
    RemoveAppend(db.parents, [p], ParentKey, p.id);
    assert Remove([p], ParentKey, p.id) == [];
  }
}
