/** Two small stores worked through by hand: the row counts the cascades
    remove from them. */
module Scenarios {
  import opened Tables
  import opened Schema
  import opened Statements
  import opened Cascade

  const Day := Date(2024, 3, 1)
  const Nine := TimeOfDay(9, 0, 0)

  /** Student S1 with three Attendance rows and two TermMark rows. */
  function StudentStore(): Db
  {
    Db([Class(1, 5, "A")],
       [Parent("P1", "Parent One", "p1@school.test", "555")],
       [Student("S1", "Student One", Day, Female, "1", "P1")],
       [Attendance("A1", "S1", Day, Nine, Present),
        Attendance("A2", "S1", Day, Nine, Absent),
        Attendance("A3", "S1", Day, Nine, Present)],
       [TermMark("M1", "S1", "MATH", "Term 1", 80),
        TermMark("M2", "S1", "ENG", "Term 1", 75)],
       [])
  }

  /** Deleting S1 removes its five dependent rows and the Student row. */
  lemma DeleteStudentScenario()
    ensures TotalRows(StudentStore()) - TotalRows(DeleteStudent(StudentStore(), "S1")) == 6
    ensures DeleteStudent(StudentStore(), "S1").classes == StudentStore().classes
    ensures DeleteStudent(StudentStore(), "S1").parents == StudentStore().parents
  {
    var db := StudentStore();
    assert KeysUnique(db.students, StudentKey);
    assert Dependents(db, "S1") == 5;
    DeleteStudentRowsRemoved(db, "S1");
  }

  /** Parent P1 owns S1, which has one Attendance row, and S2, which has
      none; parent P2 owns S3, which has one TermMark row. */
  function ParentStore(): Db
  {
    Db([],
       [Parent("P1", "Parent One", "p1@school.test", "555"),
        Parent("P2", "Parent Two", "p2@school.test", "556")],
       [Student("S1", "Student One", Day, Female, "1", "P1"),
        Student("S2", "Student Two", Day, Male, "1", "P1"),
        Student("S3", "Student Three", Day, Other, "1", "P2")],
       [Attendance("A1", "S1", Day, Nine, Present)],
       [TermMark("M1", "S3", "MATH", "Term 1", 90)],
       [])
  }

  const AfterS1 := Db([],
    [Parent("P1", "Parent One", "p1@school.test", "555"),
     Parent("P2", "Parent Two", "p2@school.test", "556")],
    [Student("S2", "Student Two", Day, Male, "1", "P1"),
     Student("S3", "Student Three", Day, Other, "1", "P2")],
    [],
    [TermMark("M1", "S3", "MATH", "Term 1", 90)],
    [])

  const AfterS2 := AfterS1.(students := [Student("S3", "Student Three", Day, Other, "1", "P2")])

  const AfterP1 := AfterS2.(parents := [Parent("P2", "Parent Two", "p2@school.test", "556")])

  lemma FirstStudentStep()
    ensures DeleteStudent(ParentStore(), "S1") == AfterS1
  {
    StudentCascadeTables(ParentStore(), "S1");
  }

  lemma SecondStudentStep()
    ensures DeleteStudent(AfterS1, "S2") == AfterS2
  {
    StudentCascadeTables(AfterS1, "S2");
  }

  lemma ParentStep()
    ensures Exec(AfterS2, DeleteParentRow("P1")) == AfterP1
  {
  }

  lemma ReadFamily()
    ensures StudentsOf(ParentStore(), "P1") == ["S1", "S2"]
  {
    var st := ParentStore().students;
    assert st[1..][1..][1..] == [];
    assert st[1..][1..] == [st[2]];
  }

  lemma BothStudents()
    ensures DeleteStudents(ParentStore(), ["S1", "S2"]) == AfterS2
  {
    assert ["S1", "S2"][1..] == ["S2"];
    assert ["S2"][1..] == [];
    FirstStudentStep();
    SecondStudentStep();
  }

  /** Deleting P1 removes Attendance(S1), S1, S2 and P1: four rows. The
      other family is left as it was. */
  lemma DeleteParentScenario()
    ensures DeleteParent(ParentStore(), "P1") == AfterP1
    ensures TotalRows(ParentStore()) - TotalRows(DeleteParent(ParentStore(), "P1")) == 4
  {
    DeleteParentFoldsDeleteStudent(ParentStore(), "P1");
    ReadFamily();
    BothStudents();
    ParentStep();
  }
}
