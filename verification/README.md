# School records: cascading deletes and guarded inserts

A Dafny model of the data-changing core of `school_ui8.py`, a small
school-administration front end over a relational store with six tables:
Class, Parent, Student, Attendance, TermMark and EmailNotificationLog.

The "Delete Records" page does the cascade itself. The schema is not part of
this model. The statement order and the comment "Delete dependent records
first" (line 229) suggest three things about the store, and the model assumes
them:

- foreign keys run from Attendance, TermMark and EmailNotificationLog to
  Student, and from Student to Parent (`Statements.Blocked`);
- StudentID is the primary key of Student (`Schema.UniqueStudentIds`, required
  only by the lemmas that count rows or separate families);
- there is no `ON DELETE CASCADE`, so a Student or Parent row that is still
  referenced cannot be deleted.

- **Delete Student** sends four statements: delete the student's Attendance,
  TermMark and EmailNotificationLog rows, then the Student row.
- **Delete Parent** first reads the ids of the parent's students. For each
  id it sends the same four statements. Then it deletes the Parent row.
- The insert forms (Add Class, Add Parent, Add Student, Add Attendance,
  Add Term Mark) send one INSERT each, and only when the required text fields
  are non-empty.

Files:

- `tables.dfy` (module `Tables`): a table is a `seq` of rows.
  - `DELETE FROM t WHERE key = ?` is `Remove`, a filter.
  - `SELECT col FROM t WHERE key = ?` is `Select`.
  - `RemovedExactly` states "these rows and no others were deleted", with
    multiplicities.
- `schema.dfy` (module `Schema`): the row datatypes and the store `Db`.
  - `Integrity` is referential integrity: every child row names an existing
    Student, and every Student names an existing Parent.
- `statements.dfy` (module `Statements`): the DELETE statements as data.
  - `Run` executes them in order.
  - `RunChecked` executes them on a store that checks its foreign keys and
    stops at the first refusal. That is what the page's `try` block
    observes: the first failing statement raises and the rest are never sent.
- `cascade.dfy` (module `Cascade`): the two cascades, their frame conditions,
  their integrity guarantees, and the fact that the parent loop is the
  student delete folded over the ids read up front.
- `inserts.dfy` (module `Inserts`): the guarded inserts and how they interact
  with integrity and with the deletes.
- `scenarios.dfy` (module `Scenarios`): two small stores worked through by
  hand.

## Model

| member | source | states |
|---|---|---|
| Tables.Remove | school_ui8.py:230-235 | `DELETE … WHERE key = k` leaves no matching row and shrinks the table by exactly the number of matching rows; nothing changes when no row matches |
| Tables.RemoveMeaning | school_ui8.py:230-235 | the rows kept are exactly the rows whose key differs from `k`, each with its original multiplicity |
| Tables.Select | school_ui8.py:258-259 | `SELECT col … WHERE key = k` returns one value per matching row: each value occurs exactly as often as matching rows carry it, so the result has one entry per matching row and nothing else |
| Statements.DeleteOfMissingStudent | school_ui8.py:235 | a Student delete that matches no row is not refused and leaves the store unchanged |
| Statements.DeleteOfMissingParent | school_ui8.py:270 | a Parent delete that matches no row is not refused and leaves the store unchanged |
| Statements.RunCheckedMeaning | school_ui8.py:228-239 | a run on a store that checks foreign keys executes every statement iff none is refused where it is sent; otherwise it stops at the first refused statement: every statement before it went through, and it holds the state those statements produced |
| Statements.BlockedExactlyWhenOrphaning | school_ui8.py:229-235 | on a consistent store, a statement is refused by the foreign keys iff executing it would leave a dangling reference |
| Statements.CheckedRunKeepsIntegrity | school_ui8.py:228-239 | a consistent store stays consistent where a checked run stops, and in every state a run passes through when nothing is refused |
| Statements.RunAppend | school_ui8.py:261-270 | running two statement lists back to back is running their concatenation |
| Statements.GoesThroughAppend | school_ui8.py:261-270 | a concatenation is accepted iff the first part is, and the second part is accepted from where the first left the store |
| Cascade.DeleteStudent | school_ui8.py:229-236 | afterwards no Student, Attendance, TermMark or EmailNotificationLog row of the student remains; every other row, every Parent and every Class row is kept, each as often as before; the row count drops by dependents plus matching Student rows |
| Cascade.DeleteStudentGoesThrough | school_ui8.py:229-235 | with dependents deleted first, none of the four statements is ever refused by the foreign keys, and the checked run ends in the same store |
| Cascade.DeleteStudentKeepsIntegrity | school_ui8.py:229-235 | a consistent store stays consistent before and after each of the four statements |
| Cascade.StudentRowFirstIsRefused | school_ui8.py:229-235 | for an existing student with dependent rows, sending the Student row's delete before the dependents' deletes is refused at once |
| Cascade.DeleteStudentWithoutDependents | school_ui8.py:230-235 | a student with no dependents loses only its Student row, which is one row under the primary key |
| Cascade.DeleteStudentRowsRemoved | school_ui8.py:230-235 | with StudentID a primary key, deleting an existing student with N + M + K dependent rows removes N + M + K + 1 rows |
| Cascade.StudentsOf | school_ui8.py:258-259 | the ids read up front are exactly the ids of the parent's students, one per Student row |
| Cascade.DeleteStudents | school_ui8.py:261-267 | deleting students one after another removes exactly those students and all their rows, and keeps every Parent row |
| Cascade.StudentCascadesAreDeletes | school_ui8.py:261-267 | the loop's statements, run in order, are never refused and end in the store that deleting the students one by one gives |
| Cascade.ParentCascadeSteps | school_ui8.py:261-270 | the parent cascade ends in the store the students' deletes leave, less the Parent row; it is refused only if the Parent row's delete is |
| Cascade.DeleteParent | school_ui8.py:257-271 | afterwards none of the students read up front, none of their rows, and no Parent row with the id remain, and no Student names the parent; everything else is kept |
| Cascade.DeleteParentFoldsDeleteStudent | school_ui8.py:261-270 | deleting a parent is the student delete folded over the ids read up front, followed by the Parent row's delete |
| Cascade.DeleteParentGoesThrough | school_ui8.py:258-270 | no statement of the parent cascade is refused by the foreign keys, and the checked run ends in the same store |
| Cascade.DeleteParentAnyOrder | school_ui8.py:258-270 | the SELECT has no ORDER BY, but any list holding exactly the parent's students, in any order or with repeats, goes through and removes the same rows |
| Cascade.DeleteParentKeepsIntegrity | school_ui8.py:258-270 | a consistent store stays consistent before and after every statement of the parent cascade |
| Cascade.DeleteParentChildless | school_ui8.py:258-270 | a parent with no students loses only its Parent row |
| Cascade.DeleteParentSparesOtherFamilies | school_ui8.py:258-270 | with StudentID a primary key, students of other parents survive, and all their Attendance, TermMark and EmailNotificationLog rows survive with their multiplicities |
| Inserts.AddClass | school_ui8.py:40-56 | an empty Class ID or Section reports missing fields; a Class ID that does not convert reports a conversion error; both leave the store unchanged; otherwise exactly one Class row is appended and nothing else changes |
| Inserts.AddParent | school_ui8.py:71-80 | if any of the four fields is empty the store is unchanged; otherwise exactly that Parent row is appended and nothing else changes |
| Inserts.AddStudent | school_ui8.py:91-100 | if the id, name, Class ID or Parent ID is empty the store is unchanged; otherwise exactly that Student row is appended and nothing else changes |
| Inserts.AddAttendance | school_ui8.py:111-120 | if the record id or Student ID is empty the store is unchanged; otherwise exactly that Attendance row is appended and nothing else changes |
| Inserts.AddTermMark | school_ui8.py:131-140 | if the mark id, Student ID, Subject ID or term is empty the store is unchanged; otherwise exactly that TermMark row is appended and nothing else changes |
| Inserts.AddParentKeepsIntegrity | school_ui8.py:71-80 | adding a Parent keeps a consistent store consistent |
| Inserts.AddStudentIntegrity | school_ui8.py:91-100 | after an accepted Student insert, the store is consistent iff the named Parent exists |
| Inserts.AddAttendanceIntegrity | school_ui8.py:111-120 | after an accepted Attendance insert, the store is consistent iff the named Student exists |
| Inserts.AddTermMarkIntegrity | school_ui8.py:131-140 | after an accepted TermMark insert, the store is consistent iff the named Student exists |
| Inserts.AddThenDeleteStudent | school_ui8.py:91-100 | adding a new student to a consistent store and then deleting it restores the store exactly |
| Inserts.AddThenDeleteParent | school_ui8.py:71-80 | adding a new parent to a consistent store and then deleting it restores the store exactly |
| Scenarios.DeleteStudentScenario | school_ui8.py:230-235 | a student with 3 Attendance rows, 2 TermMark rows and no log rows loses 6 rows in all; Class and Parent rows stay |
| Scenarios.DeleteParentScenario | school_ui8.py:258-270 | a parent with two students, one of which has one Attendance row, loses 4 rows, and the other family is untouched |

## Left out

- Streamlit widgets, navigation, success and error messages: user interface.
  The inserts report only which outcome occurred (`Feedback`), not the text
  shown.
- The pyodbc connection, cursor and `commit` (lines 10-16, 236, 271): the
  store is an immutable value, and each operation is a function on it.
- Atomicity and rollback. The `except` branches (lines 238-239, 273-274)
  report the error and do not roll back. The statements already executed stay
  pending on the shared connection. So the model does not claim
  all-or-nothing behaviour. `RunChecked` gives the state in which the run
  stops. A rollback of a failed cascade would be the natural design, but it is
  not in the code, and the model follows the code.
- Store-enforced constraints on insert: duplicate keys and foreign-key
  validity, including the `IntegrityError` branch at lines 53-54.
  - Inserts append unconditionally once the guard passes.
  - The `AddStudentIntegrity`, `AddAttendanceIntegrity` and
    `AddTermMarkIntegrity` lemmas say when such an insert would break
    integrity.
- Inserts.AddClass: the conversion of the Class ID text to an integer (line
  46, error at lines 55-56) is the `parse` parameter, because Python's `int()`
  rules belong to the library. The generic `except Exception` branch (lines
  57-58) is not modelled.
- Widget bounds: grade 1-13 (line 37) and mark 0-100 (line 129). Grade and
  mark are unconstrained `int`s.
- The Student-to-Class reference is not part of `Integrity`. The Student form
  passes the Class ID as unconverted text (line 97), and no delete touches
  Class rows.
- The selection lists of the delete page (lines 219-225, 247-253): the ids
  come from rows in the store. The delete functions are total and need no
  "id exists" precondition. Where existence matters (the row counts), it is
  stated as a requirement.
- Report fetch and email dispatch (lines 153-207): pandas, Excel files, SMTP
  and the file system. In the code the temporary file is removed only on the
  success path (line 198). An error during sending leaves it behind, although
  cleanup on both paths would be expected.
- The summary views (lines 144-151): read-only views whose definitions are
  not part of this model.
- Tables.Remove, Tables.Select, Schema.Integrity: keys are compared by exact
  string equality. The store is SQL Server (line 11), whose `=` on character
  columns follows the column's collation: it ignores trailing blanks and,
  under a case-insensitive collation, case. Under such a comparison
  `WHERE StudentID = 'S1'` also matches 's1' and 'S1 '. The model does not
  model collation, so on ids that differ only in case or trailing blanks it
  keeps rows the store would delete, and its integrity is stricter than the
  store's.
- Statements.RunChecked: the `except` branches (lines 238-239, 273-274)
  catch any failure. The model's refusals are only the assumed foreign-key
  refusals. Lost connections, timeouts, permission errors and other
  constraint violations are not modelled.
- Cascade.DeleteParent: its contract states which rows go and which stay, but
  gives no general row count for a parent with several students (one that
  sums each student's dependents). The count is shown for the worked
  scenario only.
