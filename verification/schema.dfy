/** The school records store: six tables and the foreign keys between them.
    Class rows are referenced by Student rows; Parent rows own Student rows;
    Attendance, TermMark and EmailNotificationLog rows belong to a Student. */
module Schema {
  import opened Tables

  type ClassId = int
  type ParentId = string
  type StudentId = string

  datatype Date = Date(year: int, month: int, day: int)
  datatype TimeOfDay = TimeOfDay(hour: int, minute: int, second: int)
  datatype Gender = Male | Female | Other
  datatype Status = Present | Absent

  datatype Class = Class(id: ClassId, grade: int, section: string)

  datatype Parent = Parent(id: ParentId, name: string, email: string, phone: string)

  /** `classId` is kept as the text the operator typed: the form passes it to
      the store unconverted. */
  datatype Student = Student(
    id: StudentId, name: string, dob: Date, gender: Gender,
    classId: string, parentId: ParentId)

  datatype Attendance = Attendance(
    id: string, studentId: StudentId, date: Date, timeIn: TimeOfDay, status: Status)

  datatype TermMark = TermMark(
    id: string, studentId: StudentId, subjectId: string, term: string, mark: int)

  /** A row of EmailNotificationLog; only its Student reference matters here. */
  datatype EmailLog = EmailLog(id: nat, studentId: StudentId)

  datatype Db = Db(
    classes: seq<Class>,
    parents: seq<Parent>,
    students: seq<Student>,
    attendance: seq<Attendance>,
    termMarks: seq<TermMark>,
    emailLogs: seq<EmailLog>)

  // The key and foreign-key columns, as projections a statement can filter on.
  function ParentKey(p: Parent): ParentId { p.id }
  function StudentKey(s: Student): StudentId { s.id }
  function StudentParent(s: Student): ParentId { s.parentId }
  function AttendanceStudent(a: Attendance): StudentId { a.studentId }
  function TermMarkStudent(m: TermMark): StudentId { m.studentId }
  function EmailLogStudent(l: EmailLog): StudentId { l.studentId }

  function StudentIds(db: Db): set<StudentId>
  {
    set s | s in db.students :: s.id
  }

  function ParentIds(db: Db): set<ParentId>
  {
    set p | p in db.parents :: p.id
  }

  /** Rows in all six tables together. */
  function TotalRows(db: Db): nat
  {
    |db.classes| + |db.parents| + |db.students|
    + |db.attendance| + |db.termMarks| + |db.emailLogs|
  }

  /** Attendance, TermMark and EmailNotificationLog rows of student `sid`. */
  function Dependents(db: Db, sid: StudentId): nat
  {
    Count(db.attendance, AttendanceStudent, sid)
    + Count(db.termMarks, TermMarkStudent, sid)
    + Count(db.emailLogs, EmailLogStudent, sid)
  }

  /** Referential integrity: every child row names an existing Student and
      every Student names an existing Parent. */
  predicate Integrity(db: Db)
  {
    && (forall a :: a in db.attendance ==> a.studentId in StudentIds(db))
    && (forall m :: m in db.termMarks ==> m.studentId in StudentIds(db))
    && (forall l :: l in db.emailLogs ==> l.studentId in StudentIds(db))
    && (forall s :: s in db.students ==> s.parentId in ParentIds(db))
  }

  /** StudentID is the primary key of Student. */
  ghost predicate UniqueStudentIds(db: Db)
  {
    KeysUnique(db.students, StudentKey)
  }
}
