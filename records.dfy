/** The rows of the school database as the pages read and write them. */
module Records {
  import opened Common
  import opened Calendar

  /** A score in half-point units: the score inputs step by 0.5, so 7.5
      points is 15 units. */
  type Score = int

  /** The eight graded components of a grade row, in column order. */
  datatype Field =
    | Evaluation1 | Evaluation2 | Evaluation3 | Evaluation4
    | MonthlyExam | Notebook | AttendanceMark | Behavior

  /** All eight components in the order every table and export lists them. */
  const Fields: seq<Field> :=
    [Evaluation1, Evaluation2, Evaluation3, Evaluation4, MonthlyExam, Notebook, AttendanceMark, Behavior]

  /** The database column of a component. */
  function ColumnName(f: Field): string
  {
    match f
    case Evaluation1 => "evaluation_1"
    case Evaluation2 => "evaluation_2"
    case Evaluation3 => "evaluation_3"
    case Evaluation4 => "evaluation_4"
    case MonthlyExam => "monthly_exam"
    case Notebook => "notebook"
    case AttendanceMark => "attendance"
    case Behavior => "behavior"
  }

  /** The eight nullable component scores of one grade row. */
  datatype Components = Components(
    evaluation1: Option<Score>, evaluation2: Option<Score>,
    evaluation3: Option<Score>, evaluation4: Option<Score>,
    monthlyExam: Option<Score>, notebook: Option<Score>,
    attendance: Option<Score>, behavior: Option<Score>)

  /** A freshly enrolled student's components: all unset. */
  const NoComponents := Components(None, None, None, None, None, None, None, None)

  /** `row[field]`. */
  function Get(c: Components, f: Field): Option<Score>
  {
    match f
    case Evaluation1 => c.evaluation1
    case Evaluation2 => c.evaluation2
    case Evaluation3 => c.evaluation3
    case Evaluation4 => c.evaluation4
    case MonthlyExam => c.monthlyExam
    case Notebook => c.notebook
    case AttendanceMark => c.attendance
    case Behavior => c.behavior
  }

  /** `{ ...row, [field]: v }` restricted to the components: the named
      component becomes `v` and every other component is unchanged. */
  function Set(c: Components, f: Field, v: Option<Score>): (r: Components)
    ensures Get(r, f) == v
    ensures forall g :: g != f ==> Get(r, g) == Get(c, g)
  {
    match f
    case Evaluation1 => c.(evaluation1 := v)
    case Evaluation2 => c.(evaluation2 := v)
    case Evaluation3 => c.(evaluation3 := v)
    case Evaluation4 => c.(evaluation4 := v)
    case MonthlyExam => c.(monthlyExam := v)
    case Notebook => c.(notebook := v)
    case AttendanceMark => c.(attendance := v)
    case Behavior => c.(behavior := v)
  }

  /** Components agreeing on every field are equal. */
  lemma ComponentsExt(a: Components, b: Components)
    requires forall f :: Get(a, f) == Get(b, f)
    ensures a == b
  {
    assert Get(a, Evaluation1) == Get(b, Evaluation1);
    assert Get(a, Evaluation2) == Get(b, Evaluation2);
    assert Get(a, Evaluation3) == Get(b, Evaluation3);
    assert Get(a, Evaluation4) == Get(b, Evaluation4);
    assert Get(a, MonthlyExam) == Get(b, MonthlyExam);
    assert Get(a, Notebook) == Get(b, Notebook);
    assert Get(a, AttendanceMark) == Get(b, AttendanceMark);
    assert Get(a, Behavior) == Get(b, Behavior);
  }

  /** A row of `classes`. */
  datatype ClassRow = ClassRow(id: Id, name: string, description: string)

  /** A row of `class_assignments`: `teacherId` teaches `subject` in `classId`. */
  datatype Assignment = Assignment(id: Id, classId: Id, teacherId: Id, subject: string)

  /** A (teacher_id, subject) pair, as the class forms edit them. */
  datatype Pair = Pair(teacherId: Id, subject: string)

  function PairOf(a: Assignment): Pair
  {
    Pair(a.teacherId, a.subject)
  }

  /** A row of `students`. */
  datatype Student = Student(id: Id, name: string, classId: Id, seatNumber: string,
                             nationalId: Option<string>)

  /** A row of `grades`: one per student per subject assignment. `total` is
      maintained by the database itself and only read here. */
  datatype GradeRow = GradeRow(
    id: Id, studentId: Id, classId: Id, teacherId: Id, subject: string,
    components: Components, total: Option<Score>, isLocked: bool, updatedAt: DateTime)

  /** A row of `attendance`. */
  datatype AttendanceRow = AttendanceRow(
    id: Id, studentId: Id, classId: Id, teacherId: Id, date: Date, isPresent: bool)

  /** The eight maxima of the grade schema, in whole points, in column order. */
  datatype Maxima = Maxima(
    evaluation1: int, evaluation2: int, evaluation3: int, evaluation4: int,
    monthlyExam: int, notebook: int, attendance: int, behavior: int)

  /** `schema[field + "_max"]`. */
  function MaxOf(m: Maxima, f: Field): int
  {
    match f
    case Evaluation1 => m.evaluation1
    case Evaluation2 => m.evaluation2
    case Evaluation3 => m.evaluation3
    case Evaluation4 => m.evaluation4
    case MonthlyExam => m.monthlyExam
    case Notebook => m.notebook
    case AttendanceMark => m.attendance
    case Behavior => m.behavior
  }

  /** A row of `grade_schema`. */
  datatype GradeSchema = GradeSchema(id: Id, maxima: Maxima)

  /** A row of `audit_logs`, without the old and new values it records. */
  datatype AuditLog = AuditLog(id: Id, userId: Id, action: string, entityType: string,
                               createdAt: DateTime)

  /** A row of `profiles`: the application's view of an account. */
  datatype Profile = Profile(
    id: Id, email: string, fullName: Option<string>, role: string, isActive: bool,
    subject: Option<string>)
}
