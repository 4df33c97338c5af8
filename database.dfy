/** The hosted database as the page handlers see it: tables of rows that a
    handler reads and writes one call at a time. Every call a handler issues
    is appended to `log`, in order, whether or not it succeeds; a call that
    fails changes no table. */
module Database {
  import opened Common
  import opened Records
  import opened Calendar

  datatype Table =
    | Classes | ClassAssignments | Students | Grades | Profiles | Attendance | GradeSchemas | AuditLogs

  /** One call on the database (or, for `Request`, on the application's own
      HTTP endpoints). `Update` names the columns it sends. */
  datatype Call =
    | Select(table: Table)
    | Insert(table: Table)
    | Update(table: Table, id: Id, columns: seq<string>)
    | Delete(table: Table, id: Id)
    | Request(path: string)

  /** The ids of a table's rows, in row order. */
  function Ids<T>(rows: seq<T>, id: T -> Id): (r: seq<Id>)
    ensures |r| == |rows|
    ensures forall i :: 0 <= i < |rows| ==> r[i] == id(rows[i])
  {
    seq(|rows|, i requires 0 <= i < |rows| => id(rows[i]))
  }

  /** No two rows share an id. */
  predicate UniqueIds<T>(rows: seq<T>, id: T -> Id)
  {
    Unique(Ids(rows, id))
  }

  /** A row with an id not yet in use keeps the ids unique. */
  lemma AppendUnique<T>(rows: seq<T>, x: T, id: T -> Id)
    requires UniqueIds(rows, id)
    requires id(x) !in Ids(rows, id)
    ensures UniqueIds(rows + [x], id)
  {
    var ids := Ids(rows + [x], id);
    forall i, j | 0 <= i < j < |ids|
      ensures ids[i] != ids[j]
    {
      if j == |rows| {
        assert ids[i] == Ids(rows, id)[i];
      } else {
        assert ids[i] == Ids(rows, id)[i] && ids[j] == Ids(rows, id)[j];
      }
    }
  }

  /** Keeping a subsequence of rows keeps the ids unique. */
  lemma {:induction false} FilterUnique<T(!new)>(p: T -> bool, rows: seq<T>, id: T -> Id)
    requires UniqueIds(rows, id)
    ensures UniqueIds(Filter(p, rows), id)
  {
    if rows != [] {
      var tail := rows[1..];
      assert UniqueIds(tail, id) by {
        var ids := Ids(tail, id);
        forall i, j | 0 <= i < j < |ids|
          ensures ids[i] != ids[j]
        {
          assert ids[i] == Ids(rows, id)[i + 1] && ids[j] == Ids(rows, id)[j + 1];
        }
      }
      FilterUnique(p, tail, id);
      if p(rows[0]) {
        var r := [rows[0]] + Filter(p, tail);
        var ids := Ids(r, id);
        forall i, j | 0 <= i < j < |ids|
          ensures ids[i] != ids[j]
        {
          if i == 0 {
            assert r[j] in tail;
            var k :| 0 <= k < |tail| && tail[k] == r[j];
            assert ids[j] == Ids(rows, id)[k + 1];
            assert ids[i] == Ids(rows, id)[0];
          } else {
            assert ids[i] == Ids(Filter(p, tail), id)[i - 1];
            assert ids[j] == Ids(Filter(p, tail), id)[j - 1];
          }
        }
      }
    }
  }

  /** In a table with unique ids, a row is the only one carrying its id. */
  lemma UniqueIdsOwner<T>(rows: seq<T>, id: T -> Id, x: T, y: T)
    requires UniqueIds(rows, id)
    requires x in rows && y in rows && id(x) == id(y)
    ensures x == y
  {
    var i :| 0 <= i < |rows| && rows[i] == x;
    var j :| 0 <= j < |rows| && rows[j] == y;
    assert Ids(rows, id)[i] == id(x) && Ids(rows, id)[j] == id(y);
  }

  function AssignmentId(a: Assignment): Id { a.id }

  function ClassOfAssignment(a: Assignment): Id { a.classId }

  /** `.from("class_assignments").select(...).eq("class_id", classId)`. */
  function InClass(t: seq<Assignment>, classId: Id): (r: seq<Assignment>)
    ensures forall a :: a in r <==> a in t && a.classId == classId
  {
    Filter((a: Assignment) => a.classId == classId, t)
  }

  /** The class's assignment rows as a handler receives them: none when the
      read fails, since its `null` result is treated like an empty list. */
  function Snapshot(t: seq<Assignment>, classId: Id, readOk: bool): seq<Assignment>
  {
    if readOk then InClass(t, classId) else []
  }

  /** One entry of a class picker: a class id and its name. */
  datatype ClassEntry = ClassEntry(id: Id, name: string)

  function EntryId(e: ClassEntry): Id { e.id }

  /** `a.classes.name`: the joined class row's name, `None` when the row is
      missing (the page then throws reading `.name` of `null`). */
  function JoinedName(classes: seq<ClassRow>, classId: Id): Option<string>
  {
    match Find((c: ClassRow) => c.id == classId, classes)
    case None => None
    case Some(c) => Some(c.name)
  }

  /** `assignments.map(a => ({ id: a.class_id, name: a.classes.name }))`,
      `None` when some assignment's class row is missing. */
  function ClassEntries(mine: seq<Assignment>, classes: seq<ClassRow>): (r: Option<seq<ClassEntry>>)
    ensures r.Some? ==> |r.value| == |mine|
    ensures r.Some? ==> forall i :: 0 <= i < |mine| ==> r.value[i].id == mine[i].classId
  {
    if mine == [] then Some([])
    else
      match (JoinedName(classes, mine[0].classId), ClassEntries(mine[1..], classes))
      case (Some(n), Some(rest)) => Some([ClassEntry(mine[0].classId, n)] + rest)
      case _ => None
  }

  /** With every class row present, the join succeeds. */
  lemma {:induction false} ClassEntriesPresent(mine: seq<Assignment>, classes: seq<ClassRow>)
    requires forall b :: b in mine ==> JoinedName(classes, b.classId).Some?
    ensures ClassEntries(mine, classes).Some?
  {
    if mine != [] {
      assert mine[0] in mine;
      assert forall b :: b in mine[1..] ==> b in mine;
      ClassEntriesPresent(mine[1..], classes);
    }
  }

  /** One write on `class_assignments`. */
  datatype AssignmentWrite =
    | RemoveAssignment(id: Id)
    | AddAssignment(classId: Id, pair: Pair)

  /** The call a write issues. */
  function AssignmentCall(w: AssignmentWrite): Call
  {
    match w
    case RemoveAssignment(id) => Delete(ClassAssignments, id)
    case AddAssignment(_, _) => Insert(ClassAssignments)
  }

  /** `delete().eq("id", id)` removes every row with that id; an insert
      appends a row under an id the table does not use yet. */
  function ApplyAssignmentWrite(t: seq<Assignment>, w: AssignmentWrite): seq<Assignment>
  {
    match w
    case RemoveAssignment(id) => Filter((a: Assignment) => a.id != id, t)
    case AddAssignment(c, p) => t + [NewAssignment(t, c, p)]
  }

  /** The row an insert of pair `p` into class `c` appends to `t`. */
  function NewAssignment(t: seq<Assignment>, c: Id, p: Pair): (a: Assignment)
    ensures a.classId == c && PairOf(a) == p
    ensures a.id !in Ids(t, AssignmentId)
  {
    Assignment(FreshId(Ids(t, AssignmentId)), c, p.teacherId, p.subject)
  }

  /** The table after a run of writes, applied in order. */
  function ApplyAssignmentWrites(t: seq<Assignment>, ws: seq<AssignmentWrite>): seq<Assignment>
  {
    if ws == [] then t
    else ApplyAssignmentWrite(ApplyAssignmentWrites(t, ws[..|ws| - 1]), ws[|ws| - 1])
  }

  /** The calls a run of writes issues, in order. */
  function AssignmentCalls(ws: seq<AssignmentWrite>): (r: seq<Call>)
    ensures |r| == |ws|
    ensures forall i :: 0 <= i < |ws| ==> r[i] == AssignmentCall(ws[i])
  {
    seq(|ws|, i requires 0 <= i < |ws| => AssignmentCall(ws[i]))
  }

  lemma AssignmentCallsSnoc(ws: seq<AssignmentWrite>, w: AssignmentWrite)
    ensures AssignmentCalls(ws + [w]) == AssignmentCalls(ws) + [AssignmentCall(w)]
  {
  }

  /** Every write keeps the assignment ids unique. */
  lemma {:induction false} ApplyAssignmentWritesUnique(t: seq<Assignment>, ws: seq<AssignmentWrite>)
    requires UniqueIds(t, AssignmentId)
    ensures UniqueIds(ApplyAssignmentWrites(t, ws), AssignmentId)
    decreases |ws|
  {
    if ws != [] {
      var before := ApplyAssignmentWrites(t, ws[..|ws| - 1]);
      ApplyAssignmentWritesUnique(t, ws[..|ws| - 1]);
      match ws[|ws| - 1]
      case RemoveAssignment(id) =>
        FilterUnique((a: Assignment) => a.id != id, before, AssignmentId);
      case AddAssignment(c, p) =>
        AppendUnique(before, NewAssignment(before, c, p), AssignmentId);
    }
  }

  function StudentId(s: Student): Id { s.id }

  function GradeId(g: GradeRow): Id { g.id }

  function ClassId(c: ClassRow): Id { c.id }

  function ProfileId(p: Profile): Id { p.id }

  function SchemaId(r: GradeSchema): Id { r.id }

  /** The columns a schema update sends. */
  const MaximaColumns: seq<string> := [
    "evaluation_1_max", "evaluation_2_max", "evaluation_3_max", "evaluation_4_max",
    "monthly_exam_max", "notebook_max", "attendance_max", "behavior_max"]

  /** Every grade-schema row with id `id` takes the maxima `m`. */
  function SetMaxima(t: seq<GradeSchema>, id: Id, m: Maxima): (r: seq<GradeSchema>)
    ensures |r| == |t|
    ensures forall i :: 0 <= i < |t| ==> r[i] == if t[i].id == id then GradeSchema(id, m) else t[i]
  {
    seq(|t|, i requires 0 <= i < |t| => if t[i].id == id then GradeSchema(id, m) else t[i])
  }

  /** A new grade row: the student enrolled for one subject assignment,
      with no component set, no total and not locked. */
  function NewGradeRow(id: Id, studentId: Id, classId: Id, a: Assignment, now: DateTime): GradeRow
  {
    GradeRow(id, studentId, classId, a.teacherId, a.subject, NoComponents, None, false, now)
  }

  /** `g` is the grade row a new enrollment creates for assignment `a`:
      the student, the class, the assignment's teacher and subject, no
      component set, no total, not locked. */
  predicate EnrollmentRow(g: GradeRow, studentId: Id, classId: Id, a: Assignment)
  {
    g.studentId == studentId && g.classId == classId && g.teacherId == a.teacherId
    && g.subject == a.subject && g.components == NoComponents && g.total == None && !g.isLocked
  }

  /** `rows` are, in order, the enrollment rows of `studentId` in `classId`
      for the assignments `subjects`. */
  predicate EnrollmentRows(rows: seq<GradeRow>, studentId: Id, classId: Id, subjects: seq<Assignment>)
  {
    |rows| == |subjects|
    && forall i :: 0 <= i < |rows| ==> EnrollmentRow(rows[i], studentId, classId, subjects[i])
  }

  /** `update({ [field]: v }).eq("id", id)`: every row with that id gets
      the new component value; nothing else changes. */
  function SetGradeField(t: seq<GradeRow>, id: Id, f: Field, v: Option<Score>): (r: seq<GradeRow>)
    ensures |r| == |t|
    ensures forall i :: 0 <= i < |t| ==>
      if t[i].id == id
      then r[i] == t[i].(components := Set(t[i].components, f, v))
      else r[i] == t[i]
  {
    seq(|t|, i requires 0 <= i < |t| =>
      if t[i].id == id then t[i].(components := Set(t[i].components, f, v)) else t[i])
  }

  /** The columns of `profiles` one update sets; `None` leaves a column
      out of the update. */
  datatype ProfileUpdate = ProfileUpdate(
    fullName: Option<Option<string>>, role: Option<string>, isActive: Option<bool>,
    subject: Option<Option<string>>)

  /** A profile row after an update: the columns the update names take its
      values, the others (id and email among them) are kept. */
  function ApplyProfileUpdate(p: Profile, u: ProfileUpdate): (r: Profile)
    ensures r.id == p.id && r.email == p.email
  {
    p.(fullName := if u.fullName.Some? then u.fullName.value else p.fullName,
       role := if u.role.Some? then u.role.value else p.role,
       isActive := if u.isActive.Some? then u.isActive.value else p.isActive,
       subject := if u.subject.Some? then u.subject.value else p.subject)
  }

  /** The names of the columns an update sends. */
  function ProfileColumns(u: ProfileUpdate): seq<string>
  {
    (if u.fullName.Some? then ["full_name"] else [])
    + (if u.role.Some? then ["role"] else [])
    + (if u.isActive.Some? then ["is_active"] else [])
    + (if u.subject.Some? then ["subject"] else [])
  }

  /** `update(values).eq("id", id)` on `profiles`. */
  function UpdateProfiles(t: seq<Profile>, id: Id, u: ProfileUpdate): (r: seq<Profile>)
    ensures |r| == |t|
    ensures forall i :: 0 <= i < |t| ==> r[i] == if t[i].id == id then ApplyProfileUpdate(t[i], u) else t[i]
  {
    seq(|t|, i requires 0 <= i < |t| => if t[i].id == id then ApplyProfileUpdate(t[i], u) else t[i])
  }

  class Db {
    var classes: seq<ClassRow>
    var assignments: seq<Assignment>
    var students: seq<Student>
    var grades: seq<GradeRow>
    var profiles: seq<Profile>
    var attendance: seq<AttendanceRow>
    var schemas: seq<GradeSchema>
    var auditLogs: seq<AuditLog>
    /** Every call issued so far, in order. */
    var log: seq<Call>

    /** Ids are unique within each table. */
    predicate Valid()
      reads this
    {
      UniqueIds(classes, ClassId) && UniqueIds(assignments, AssignmentId)
      && UniqueIds(students, StudentId) && UniqueIds(grades, GradeId)
      && UniqueIds(profiles, ProfileId)
    }

    /** The id a new class receives: one no table refers to yet. */
    function NextClassId(): (id: Id)
      reads this
      ensures id !in Ids(classes, ClassId)
      ensures forall a :: a in assignments ==> a.classId != id
    {
      var refs := Ids(classes, ClassId) + Ids(assignments, ClassOfAssignment);
      assert forall a :: a in assignments ==> a.classId in refs;
      FreshId(refs)
    }

    /** The id a new student receives: one no table refers to yet. */
    function NextStudentId(): (id: Id)
      reads this
      ensures id !in Ids(students, StudentId)
      ensures forall g :: g in grades ==> g.studentId != id
    {
      var refs := Ids(students, StudentId) + Ids(grades, (g: GradeRow) => g.studentId);
      assert forall g :: g in grades ==> g.studentId in refs;
      FreshId(refs)
    }

    constructor ()
      ensures Valid() && log == []
      ensures classes == [] && assignments == [] && students == [] && grades == [] && profiles == []
      ensures attendance == [] && schemas == [] && auditLogs == []
    {
      classes, assignments, students, grades, profiles, log := [], [], [], [], [], [];
      attendance, schemas, auditLogs := [], [], [];
    }

    /** A read: it changes no table. */
    method Read(t: Table)
      modifies this`log
      ensures log == old(log) + [Select(t)]
    {
      log := log + [Select(t)];
    }

    /** A request to one of the application's own endpoints. */
    method Post(path: string)
      modifies this`log
      ensures log == old(log) + [Request(path)]
    {
      log := log + [Request(path)];
    }

    /** `insert([{ name, description }]).select()`: the new id, or `None` when the call fails. */
    method InsertClass(name: string, description: string, ok: bool) returns (id: Option<Id>)
      requires Valid()
      modifies this`classes, this`log
      ensures Valid()
      ensures log == old(log) + [Insert(Classes)]
      ensures ok ==> id == Some(old(NextClassId()))
                     && classes == old(classes) + [ClassRow(id.value, name, description)]
      ensures !ok ==> id == None && classes == old(classes)
    {
      log := log + [Insert(Classes)];
      if ok {
        var newId := NextClassId();
        AppendUnique(classes, ClassRow(newId, name, description), ClassId);
        classes := classes + [ClassRow(newId, name, description)];
        id := Some(newId);
      } else {
        id := None;
      }
    }

    /** One write on `class_assignments`; a failed call writes nothing. */
    method WriteAssignment(w: AssignmentWrite, ok: bool)
      requires Valid()
      modifies this`assignments, this`log
      ensures Valid()
      ensures log == old(log) + [AssignmentCall(w)]
      ensures assignments == if ok then ApplyAssignmentWrite(old(assignments), w) else old(assignments)
    {
      log := log + [AssignmentCall(w)];
      if ok {
        assert ApplyAssignmentWrites(assignments, [w]) == ApplyAssignmentWrite(assignments, w);
        ApplyAssignmentWritesUnique(assignments, [w]);
        assignments := ApplyAssignmentWrite(assignments, w);
      }
    }

    /** `insert([{ name, seat_number, class_id }]).select()`: the new id, or
        `None` when the call fails. */
    method InsertStudent(name: string, classId: Id, seatNumber: string, ok: bool) returns (id: Option<Id>)
      requires Valid()
      modifies this`students, this`log
      ensures Valid()
      ensures log == old(log) + [Insert(Students)]
      ensures ok ==> id.Some? && id.value !in Ids(old(students), StudentId)
                     && (forall g :: g in grades ==> g.studentId != id.value)
                     && students == old(students) + [Student(id.value, name, classId, seatNumber, None)]
      ensures !ok ==> id == None && students == old(students)
    {
      log := log + [Insert(Students)];
      if ok {
        var newId := NextStudentId();
        AppendUnique(students, Student(newId, name, classId, seatNumber, None), StudentId);
        students := students + [Student(newId, name, classId, seatNumber, None)];
        id := Some(newId);
      } else {
        id := None;
      }
    }

    /** `insert([{ student_id, class_id, teacher_id, subject }])` on `grades`:
        the row is appended under an id not in use; the database stamps it
        with the time `now`. */
    method InsertGrade(studentId: Id, classId: Id, a: Assignment, now: DateTime, ok: bool)
      requires Valid()
      modifies this`grades, this`log
      ensures Valid()
      ensures log == old(log) + [Insert(Grades)]
      ensures ok ==> |grades| == |old(grades)| + 1 && grades[..|old(grades)|] == old(grades)
                     && EnrollmentRow(grades[|old(grades)|], studentId, classId, a)
      ensures !ok ==> grades == old(grades)
    {
      log := log + [Insert(Grades)];
      if ok {
        var g := NewGradeRow(FreshId(Ids(grades, GradeId)), studentId, classId, a, now);
        AppendUnique(grades, g, GradeId);
        grades := grades + [g];
        assert grades[..|old(grades)|] == old(grades);
      }
    }

    /** Sets one component of the grade rows with id `id`. */
    method UpdateGrade(id: Id, f: Field, v: Option<Score>, ok: bool)
      requires Valid()
      modifies this`grades, this`log
      ensures Valid()
      ensures log == old(log) + [Update(Grades, id, [ColumnName(f)])]
      ensures grades == if ok then SetGradeField(old(grades), id, f, v) else old(grades)
    {
      log := log + [Update(Grades, id, [ColumnName(f)])];
      if ok {
        assert Ids(SetGradeField(grades, id, f, v), GradeId) == Ids(grades, GradeId);
        grades := SetGradeField(grades, id, f, v);
      }
    }

    /** Sets the columns `u` names on the profile rows with id `id`. */
    method UpdateProfile(id: Id, u: ProfileUpdate, ok: bool)
      requires Valid()
      modifies this`profiles, this`log
      ensures Valid()
      ensures log == old(log) + [Update(Profiles, id, ProfileColumns(u))]
      ensures profiles == if ok then UpdateProfiles(old(profiles), id, u) else old(profiles)
    {
      log := log + [Update(Profiles, id, ProfileColumns(u))];
      if ok {
        assert Ids(UpdateProfiles(profiles, id, u), ProfileId) == Ids(profiles, ProfileId);
        profiles := UpdateProfiles(profiles, id, u);
      }
    }

    /** `delete().eq("id", id)` on `students`: the student's row goes, and
        with it, through the foreign key's cascade, every grade row of that
        student. */
    method DeleteStudent(id: Id, ok: bool)
      requires Valid()
      modifies this`students, this`grades, this`log
      ensures Valid()
      ensures log == old(log) + [Delete(Students, id)]
      ensures ok ==> (forall s :: s in students <==> s in old(students) && s.id != id)
                     && (forall g :: g in grades <==> g in old(grades) && g.studentId != id)
      ensures !ok ==> students == old(students) && grades == old(grades)
    {
      log := log + [Delete(Students, id)];
      if ok {
        FilterUnique((s: Student) => s.id != id, students, StudentId);
        FilterUnique((g: GradeRow) => g.studentId != id, grades, GradeId);
        students := Filter((s: Student) => s.id != id, students);
        grades := Filter((g: GradeRow) => g.studentId != id, grades);
      }
    }

    /** `insert([maxima])` on `grade_schema`: a new row with a fresh id when
        the call succeeds. */
    method InsertSchema(m: Maxima, ok: bool)
      modifies this`schemas, this`log
      ensures log == old(log) + [Insert(GradeSchemas)]
      ensures ok ==> |schemas| == |old(schemas)| + 1 && schemas[..|old(schemas)|] == old(schemas)
                     && schemas[|old(schemas)|].maxima == m
                     && schemas[|old(schemas)|].id !in Ids(old(schemas), SchemaId)
      ensures !ok ==> schemas == old(schemas)
    {
      log := log + [Insert(GradeSchemas)];
      if ok {
        var row := GradeSchema(FreshId(Ids(schemas, SchemaId)), m);
        schemas := schemas + [row];
        assert schemas[..|old(schemas)|] == old(schemas);
      }
    }

    /** `update(maxima).eq("id", id)` on `grade_schema`. */
    method UpdateSchema(id: Id, m: Maxima, ok: bool)
      modifies this`schemas, this`log
      ensures log == old(log) + [Update(GradeSchemas, id, MaximaColumns)]
      ensures schemas == if ok then SetMaxima(old(schemas), id, m) else old(schemas)
    {
      log := log + [Update(GradeSchemas, id, MaximaColumns)];
      if ok {
        schemas := SetMaxima(schemas, id, m);
      }
    }
  }
}
