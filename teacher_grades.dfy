/** The teacher's grade-entry page (app/teacher/grades/page.tsx): the class
    picker, the subject and rows a class shows, the immediate local edit of
    a cell and the write of that cell when it loses focus. */
module TeacherGrades {
  import opened Common
  import opened Records
  import opened Database
  import opened Ordering
  import opened Text

  // ---------------------------------------------------------------------
  // The class picker

  /** The position of the entry with key `k`, if any. */
  function KeyIndex(m: seq<Assignment>, k: Id): (r: Option<nat>)
    ensures r.Some? ==> r.value < |m| && m[r.value].classId == k
    ensures r.None? ==> forall a :: a in m ==> a.classId != k
  {
    if m == [] then None
    else if m[0].classId == k then Some(0)
    else
      assert forall a :: a in m ==> a == m[0] || a in m[1..];
      match KeyIndex(m[1..], k)
      case None => None
      case Some(i) => Some(i + 1)
  }

  /** `map.set(a.class_id, a)` on a `Map` listed in insertion order: a key
      already present keeps its place and takes the new value, a new key
      goes last. */
  function MapSet(m: seq<Assignment>, a: Assignment): seq<Assignment>
  {
    match KeyIndex(m, a.classId)
    case Some(i) => m[i := a]
    case None => m + [a]
  }

  /** `Array.from(new Map(xs.map(a => [a.class_id, a])).values())`. */
  function MapValues(xs: seq<Assignment>): seq<Assignment>
    decreases |xs|
  {
    if xs == [] then [] else MapSet(MapValues(xs[..|xs| - 1]), xs[|xs| - 1])
  }

  predicate DistinctClasses(m: seq<Assignment>)
  {
    forall i, j :: 0 <= i < j < |m| ==> m[i].classId != m[j].classId
  }

  /** The map holds one assignment per class id of `xs`, each one of `xs`. */
  lemma {:induction false} MapValuesFacts(xs: seq<Assignment>)
    ensures DistinctClasses(MapValues(xs))
    ensures forall e :: e in MapValues(xs) ==> e in xs
    ensures forall a :: a in xs ==> a.classId in Ids(MapValues(xs), ClassOfAssignment)
    decreases |xs|
  {
    if xs != [] {
      var pre := xs[..|xs| - 1];
      var a := xs[|xs| - 1];
      assert xs == pre + [a];
      MapValuesFacts(pre);
      MapSetFacts(MapValues(pre), a, pre);
    }
  }

  lemma MapSetFacts(m: seq<Assignment>, a: Assignment, pre: seq<Assignment>)
    requires DistinctClasses(m)
    requires forall e :: e in m ==> e in pre
    requires forall b :: b in pre ==> b.classId in Ids(m, ClassOfAssignment)
    ensures DistinctClasses(MapSet(m, a))
    ensures forall e :: e in MapSet(m, a) ==> e in pre + [a]
    ensures forall b :: b in pre + [a] ==> b.classId in Ids(MapSet(m, a), ClassOfAssignment)
  {
    match KeyIndex(m, a.classId)
    case Some(i) => MapSetReplaces(m, a, pre, i);
    case None => MapSetAppends(m, a, pre);
  }

  /** A key already present: the value at its place is replaced. */
  lemma MapSetReplaces(m: seq<Assignment>, a: Assignment, pre: seq<Assignment>, i: nat)
    requires DistinctClasses(m)
    requires forall e :: e in m ==> e in pre
    requires forall b :: b in pre ==> b.classId in Ids(m, ClassOfAssignment)
    requires i < |m| && m[i].classId == a.classId
    ensures DistinctClasses(m[i := a])
    ensures forall e :: e in m[i := a] ==> e in pre + [a]
    ensures forall b :: b in pre + [a] ==> b.classId in Ids(m[i := a], ClassOfAssignment)
  {
    var r := m[i := a];
    assert forall j :: 0 <= j < |r| ==> r[j].classId == m[j].classId;
    forall e | e in r
      ensures e in pre + [a]
    {
      var j :| 0 <= j < |r| && r[j] == e;
      if j != i {
        assert m[j] in m;
      }
    }
    var ks := Ids(m, ClassOfAssignment);
    assert Ids(r, ClassOfAssignment) == ks;
    assert a.classId == ks[i];
  }

  /** A new key: the value goes last. */
  lemma MapSetAppends(m: seq<Assignment>, a: Assignment, pre: seq<Assignment>)
    requires DistinctClasses(m)
    requires forall e :: e in m ==> e in pre
    requires forall b :: b in pre ==> b.classId in Ids(m, ClassOfAssignment)
    requires forall e :: e in m ==> e.classId != a.classId
    ensures DistinctClasses(m + [a])
    ensures forall e :: e in m + [a] ==> e in pre + [a]
    ensures forall b :: b in pre + [a] ==> b.classId in Ids(m + [a], ClassOfAssignment)
  {
    var r := m + [a];
    forall i, j | 0 <= i < j < |r|
      ensures r[i].classId != r[j].classId
    {
      assert r[i] == m[i] && m[i] in m;
    }
    assert Ids(r, ClassOfAssignment) == Ids(m, ClassOfAssignment) + [a.classId];
  }

  /** `.from("class_assignments").select(...).eq("teacher_id", teacher)`. */
  function TeacherAssignments(t: seq<Assignment>, teacher: Id): (r: seq<Assignment>)
    ensures forall a :: a in r <==> a in t && a.teacherId == teacher
  {
    Filter((a: Assignment) => a.teacherId == teacher, t)
  }

  /** `fetchTeacherClasses`: one picker entry per class the session teacher
      has an assignment in. `None` when the page throws: no session, a
      failed read, or a class row missing from the join. */
  function GradeClasses(session: Option<Id>, t: seq<Assignment>, classes: seq<ClassRow>, readOk: bool)
    : (r: Option<seq<ClassEntry>>)
    ensures session.None? || !readOk ==> r.None?
    ensures r.Some? ==> forall i, j :: 0 <= i < j < |r.value| ==> r.value[i].id != r.value[j].id
    ensures r.Some? ==> forall e :: e in r.value ==>
      exists a :: a in t && a.teacherId == session.value && a.classId == e.id
  {
    if session.None? || !readOk then None
    else
      var mine := TeacherAssignments(t, session.value);
      EntriesOfMine(mine, classes);
      ClassEntries(MapValues(mine), classes)
  }

  /** The entries joined from one teacher's assignments have distinct ids,
      each the class of one of those assignments. */
  lemma EntriesOfMine(mine: seq<Assignment>, classes: seq<ClassRow>)
    ensures var r := ClassEntries(MapValues(mine), classes);
      r.Some? ==> (forall i, j :: 0 <= i < j < |r.value| ==> r.value[i].id != r.value[j].id)
                  && forall e :: e in r.value ==> exists a :: a in mine && a.classId == e.id
  {
    var values := MapValues(mine);
    MapValuesFacts(mine);
    var r := ClassEntries(values, classes);
    if r.Some? {
      forall e | e in r.value
        ensures exists a :: a in mine && a.classId == e.id
      {
        var i :| 0 <= i < |r.value| && r.value[i] == e;
        assert values[i] in mine;
      }
    }
  }

  /** With every class row present, every class the teacher has an
      assignment in is listed. */
  lemma GradeClassesCover(session: Id, t: seq<Assignment>, classes: seq<ClassRow>, a: Assignment)
    requires forall b :: b in t ==> JoinedName(classes, b.classId).Some?
    requires a in t && a.teacherId == session
    ensures GradeClasses(Some(session), t, classes, true).Some?
    ensures exists e :: e in GradeClasses(Some(session), t, classes, true).value && e.id == a.classId
  {
    var mine := TeacherAssignments(t, session);
    var values := MapValues(mine);
    MapValuesFacts(mine);
    assert a in mine;
    ClassEntriesPresent(values, classes);
    var es := ClassEntries(values, classes).value;
    var i :| 0 <= i < |values| && Ids(values, ClassOfAssignment)[i] == a.classId;
    assert es[i] in es;
  }

  // ---------------------------------------------------------------------
  // What a class shows

  function SubjectKey(a: Assignment): Key { TextKey(a.subject) }

  function StudentKey(g: GradeRow): Key { TextKey(g.studentId) }

  function SubjectOf(a: Assignment): string { a.subject }

  /** `a` is one of `teacher`'s assignments in `classId`. */
  predicate Teaches(a: Assignment, classId: Id, teacher: Id)
  {
    a.classId == classId && a.teacherId == teacher
  }

  /** `.select("subject").eq("class_id", classId).eq("teacher_id", teacher)
      .order("subject")`: the teacher's assignments in the class, by subject. */
  function ClassSubjectRows(t: seq<Assignment>, classId: Id, teacher: Id): (r: seq<Assignment>)
    ensures forall a :: a in r <==> a in t && Teaches(a, classId, teacher)
    ensures SortedBy(r, SubjectKey)
  {
    var rows := Filter((a: Assignment) => Teaches(a, classId, teacher), t);
    var r := SortBy(rows, SubjectKey);
    assert forall a :: a in r <==> a in multiset(r);
    assert forall a :: a in rows <==> a in multiset(rows);
    r
  }

  /** `.map(a => a.subject)`. */
  function Subjects(rows: seq<Assignment>): (r: seq<string>)
    ensures |r| == |rows| && forall i :: 0 <= i < |rows| ==> r[i] == rows[i].subject
  {
    seq(|rows|, i requires 0 <= i < |rows| => rows[i].subject)
  }

  /** The subjects the teacher teaches in the class, in ascending order. */
  function TeacherSubjects(t: seq<Assignment>, classId: Id, teacher: Id): seq<string>
  {
    Subjects(ClassSubjectRows(t, classId, teacher))
  }

  /** The subjects listed are exactly those the teacher teaches in the
      class, in ascending order. */
  lemma TeacherSubjectsSpec(t: seq<Assignment>, classId: Id, teacher: Id)
    ensures forall s :: s in TeacherSubjects(t, classId, teacher) <==>
      exists a :: a in t && Teaches(a, classId, teacher) && a.subject == s
    ensures var r := TeacherSubjects(t, classId, teacher);
      forall i, j :: 0 <= i < j < |r| ==> TextLe(r[i], r[j])
  {
    var rows := ClassSubjectRows(t, classId, teacher);
    var r := Subjects(rows);
    forall s | s in r
      ensures exists a :: a in t && Teaches(a, classId, teacher) && a.subject == s
    {
      var i :| 0 <= i < |r| && r[i] == s;
      assert rows[i] in rows;
    }
    forall a | a in t && Teaches(a, classId, teacher)
      ensures a.subject in r
    {
      var i :| 0 <= i < |rows| && rows[i] == a;
      assert r[i] == a.subject;
    }
    forall i, j | 0 <= i < j < |r|
      ensures TextLe(r[i], r[j])
    {
      assert KeyLe(SubjectKey(rows[i]), SubjectKey(rows[j]));
    }
  }

  /** `subjects.length > 0 ? subjects[0] : null`, and `!subject` then treats
      an empty subject like no subject. */
  function ChosenSubject(subjects: seq<string>): (r: Option<string>)
    ensures r.Some? ==> |subjects| > 0 && r.value == subjects[0] && r.value != ""
    ensures r.None? ==> subjects == [] || subjects[0] == ""
  {
    if |subjects| > 0 && subjects[0] != "" then Some(subjects[0]) else None
  }

  /** The teacher has no assignment in the class, or one with an empty subject. */
  predicate NoneOrBlank(t: seq<Assignment>, classId: Id, teacher: Id)
  {
    (forall a :: a in t ==> !Teaches(a, classId, teacher))
    || (exists a :: a in t && Teaches(a, classId, teacher) && a.subject == "")
  }

  /** The grading view uses only the alphabetically first of the teacher's
      subjects in the class. */
  lemma ChosenSubjectIsFirst(t: seq<Assignment>, classId: Id, teacher: Id)
    ensures var c := ChosenSubject(TeacherSubjects(t, classId, teacher));
      c.Some? ==>
        (exists a :: a in t && Teaches(a, classId, teacher) && a.subject == c.value)
        && forall a :: a in t && Teaches(a, classId, teacher) ==> TextLe(c.value, a.subject)
  {
    var subjects := TeacherSubjects(t, classId, teacher);
    TeacherSubjectsSpec(t, classId, teacher);
    var c := ChosenSubject(subjects);
    if c.Some? {
      assert subjects[0] in subjects;
      forall a | a in t && Teaches(a, classId, teacher)
        ensures TextLe(c.value, a.subject)
      {
        assert a.subject in subjects;
        var j :| 0 <= j < |subjects| && subjects[j] == a.subject;
        if j == 0 {
          KeyLeTotal(TextKey(a.subject), TextKey(a.subject));
        }
      }
    }
  }

  /** No subject is chosen exactly when the teacher has no assignment in the
      class or one with an empty subject (the empty text sorts first). */
  lemma ChosenSubjectBlank(t: seq<Assignment>, classId: Id, teacher: Id)
    ensures ChosenSubject(TeacherSubjects(t, classId, teacher)).None? <==> NoneOrBlank(t, classId, teacher)
  {
    var subjects := TeacherSubjects(t, classId, teacher);
    TeacherSubjectsSpec(t, classId, teacher);
    if subjects == [] {
      assert forall a :: a in t && Teaches(a, classId, teacher) ==> a.subject in subjects;
    } else if subjects[0] == "" {
      assert subjects[0] in subjects;
    } else {
      ChosenSubjectIsFirst(t, classId, teacher);
      assert t != [] && exists a :: a in t && Teaches(a, classId, teacher);
      forall a | a in t && Teaches(a, classId, teacher)
        ensures a.subject != ""
      {
        assert TextLe(subjects[0], a.subject);
        assert |TextKey(subjects[0])| > 0;
      }
    }
  }

  /** The teacher's grade rows of one subject in one class. */
  function SubjectGrades(g: seq<GradeRow>, classId: Id, subject: string, teacher: Id): (r: seq<GradeRow>)
    ensures forall x :: x in r <==>
      x in g && x.classId == classId && x.subject == subject && x.teacherId == teacher
  {
    Filter((x: GradeRow) => x.classId == classId && x.subject == subject && x.teacherId == teacher, g)
  }

  /** `.from("grades").select("*").eq("class_id", classId).eq("subject", subject)
      .eq("teacher_id", teacher).order("student_id")`. */
  function ShownRows(g: seq<GradeRow>, classId: Id, subject: string, teacher: Id): seq<GradeRow>
  {
    SortBy(SubjectGrades(g, classId, subject, teacher), StudentKey)
  }

  /** The rows shown are exactly the teacher's rows of that subject in the
      class, each as often as the query returns it, sorted by student id. */
  lemma ShownRowsSpec(g: seq<GradeRow>, classId: Id, subject: string, teacher: Id)
    ensures forall x :: x in ShownRows(g, classId, subject, teacher) <==>
      x in g && x.classId == classId && x.subject == subject && x.teacherId == teacher
    ensures multiset(ShownRows(g, classId, subject, teacher)) == multiset(SubjectGrades(g, classId, subject, teacher))
    ensures SortedBy(ShownRows(g, classId, subject, teacher), StudentKey)
  {
    var rows := SubjectGrades(g, classId, subject, teacher);
    var r := SortBy(rows, StudentKey);
    assert forall x :: x in r <==> x in multiset(r);
    assert forall x :: x in rows <==> x in multiset(rows);
  }

  /** `.from("students").select("id, name").eq("class_id", classId)`. */
  function ClassStudents(students: seq<Student>, classId: Id): (r: seq<Student>)
    ensures forall s :: s in r <==> s in students && s.classId == classId
  {
    Filter((s: Student) => s.classId == classId, students)
  }

  /** A grade row as the table shows it: the stored row and a student name. */
  datatype ShownGrade = ShownGrade(row: GradeRow, studentName: string)

  /** `studentsData?.find(s => s.id === id)?.name || "Unknown"`. */
  function StudentName(students: seq<Student>, id: Id): (name: string)
  {
    match Find((s: Student) => s.id == id, students)
    case None => "Unknown"
    case Some(s) => Or(Some(s.name), "Unknown")
  }

  /** The name is the first matching student's when that is non-empty, and
      "Unknown" when no student matches or the name is empty. */
  lemma StudentNameSpec(students: seq<Student>, id: Id)
    ensures (forall s :: s in students ==> s.id != id) ==> StudentName(students, id) == "Unknown"
    ensures forall i :: 0 <= i < |students| && students[i].id == id
                        && (forall j :: 0 <= j < i ==> students[j].id != id) ==>
      StudentName(students, id) == (if students[i].name != "" then students[i].name else "Unknown")
  {
    var f := Find((s: Student) => s.id == id, students);
    forall i | 0 <= i < |students| && students[i].id == id && (forall j :: 0 <= j < i ==> students[j].id != id)
      ensures StudentName(students, id) == (if students[i].name != "" then students[i].name else "Unknown")
    {
      assert students[i] in students;
      var k :| 0 <= k < |students| && students[k] == f.value && f.value.id == id
               && forall j :: 0 <= j < k ==> students[j].id != id;
      assert !(k < i) && !(i < k);
    }
  }

  /** `gradesData.map(grade => ({ ...grade, student_name: ... }))`: every row
      unchanged, in order, with its student's name or "Unknown". */
  function Enrich(rows: seq<GradeRow>, students: seq<Student>): (r: seq<ShownGrade>)
    ensures |r| == |rows|
    ensures forall i :: 0 <= i < |rows| ==> r[i].row == rows[i]
    ensures forall i :: 0 <= i < |rows| ==> r[i].studentName == StudentName(students, rows[i].studentId)
  {
    seq(|rows|, i requires 0 <= i < |rows| => ShownGrade(rows[i], StudentName(students, rows[i].studentId)))
  }

  /** Each shown name is "Unknown" or the name of a student with the row's
      student id, and it is the first such student's name whenever that is
      non-empty. */
  lemma EnrichNames(rows: seq<GradeRow>, students: seq<Student>)
    ensures var r := Enrich(rows, students);
      forall i :: 0 <= i < |rows| ==>
        r[i].studentName == "Unknown"
        || exists s :: s in students && s.id == rows[i].studentId && s.name == r[i].studentName
    ensures var r := Enrich(rows, students);
      forall i, k :: 0 <= i < |rows| && 0 <= k < |students| && students[k].id == rows[i].studentId
                     && (forall j :: 0 <= j < k ==> students[j].id != rows[i].studentId) ==>
        r[i].studentName == (if students[k].name != "" then students[k].name else "Unknown")
  {
    var r := Enrich(rows, students);
    forall i, k | 0 <= i < |rows| && 0 <= k < |students| && students[k].id == rows[i].studentId
                  && (forall j :: 0 <= j < k ==> students[j].id != rows[i].studentId) {
      FindFirst((s: Student) => s.id == rows[i].studentId, students, k);
    }
    forall i | 0 <= i < |rows| && r[i].studentName != "Unknown"
      ensures exists s :: s in students && s.id == rows[i].studentId && s.name == r[i].studentName
    {
      var f := Find((s: Student) => s.id == rows[i].studentId, students);
      assert f.Some?;
      var k :| 0 <= k < |students| && students[k] == f.value && f.value.id == rows[i].studentId;
      assert students[k] in students;
    }
  }

  /** The total column: `typeof total === "number" ? total.toFixed(1) : "0.0"`. */
  function TotalCell(total: Option<Score>): string
  {
    if total.Some? then ScoreFixed1(total.value) else "0.0"
  }

  /** A row without a total and a row whose total is zero show the same
      text, and every shown total has exactly one decimal. */
  lemma TotalCellShape(total: Option<Score>)
    ensures TotalCell(None) == TotalCell(Some(0)) == "0.0"
    ensures var r := TotalCell(total);
      |r| >= 3 && r[|r| - 2] == '.' && (r[|r| - 1] == '0' || r[|r| - 1] == '5')
  {
    assert NatText(0) == "0";
    if total.Some? {
      var m := if total.value < 0 then -total.value else total.value;
      var n := NatText(m / 2);
      assert |n| >= 1;
    }
  }

  // ---------------------------------------------------------------------
  // Editing a cell

  /** What a number input holds: empty, or a number of half-point units
      (the input steps by 0.5 from 0). */
  datatype Input = Blank | Number(units: Score)

  /** `value === "" ? null : Number.parseFloat(value)`. */
  function NumValue(input: Input): (v: Option<Score>)
    ensures input == Blank <==> v == None
    ensures input.Number? ==> v == Some(input.units)
  {
    match input
    case Blank => None
    case Number(u) => Some(u)
  }

  /** `grades.map(g => g.id === gradeId ? { ...g, [field]: v } : g)`. */
  function LocalEdit(rows: seq<ShownGrade>, gradeId: Id, f: Field, v: Option<Score>): (r: seq<ShownGrade>)
    ensures |r| == |rows|
    ensures forall i :: 0 <= i < |rows| && rows[i].row.id != gradeId ==> r[i] == rows[i]
    ensures forall i :: 0 <= i < |rows| && rows[i].row.id == gradeId ==>
      Get(r[i].row.components, f) == v
      && (forall h :: h != f ==> Get(r[i].row.components, h) == Get(rows[i].row.components, h))
      && r[i].row.(components := rows[i].row.components) == rows[i].row
      && r[i].studentName == rows[i].studentName
  {
    seq(|rows|, i requires 0 <= i < |rows| =>
      if rows[i].row.id == gradeId
      then rows[i].(row := rows[i].row.(components := Set(rows[i].row.components, f, v)))
      else rows[i])
  }

  function Rows(shown: seq<ShownGrade>): (r: seq<GradeRow>)
    ensures |r| == |shown| && forall i :: 0 <= i < |shown| ==> r[i] == shown[i].row
  {
    seq(|shown|, i requires 0 <= i < |shown| => shown[i].row)
  }

  /** The local edit shows exactly what the database write of the same cell
      stores. */
  lemma LocalEditMatchesWrite(rows: seq<ShownGrade>, gradeId: Id, f: Field, v: Option<Score>)
    ensures Rows(LocalEdit(rows, gradeId, f, v)) == SetGradeField(Rows(rows), gradeId, f, v)
  {
    var a := Rows(LocalEdit(rows, gradeId, f, v));
    var b := SetGradeField(Rows(rows), gradeId, f, v);
    forall i | 0 <= i < |a|
      ensures a[i] == b[i]
    {
      if rows[i].row.id == gradeId {
        ComponentsExt(a[i].components, b[i].components);
      }
    }
  }

  /** The write sets the cell whatever the row's lock and whatever the value:
      a locked row is written and no maximum is applied. */
  lemma WriteIgnoresLockAndMaximum(t: seq<GradeRow>, gradeId: Id, f: Field, units: Score, i: nat)
    requires i < |t| && t[i].id == gradeId && t[i].isLocked
    ensures Get(SetGradeField(t, gradeId, f, Some(units))[i].components, f) == Some(units)
    ensures SetGradeField(t, gradeId, f, Some(units))[i].isLocked
  {
  }

  // ---------------------------------------------------------------------
  // Loading a class

  /** How a `fetchGrades(classId)` run ends. */
  datatype Fetch =
    | Skip                                          // no class chosen: nothing happens
    | NoSession                                     // the session check throws
    | NoSubject                                     // no subject: the table empties
    | RowsFailed(subject: string)                   // the grade read throws
    | Shown(subject: string, rows: seq<ShownGrade>) // the table is replaced

  /** The outcome of `fetchGrades(classId)` over the tables it reads. Call 0
      reads the teacher's subjects in the class (a failure reads as no
      subject), call 1 the grade rows of the first subject (a failure
      throws) and call 2 the class's students (a failure reads as none). */
  function FetchView(t: seq<Assignment>, g: seq<GradeRow>, students: seq<Student>,
                     classId: Id, session: Option<Id>, faults: set<nat>): Fetch
  {
    if classId == "" then Skip
    else if session.None? then NoSession
    else
      var subjects := if 0 in faults then [] else TeacherSubjects(t, classId, session.value);
      match ChosenSubject(subjects)
      case None => NoSubject
      case Some(subject) => SubjectView(g, students, classId, subject, session.value, faults)
  }

  /** The part of a run after `subject` is chosen: the grade read (call 1)
      throws, or the rows are shown with the names of the students read by
      call 2. */
  function SubjectView(g: seq<GradeRow>, students: seq<Student>, classId: Id, subject: string,
                       teacher: Id, faults: set<nat>): (v: Fetch)
    ensures v.RowsFailed? || v.Shown?
    ensures v.RowsFailed? <==> 1 in faults
    ensures v.subject == subject
  {
    if 1 in faults then RowsFailed(subject)
    else
      var readStudents := if 2 in faults then [] else ClassStudents(students, classId);
      Shown(subject, Enrich(ShownRows(g, classId, subject, teacher), readStudents))
  }

  /** What a `fetchGrades` run shows: nothing without a class; an error
      without a session; an empty table when the subject read fails, when the
      teacher has no assignment in the class or when the least subject is
      empty; otherwise the least subject, and then an error when the grade
      read fails or else exactly that subject's rows of the teacher in the
      class, sorted by student id. */
  lemma FetchViewSpec(t: seq<Assignment>, g: seq<GradeRow>, students: seq<Student>,
                      classId: Id, session: Option<Id>, faults: set<nat>, v: Fetch)
    requires v == FetchView(t, g, students, classId, session, faults)
    ensures classId == "" <==> v.Skip?
    ensures v.NoSession? <==> classId != "" && session.None?
    ensures v.NoSubject? <==>
      classId != "" && session.Some? && (0 in faults || NoneOrBlank(t, classId, session.value))
    ensures v.RowsFailed? || v.Shown? ==>
      session.Some? && 0 !in faults && v.subject != ""
      && (exists a :: a in t && Teaches(a, classId, session.value) && a.subject == v.subject)
      && (forall a :: a in t && Teaches(a, classId, session.value) ==> TextLe(v.subject, a.subject))
    ensures v.RowsFailed? <==> classId != "" && session.Some? && !v.NoSubject? && 1 in faults
    ensures v.Shown? ==>
      |v.rows| == |ShownRows(g, classId, v.subject, session.value)|
      && (forall i :: 0 <= i < |v.rows| ==> v.rows[i].row == ShownRows(g, classId, v.subject, session.value)[i])
  {
    if classId != "" && session.Some? {
      ChosenSubjectIsFirst(t, classId, session.value);
      ChosenSubjectBlank(t, classId, session.value);
    }
  }

  /** The subject the page holds after a run: cleared with no subject, set
      before the grade read. */
  function SubjectAfter(v: Fetch, before: Option<string>): (r: Option<string>)
    ensures v.NoSubject? ==> r == None
    ensures v.RowsFailed? || v.Shown? ==> r == Some(v.subject)
    ensures v.Skip? || v.NoSession? ==> r == before
  {
    match v
    case NoSubject => None
    case RowsFailed(subject) => Some(subject)
    case Shown(subject, _) => Some(subject)
    case _ => before
  }

  /** The rows the page holds after a run: emptied with no subject,
      replaced when shown, and kept otherwise. */
  function GradesAfter(v: Fetch, before: seq<ShownGrade>): (r: seq<ShownGrade>)
    ensures v.NoSubject? ==> r == []
    ensures v.Shown? ==> r == v.rows
    ensures v.Skip? || v.NoSession? || v.RowsFailed? ==> r == before
  {
    match v
    case NoSubject => []
    case Shown(_, rows) => rows
    case _ => before
  }

  /** The calls a `fetchGrades` run makes, in order. */
  function FetchCalls(v: Fetch): (r: seq<Call>)
    ensures v.Skip? || v.NoSession? <==> r == []
    ensures r != [] ==> r[0] == Select(ClassAssignments)
  {
    match v
    case Skip => []
    case NoSession => []
    case NoSubject => [Select(ClassAssignments)]
    case _ => [Select(ClassAssignments)] + SubjectCalls(v)
  }

  /** The calls after the subject is chosen: the grade read, then the
      student read unless the grade read failed. */
  function SubjectCalls(v: Fetch): (r: seq<Call>)
    ensures v.Shown? <==> |r| == 2
  {
    match v
    case RowsFailed(_) => [Select(Grades)]
    case Shown(_, _) => [Select(Grades), Select(Students)]
    case _ => []
  }

  lemma AppendAssociates(a: seq<Call>, b: seq<Call>, c: seq<Call>)
    ensures (a + b) + c == a + (b + c)
  {
  }

  // ---------------------------------------------------------------------
  // The page

  /** The page's state. `error` stands for the message box being shown. */
  class GradesPage {
    var classes: seq<ClassEntry>
    var selectedClass: Id
    var currentSubject: Option<string>
    var grades: seq<ShownGrade>
    var error: bool

    constructor ()
      ensures classes == [] && selectedClass == "" && currentSubject == None && grades == [] && !error
    {
      classes, selectedClass, currentSubject, grades, error := [], "", None, [], false;
    }

    /** `fetchTeacherClasses` on mount; `readOk` says whether its one read succeeds. */
    method FetchTeacherClasses(db: Db, session: Option<Id>, readOk: bool)
      modifies this`classes, this`error, db`log
      ensures db.log == if session.None? then old(db.log) else old(db.log) + [Select(ClassAssignments)]
      ensures var r := GradeClasses(session, old(db.assignments), old(db.classes), readOk);
        (r.Some? ==> classes == r.value && error == old(error))
        && (r.None? ==> classes == old(classes) && error)
    {
      if session.Some? {
        db.Read(ClassAssignments);
      }
      var r := GradeClasses(session, db.assignments, db.classes, readOk);
      if r.Some? {
        classes := r.value;
      } else {
        error := true;
      }
    }

    /** `fetchGrades(classId)`: the reads and the page state `FetchView`
        describes. */
    method FetchGrades(db: Db, classId: Id, session: Option<Id>, faults: set<nat>)
      modifies this`currentSubject, this`grades, this`error, db`log
      ensures var v := FetchView(old(db.assignments), old(db.grades), old(db.students), classId, session, faults);
        db.log == old(db.log) + FetchCalls(v)
        && currentSubject == SubjectAfter(v, old(currentSubject))
        && grades == GradesAfter(v, old(grades))
        && error == (v.NoSession? || v.RowsFailed? || old(error))
    {
      if classId == "" {
        return;
      }
      if session.None? {
        error := true;
        return;
      }
      db.Read(ClassAssignments);
      var subjects := if 0 in faults then [] else TeacherSubjects(db.assignments, classId, session.value);
      var chosen := ChosenSubject(subjects);
      if chosen.None? {
        grades, currentSubject := [], None;
        return;
      }
      currentSubject := chosen;
      ghost var before := db.log;
      ShowSubject(db, classId, chosen.value, session.value, faults);
      ghost var v := SubjectView(db.grades, db.students, classId, chosen.value, session.value, faults);
      AppendAssociates(old(db.log), [Select(ClassAssignments)], SubjectCalls(v));
    }

    /** The reads after the subject is chosen, as `SubjectView` describes them. */
    method ShowSubject(db: Db, classId: Id, subject: string, teacher: Id, faults: set<nat>)
      modifies this`grades, this`error, db`log
      ensures var v := SubjectView(old(db.grades), old(db.students), classId, subject, teacher, faults);
        db.log == old(db.log) + SubjectCalls(v)
        && grades == GradesAfter(v, old(grades))
        && error == (v.RowsFailed? || old(error))
    {
      var v := SubjectView(db.grades, db.students, classId, subject, teacher, faults);
      db.Read(Grades);
      if 1 in faults {
        error := true;
        return;
      }
      db.Read(Students);
      grades := v.rows;
    }

    /** Choosing a class in the picker. */
    method SelectClass(db: Db, value: Id, session: Option<Id>, faults: set<nat>)
      modifies this`selectedClass, this`currentSubject, this`grades, this`error, db`log
      ensures selectedClass == value
      ensures var v := FetchView(db.assignments, db.grades, db.students, value, session, faults);
        db.log == old(db.log) + FetchCalls(v)
        && currentSubject == SubjectAfter(v, old(currentSubject))
        && grades == GradesAfter(v, old(grades))
        && error == (v.NoSession? || v.RowsFailed? || old(error))
    {
      selectedClass := value;
      FetchGrades(db, value, session, faults);
    }

    /** A cell's `onChange`: the shown row changes at once, nothing is written. */
    method EditCell(gradeId: Id, f: Field, input: Input)
      modifies this`grades
      ensures grades == LocalEdit(old(grades), gradeId, f, NumValue(input))
    {
      grades := LocalEdit(grades, gradeId, f, NumValue(input));
    }

    /** A cell's `onBlur`: `handleGradeChange` writes that one column of that
        one grade id (call 0, `updateOk`) and on success reloads the selected
        class (`readFaults` numbering the reload's calls); a failed write
        shows the error. The row's lock and the schema maxima are not read. */
    method HandleGradeChange(db: Db, gradeId: Id, f: Field, input: Input, session: Option<Id>,
                             updateOk: bool, readFaults: set<nat>)
      requires db.Valid()
      modifies db`grades, db`log, this`currentSubject, this`grades, this`error
      ensures db.Valid()
      ensures db.grades == if updateOk then SetGradeField(old(db.grades), gradeId, f, NumValue(input))
                           else old(db.grades)
      ensures !updateOk ==>
        db.log == old(db.log) + [Update(Grades, gradeId, [ColumnName(f)])]
        && error && grades == old(grades) && currentSubject == old(currentSubject)
      ensures updateOk ==>
        var v := FetchView(db.assignments, db.grades, db.students, selectedClass, session, readFaults);
        db.log == old(db.log) + [Update(Grades, gradeId, [ColumnName(f)])] + FetchCalls(v)
        && currentSubject == SubjectAfter(v, old(currentSubject))
        && grades == GradesAfter(v, old(grades))
        && error == (v.NoSession? || v.RowsFailed? || old(error))
    {
      db.UpdateGrade(gradeId, f, NumValue(input), updateOk);
      if !updateOk {
        error := true;
        return;
      }
      FetchGrades(db, selectedClass, session, readFaults);
    }
  }
}
