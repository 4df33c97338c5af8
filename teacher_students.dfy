/** The teacher's student page (app/teacher/students/page.tsx): the list of
    classes the teacher teaches, and adding a student, which enrolls the new
    student in every subject taught in the class. */
module TeacherStudents {
  import opened Common
  import opened Calendar
  import opened Records
  import opened Database

  // ---------------------------------------------------------------------
  // The class picker

  /** `.filter((cls, index, self) => index === self.findIndex(c => c.id === cls.id))`
      after skipping the ids in `seen`: an entry is kept exactly when no
      earlier entry has its id. */
  function UniqueAfter(es: seq<ClassEntry>, seen: set<Id>): (r: seq<ClassEntry>)
    ensures forall e :: e in r ==> e in es && e.id !in seen
    ensures forall i, j :: 0 <= i < j < |r| ==> r[i].id != r[j].id
  {
    if es == [] then []
    else
      assert forall e :: e in es <==> e == es[0] || e in es[1..];
      if es[0].id in seen then UniqueAfter(es[1..], seen)
      else
        var rest := UniqueAfter(es[1..], seen + {es[0].id});
        var r := [es[0]] + rest;
        assert forall e :: e in r <==> e == es[0] || e in rest;
        assert forall j :: 0 < j < |r| ==> r[j] in rest;
        r
  }

  /** The teacher's classes, one entry per distinct class id, at its first
      occurrence. */
  function UniqueClasses(es: seq<ClassEntry>): (r: seq<ClassEntry>)
  {
    UniqueAfter(es, {})
  }

  /** The picker lists each class id of `es` once, in the order the ids first
      occur, starting with the first entry. */
  lemma {:induction false} UniqueClassesIds(es: seq<ClassEntry>, seen: set<Id>)
    ensures Ids(UniqueAfter(es, seen), EntryId) == DistinctAfter(Ids(es, EntryId), seen)
    decreases |es|
  {
    if es != [] {
      EntryIdsSplit(es);
      if es[0].id in seen {
        UniqueClassesIds(es[1..], seen);
      } else {
        var rest := UniqueAfter(es[1..], seen + {es[0].id});
        UniqueClassesIds(es[1..], seen + {es[0].id});
        EntryIdsSplit([es[0]] + rest);
        assert ([es[0]] + rest)[1..] == rest;
      }
    }
  }

  /** The ids of a non-empty list are its first id and the ids of the rest. */
  lemma EntryIdsSplit(es: seq<ClassEntry>)
    requires es != []
    ensures Ids(es, EntryId) == [es[0].id] + Ids(es[1..], EntryId)
  {
    assert Ids(es, EntryId)[1..] == Ids(es[1..], EntryId);
  }

  /** `fetchTeacherClasses`: the classes of the session teacher's assignments.
      Without a session, on a failed read, or when a class row is missing,
      the page throws and the list stays empty. */
  function TeacherClasses(session: Option<Id>, t: seq<Assignment>, classes: seq<ClassRow>, readOk: bool)
    : (r: seq<ClassEntry>)
    ensures forall i, j :: 0 <= i < j < |r| ==> r[i].id != r[j].id
    ensures forall e :: e in r ==> session.Some? && exists a :: a in t && a.teacherId == session.value && a.classId == e.id
  {
    if session.None? || !readOk then []
    else
      var mine := Filter((a: Assignment) => a.teacherId == session.value, t);
      match ClassEntries(mine, classes)
      case None => []
      case Some(es) =>
        var r := UniqueClasses(es);
        assert forall e :: e in r ==> exists a :: a in mine && a.classId == e.id by {
          forall e | e in r
            ensures exists a :: a in mine && a.classId == e.id
          {
            var i :| 0 <= i < |es| && es[i] == e;
            assert mine[i] in mine;
          }
        }
        r
  }

  /** With a session, a successful read and every class row present, every
      class the teacher teaches in is listed. */
  lemma TeacherClassesCover(session: Id, t: seq<Assignment>, classes: seq<ClassRow>, a: Assignment)
    requires forall b :: b in t ==> JoinedName(classes, b.classId).Some?
    requires a in t && a.teacherId == session
    ensures exists e :: e in TeacherClasses(Some(session), t, classes, true) && e.id == a.classId
  {
    var mine := Filter((b: Assignment) => b.teacherId == session, t);
    assert a in mine;
    ClassEntriesPresent(mine, classes);
    var es := ClassEntries(mine, classes).value;
    assert TeacherClasses(Some(session), t, classes, true) == UniqueClasses(es);
    var i :| 0 <= i < |mine| && mine[i] == a;
    assert Ids(es, EntryId)[i] == a.classId;
    UniqueClassesCover(es, a.classId);
  }

  /** Every class id of the entries is listed. */
  lemma UniqueClassesCover(es: seq<ClassEntry>, id: Id)
    requires id in Ids(es, EntryId)
    ensures exists e :: e in UniqueClasses(es) && e.id == id
  {
    UniqueClassesIds(es, {});
    assert id in DistinctAfter(Ids(es, EntryId), {});
    var r := UniqueClasses(es);
    var k :| 0 <= k < |r| && Ids(r, EntryId)[k] == id;
    assert r[k] in r;
  }

  /** `if (uniqueClasses.length > 0) setSelectedClass(uniqueClasses[0].id)`:
      the first class is selected; with no class the selection keeps its
      previous value. */
  function AutoSelect(list: seq<ClassEntry>, previous: Id): (selected: Id)
    ensures list != [] ==> selected == list[0].id && selected in Ids(list, EntryId)
    ensures list == [] ==> selected == previous
  {
    if |list| > 0 then list[0].id else previous
  }

  // ---------------------------------------------------------------------
  // Adding a student

  /** How `handleAddStudent` ends. */
  datatype AddOutcome =
    | MissingInput          // alert: the name or the class is missing
    | NotSignedIn           // no session: "Not authenticated" is thrown
    | NoSubjects            // alert: the class has no assignments yet
    | InsertFailed          // the student insert returned an error
    | Enrolled(studentId: Id)

  /** The grade inserts of a fan-out over `n` assignments. */
  function GradeInserts(n: nat): (r: seq<Call>)
    ensures |r| == n && forall i :: 0 <= i < n ==> r[i] == Insert(Grades)
  {
    seq(n, _ => Insert(Grades))
  }

  /** The assignments among the first `n` whose grade insert took effect;
      the inserts are calls `2, 3, ...`. */
  function Succeeded(subjects: seq<Assignment>, faults: set<nat>, n: nat): (r: seq<Assignment>)
    requires n <= |subjects|
    ensures |r| <= n
  {
    if n == 0 then []
    else Succeeded(subjects, faults, n - 1) + (if 2 + (n - 1) in faults then [] else [subjects[n - 1]])
  }

  /** `g` is `g0` followed by the enrollment rows of `studentId` in
      `classId` for `subjects`, in order. */
  predicate AddsEnrollment(g0: seq<GradeRow>, g: seq<GradeRow>, studentId: Id, classId: Id,
                     subjects: seq<Assignment>)
  {
    |g| == |g0| + |subjects| && g[..|g0|] == g0
    && EnrollmentRows(g[|g0|..], studentId, classId, subjects)
  }

  /** One more enrollment row keeps the rows so far. */
  lemma EnrolledSnoc(g0: seq<GradeRow>, g: seq<GradeRow>, g': seq<GradeRow>, studentId: Id,
                     classId: Id, subjects: seq<Assignment>, a: Assignment)
    requires AddsEnrollment(g0, g, studentId, classId, subjects)
    requires |g'| == |g| + 1 && g'[..|g|] == g && EnrollmentRow(g'[|g|], studentId, classId, a)
    ensures AddsEnrollment(g0, g', studentId, classId, subjects + [a])
  {
    assert g'[..|g0|] == g[..|g0|];
    var rows := g'[|g0|..];
    forall i | 0 <= i < |rows|
      ensures EnrollmentRow(rows[i], studentId, classId, (subjects + [a])[i])
    {
      if i < |subjects| {
        assert rows[i] == g[|g0|..][i];
      }
    }
  }

  /** The `for (const assignment of classAssignments)` loop: one grade insert
      per assignment, results unchecked. */
  method EnrollInSubjects(db: Db, studentId: Id, classId: Id, subjects: seq<Assignment>,
                          faults: set<nat>, now: DateTime)
    requires db.Valid()
    modifies db`grades, db`log
    ensures db.Valid()
    ensures AddsEnrollment(old(db.grades), db.grades, studentId, classId, Succeeded(subjects, faults, |subjects|))
    ensures db.log == old(db.log) + GradeInserts(|subjects|)
  {
    ghost var g0 := db.grades;
    ghost var log0 := db.log;
    assert g0[|g0|..] == [] && g0[..|g0|] == g0;
    var i := 0;
    while i < |subjects|
      invariant 0 <= i <= |subjects|
      invariant db.Valid()
      invariant AddsEnrollment(g0, db.grades, studentId, classId, Succeeded(subjects, faults, i))
      invariant db.log == log0 + GradeInserts(i)
    {
      ghost var before := db.grades;
      db.InsertGrade(studentId, classId, subjects[i], now, 2 + i !in faults);
      if 2 + i !in faults {
        EnrolledSnoc(g0, before, db.grades, studentId, classId, Succeeded(subjects, faults, i), subjects[i]);
      } else {
        assert Succeeded(subjects, faults, i + 1) == Succeeded(subjects, faults, i) + [];
      }
      assert GradeInserts(i) + [Insert(Grades)] == GradeInserts(i + 1);
      i := i + 1;
    }
  }

  /** When no insert fails, every assignment is enrolled. */
  lemma {:induction false} SucceededAll(subjects: seq<Assignment>, faults: set<nat>, n: nat)
    requires n <= |subjects|
    requires forall c :: 2 <= c < 2 + n ==> c !in faults
    ensures Succeeded(subjects, faults, n) == subjects[..n]
  {
    if n > 0 {
      SucceededAll(subjects, faults, n - 1);
      assert subjects[..n] == subjects[..n - 1] + [subjects[n - 1]];
    }
  }

  /** A failed insert leaves its assignment out. */
  lemma {:induction false} SucceededFewer(subjects: seq<Assignment>, faults: set<nat>, n: nat, c: nat)
    requires n <= |subjects|
    requires 2 <= c < 2 + n && c in faults
    ensures |Succeeded(subjects, faults, n)| < n
  {
    if c < 2 + (n - 1) {
      SucceededFewer(subjects, faults, n - 1, c);
    }
  }

  /** `handleAddStudent` for the selected class. Call 0 reads the class's
      assignments (of every teacher), call 1 inserts the student and calls
      `2 ..` insert one grade row per assignment; `faults` holds the calls
      that fail. `now` is the time the database stamps on new grade rows. */
  method AddStudent(db: Db, name: string, seatNumber: string, selectedClass: Id,
                    session: Option<Id>, faults: set<nat>, now: DateTime)
    returns (outcome: AddOutcome)
    requires db.Valid()
    modifies db`students, db`grades, db`log
    ensures db.Valid()
    ensures db.assignments == old(db.assignments)
    ensures outcome == MissingInput <==> name == "" || selectedClass == ""
    ensures outcome == NotSignedIn <==> name != "" && selectedClass != "" && session.None?
    ensures outcome in {MissingInput, NotSignedIn} ==>
      db.students == old(db.students) && db.grades == old(db.grades) && db.log == old(db.log)
    ensures name != "" && selectedClass != "" && session.Some? ==>
      var subjects := Snapshot(old(db.assignments), selectedClass, 0 !in faults);
      (subjects == [] ==>
        outcome == NoSubjects && db.students == old(db.students) && db.grades == old(db.grades)
        && db.log == old(db.log) + [Select(ClassAssignments)])
      && (subjects != [] && 1 in faults ==>
        outcome == InsertFailed && db.students == old(db.students) && db.grades == old(db.grades)
        && db.log == old(db.log) + [Select(ClassAssignments), Insert(Students)])
      && (subjects != [] && 1 !in faults ==>
        outcome.Enrolled? && outcome.studentId !in Ids(old(db.students), StudentId)
        && (forall g :: g in old(db.grades) ==> g.studentId != outcome.studentId)
        && db.students == old(db.students) + [Student(outcome.studentId, name, selectedClass, seatNumber, None)]
        && AddsEnrollment(old(db.grades), db.grades, outcome.studentId, selectedClass,
                    Succeeded(subjects, faults, |subjects|))
        && db.log == old(db.log) + [Select(ClassAssignments), Insert(Students)] + GradeInserts(|subjects|))
  {
    if name == "" || selectedClass == "" {
      return MissingInput;
    }
    if session.None? {
      return NotSignedIn;
    }
    db.Read(ClassAssignments);
    var subjects := Snapshot(db.assignments, selectedClass, 0 !in faults);
    if |subjects| == 0 {
      return NoSubjects;
    }
    var id := db.InsertStudent(name, selectedClass, seatNumber, 1 !in faults);
    if id.None? {
      return InsertFailed;
    }
    EnrollInSubjects(db, id.value, selectedClass, subjects, faults, now);
    outcome := Enrolled(id.value);
  }

  /** With every grade insert succeeding, the new student gets exactly one
      grade row per assignment of the class, in order: the student, the
      class, that assignment's teacher and subject, no component and no total. */
  lemma EnrollmentComplete(g0: seq<GradeRow>, g: seq<GradeRow>, studentId: Id, classId: Id,
                           subjects: seq<Assignment>, faults: set<nat>)
    requires AddsEnrollment(g0, g, studentId, classId, Succeeded(subjects, faults, |subjects|))
    requires forall c :: 2 <= c < 2 + |subjects| ==> c !in faults
    ensures |g| == |g0| + |subjects| && g[..|g0|] == g0
    ensures forall i :: 0 <= i < |subjects| ==> EnrollmentRow(g[|g0| + i], studentId, classId, subjects[i])
  {
    SucceededAll(subjects, faults, |subjects|);
    assert subjects[..|subjects|] == subjects;
    forall i | 0 <= i < |subjects|
      ensures EnrollmentRow(g[|g0| + i], studentId, classId, subjects[i])
    {
      assert g[|g0|..][i] == g[|g0| + i];
    }
  }

  /** The grade inserts are unchecked: when one fails, the student still
      counts as added but has fewer grade rows than the class has subjects. */
  lemma PartialEnrollment(g0: seq<GradeRow>, g: seq<GradeRow>, studentId: Id, classId: Id,
                          subjects: seq<Assignment>, faults: set<nat>, c: nat)
    requires AddsEnrollment(g0, g, studentId, classId, Succeeded(subjects, faults, |subjects|))
    requires 2 <= c < 2 + |subjects| && c in faults
    ensures |g| < |g0| + |subjects|
  {
    SucceededFewer(subjects, faults, |subjects|, c);
  }
}
