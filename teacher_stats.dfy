/** The teacher's summary pages: the dashboard's per-class statistics
    (app/teacher/dashboard/page.tsx) and the classes page's per-assignment
    cards with their progress bars (app/teacher/classes/page.tsx). Each
    page reads its assignments first and then, for each class or
    assignment, a student count and some grade totals; these reads are
    numbered in that order, and the `k`-th fails when `k` is in `faults`. */
module TeacherStats {
  import opened Common
  import opened Records
  import opened Database
  import opened Calendar
  import opened TeacherGrades

  /** A time of update, for the examples. */
  const Stamp := DateTime(Date(2025, 3, 3), 9, 0, 0, 0)

  // ---------------------------------------------------------------------
  // Shared counts

  /** `g.total > 0`: a missing total compares as false. */
  predicate IsGraded(g: GradeRow)
  {
    g.total.Some? && g.total.value > 0
  }

  /** `g.total || 0`. */
  function TotalOrZero(g: GradeRow): Score
  {
    if g.total.Some? then g.total.value else 0
  }

  /** `grades.reduce((sum, g) => sum + (g.total || 0), 0)`, in half points. */
  function TotalSum(rows: seq<GradeRow>): int
    decreases |rows|
  {
    if rows == [] then 0 else TotalSum(rows[..|rows| - 1]) + TotalOrZero(rows[|rows| - 1])
  }

  /** The sum stays within the row count times the bounds of the totals. */
  lemma {:induction false} TotalSumBounds(rows: seq<GradeRow>, lo: int, hi: int)
    requires forall g :: g in rows ==> lo <= TotalOrZero(g) <= hi
    ensures |rows| * lo <= TotalSum(rows) <= |rows| * hi
    decreases |rows|
  {
    if rows != [] {
      var pre := rows[..|rows| - 1];
      var last := rows[|rows| - 1];
      assert forall g :: g in pre ==> g in rows;
      assert last in rows;
      TotalSumBounds(pre, lo, hi);
      var n := |pre|;
      assert TotalSum(rows) == TotalSum(pre) + TotalOrZero(last);
      assert (n + 1) * lo == n * lo + lo && (n + 1) * hi == n * hi + hi;
    }
  }

  /** `count || 0`: the size of the class, or 0 when the count failed. */
  function StudentCount(students: seq<Student>, classId: Id, ok: bool): (r: nat)
    ensures ok ==> r == |ClassStudents(students, classId)|
    ensures !ok ==> r == 0
  {
    if ok then |ClassStudents(students, classId)| else 0
  }

  // ---------------------------------------------------------------------
  // The dashboard

  /** `Math.round(x)` of `x = 100 * (sum / 2) / n`: the average of `n`
      totals summing to `sum` half points, in hundredths of a point,
      rounded half up. */
  function AverageHundredths(sum: int, n: nat): int
  {
    if n == 0 then 0 else (100 * sum + n) / (2 * n)
  }

  /** The rounded average is the hundredth nearest the exact one: it is
      off by at most half a hundredth, and a tie goes up. */
  lemma AverageNearest(sum: int, n: nat)
    requires n > 0
    ensures -(n as int) <= 100 * sum - 2 * n * AverageHundredths(sum, n) < n
  {
    var a := AverageHundredths(sum, n);
    var q := 100 * sum + n;
    assert q == (2 * n) * a + q % (2 * n);
  }

  /** `c * x <= c * y` for `x <= y` and `c >= 0`. */
  lemma MulLe(c: int, x: int, y: int)
    requires c >= 0 && x <= y
    ensures c * x <= c * y
  {
    assert c * y - c * x == c * (y - x);
  }

  /** A sum between 0 and `n * hi` half points averages between 0 and `hi`
      half points. */
  lemma AverageRange(s: int, n: nat, hi: int)
    requires n > 0 && 0 <= s <= n * hi
    ensures 0 <= AverageHundredths(s, n) <= 50 * hi
  {
    var a := AverageHundredths(s, n);
    AverageNearest(s, n);
    MulLe(100, s, n * hi);
    if a > 50 * hi {
      MulLe(2 * n, 50 * hi + 1, a);
      assert false;
    }
    if a < 0 {
      MulLe(2 * n, a, -1);
      assert false;
    }
  }

  /** Totals between 0 and `hi` half points average between 0 and `hi`
      half points. */
  lemma AverageBounds(rows: seq<GradeRow>, hi: int)
    requires rows != []
    requires forall g :: g in rows ==> 0 <= TotalOrZero(g) <= hi
    ensures 0 <= AverageHundredths(TotalSum(rows), |rows|) <= 50 * hi
  {
    TotalSumBounds(rows, 0, hi);
    AverageRange(TotalSum(rows), |rows|, hi);
  }

  /** One dashboard card. `averageTotal` is in hundredths of a point. */
  datatype ClassStats = ClassStats(
    className: string, studentCount: nat, gradedCount: nat, pendingCount: int, averageTotal: int)

  /** `.from("grades").select("total").eq("class_id", c).eq("teacher_id", teacher)`. */
  function TeacherClassRows(g: seq<GradeRow>, classId: Id, teacher: Id): (r: seq<GradeRow>)
    ensures forall x :: x in r <==> x in g && x.classId == classId && x.teacherId == teacher
  {
    Filter((x: GradeRow) => x.classId == classId && x.teacherId == teacher, g)
  }

  /** The card of one class: a failed grade read leaves no rows, hence
      nothing graded and an average of 0. */
  function StatsFor(e: ClassEntry, students: seq<Student>, g: seq<GradeRow>, teacher: Id,
                    countOk: bool, gradesOk: bool): (r: ClassStats)
    ensures r.className == e.name
    ensures r.studentCount == StudentCount(students, e.id, countOk)
    ensures r.pendingCount == r.studentCount - r.gradedCount
    ensures gradesOk ==> r.gradedCount == Count(IsGraded, TeacherClassRows(g, e.id, teacher))
    ensures gradesOk ==>
      r.averageTotal == AverageHundredths(TotalSum(TeacherClassRows(g, e.id, teacher)),
                                          |TeacherClassRows(g, e.id, teacher)|)
    ensures !gradesOk ==> r.gradedCount == 0 && r.averageTotal == 0
  {
    var rows := if gradesOk then TeacherClassRows(g, e.id, teacher) else [];
    var students := StudentCount(students, e.id, countOk);
    var graded := Count(IsGraded, rows);
    ClassStats(e.name, students, graded, students - graded, AverageHundredths(TotalSum(rows), |rows|))
  }

  /** The cards of `entries`, the `i`-th reading with calls `first + 2i`
      (the count) and `first + 2i + 1` (the totals). */
  function StatsList(entries: seq<ClassEntry>, students: seq<Student>, g: seq<GradeRow>, teacher: Id,
                     faults: set<nat>, first: nat): (r: seq<ClassStats>)
    ensures |r| == |entries|
    ensures forall i :: 0 <= i < |entries| ==>
      r[i] == StatsFor(entries[i], students, g, teacher, first + 2 * i !in faults, first + 2 * i + 1 !in faults)
  {
    seq(|entries|, i requires 0 <= i < |entries| =>
      StatsFor(entries[i], students, g, teacher, first + 2 * i !in faults, first + 2 * i + 1 !in faults))
  }

  /** `fetchStats`: `None` when it throws (no session, or a class row
      missing from the join) and the cards stay as they were; a failed
      assignment read lists no class. The distinct classes are taken in
      the order the `Map` keeps them. */
  function DashboardStats(session: Option<Id>, t: seq<Assignment>, classes: seq<ClassRow>,
                          students: seq<Student>, g: seq<GradeRow>, faults: set<nat>): Option<seq<ClassStats>>
  {
    if session.None? then None
    else
      var mine := if 0 in faults then [] else TeacherAssignments(t, session.value);
      match ClassEntries(MapValues(mine), classes)
      case None => None
      case Some(entries) => Some(StatsList(entries, students, g, session.value, faults, 1))
  }

  /** One card per distinct class the teacher has an assignment in, no
      class twice, each with the class's own counts. */
  lemma DashboardSpec(session: Id, t: seq<Assignment>, classes: seq<ClassRow>,
                      students: seq<Student>, g: seq<GradeRow>, faults: set<nat>)
    requires 0 !in faults
    requires forall b :: b in t ==> JoinedName(classes, b.classId).Some?
    ensures var r := DashboardStats(Some(session), t, classes, students, g, faults);
      var values := MapValues(TeacherAssignments(t, session));
      r.Some? && |r.value| == |values|
      && (forall i, j :: 0 <= i < j < |values| ==> values[i].classId != values[j].classId)
      && (forall a :: a in t && a.teacherId == session ==> a.classId in Ids(values, ClassOfAssignment))
      && (forall i :: 0 <= i < |values| ==>
            values[i] in t && values[i].teacherId == session
            && r.value[i].className == JoinedName(classes, values[i].classId).value)
  {
    var mine := TeacherAssignments(t, session);
    var values := MapValues(mine);
    MapValuesFacts(mine);
    assert forall b :: b in values ==> b in t;
    ClassEntriesPresent(values, classes);
    var entries := ClassEntries(values, classes).value;
    forall i | 0 <= i < |values|
      ensures entries[i].name == JoinedName(classes, values[i].classId).value
    {
      ClassEntryName(values, classes, i);
    }
  }

  /** The name of the `i`-th joined entry is its class row's name. */
  lemma {:induction false} ClassEntryName(mine: seq<Assignment>, classes: seq<ClassRow>, i: nat)
    requires ClassEntries(mine, classes).Some? && i < |mine|
    ensures JoinedName(classes, mine[i].classId) == Some(ClassEntries(mine, classes).value[i].name)
    decreases |mine|
  {
    if i > 0 {
      assert ClassEntries(mine[1..], classes).Some?;
      ClassEntryName(mine[1..], classes, i - 1);
    }
  }

  /** Pending is not clamped: a teacher with two subjects in a one-student
      class, both graded, sees one student and -1 pending. */
  lemma PendingCanBeNegative()
    ensures var e := ClassEntry("c1", "A");
      var s := [Student("s1", "Sara", "c1", "1", None)];
      var g := [GradeRow("g1", "s1", "c1", "t1", "Math", NoComponents, Some(20), false, Stamp),
                GradeRow("g2", "s1", "c1", "t1", "Science", NoComponents, Some(30), false, Stamp)];
      var r := StatsFor(e, s, g, "t1", true, true);
      r.studentCount == 1 && r.gradedCount == 2 && r.pendingCount == -1
  {
    var s := [Student("s1", "Sara", "c1", "1", None)];
    var g := [GradeRow("g1", "s1", "c1", "t1", "Math", NoComponents, Some(20), false, Stamp),
              GradeRow("g2", "s1", "c1", "t1", "Science", NoComponents, Some(30), false, Stamp)];
    assert ClassStudents(s, "c1") == s;
    assert TeacherClassRows(g, "c1", "t1") == g;
    assert Filter(IsGraded, g) == g;
  }

  /** A zero or missing total counts toward the average's row count but
      not toward graded, so a class of ungraded rows averages 0. */
  lemma UngradedRowsAverageZero(rows: seq<GradeRow>)
    requires forall x :: x in rows ==> !IsGraded(x) && TotalOrZero(x) == 0
    ensures Count(IsGraded, rows) == 0
    ensures AverageHundredths(TotalSum(rows), |rows|) == 0
  {
    TotalSumBounds(rows, 0, 0);
    if rows != [] {
      AverageRange(TotalSum(rows), |rows|, 0);
    }
  }

  // ---------------------------------------------------------------------
  // The classes page

  /** One card of the classes page. */
  datatype ClassDetail = ClassDetail(id: Id, name: string, subject: string, studentCount: nat, gradedCount: nat)

  /** `.eq("class_id", c).eq("teacher_id", teacher).eq("subject", subject)`. */
  function SubjectRows(g: seq<GradeRow>, a: Assignment, teacher: Id): (r: seq<GradeRow>)
    ensures forall x :: x in r <==> x in g && x.classId == a.classId && x.teacherId == teacher && x.subject == a.subject
  {
    Filter((x: GradeRow) => x.classId == a.classId && x.teacherId == teacher && x.subject == a.subject, g)
  }

  /** The card of one assignment; `None` when its class row is missing. */
  function DetailFor(a: Assignment, classes: seq<ClassRow>, students: seq<Student>, g: seq<GradeRow>,
                     teacher: Id, countOk: bool, gradesOk: bool): (r: Option<ClassDetail>)
    ensures r.None? <==> JoinedName(classes, a.classId).None?
    ensures r.Some? ==>
      r.value.id == a.classId && r.value.subject == a.subject
      && r.value.name == JoinedName(classes, a.classId).value
      && r.value.studentCount == StudentCount(students, a.classId, countOk)
      && r.value.gradedCount == if gradesOk then Count(IsGraded, SubjectRows(g, a, teacher)) else 0
  {
    match JoinedName(classes, a.classId)
    case None => None
    case Some(name) =>
      var graded := if gradesOk then Count(IsGraded, SubjectRows(g, a, teacher)) else 0;
      Some(ClassDetail(a.classId, name, a.subject, StudentCount(students, a.classId, countOk), graded))
  }

  /** Every assignment's class row is present in the join. */
  predicate AllJoined(mine: seq<Assignment>, classes: seq<ClassRow>)
  {
    forall a :: a in mine ==> JoinedName(classes, a.classId).Some?
  }

  /** The cards of `mine`, the `i`-th reading with calls `first + 2i` and
      `first + 2i + 1`; `None`, as `Promise.all` rejects, when one card
      throws. */
  function DetailList(mine: seq<Assignment>, classes: seq<ClassRow>, students: seq<Student>, g: seq<GradeRow>,
                      teacher: Id, faults: set<nat>, first: nat): (r: Option<seq<ClassDetail>>)
    ensures r.None? <==> !AllJoined(mine, classes)
    ensures r.Some? ==> |r.value| == |mine|
    ensures r.Some? ==> forall i :: 0 <= i < |mine| ==>
      Some(r.value[i]) == DetailFor(mine[i], classes, students, g, teacher, first + 2 * i !in faults, first + 2 * i + 1 !in faults)
  {
    if !AllJoined(mine, classes) then None
    else
      Some(seq(|mine|, i requires 0 <= i < |mine| && AllJoined(mine, classes) =>
        assert mine[i] in mine;
        DetailFor(mine[i], classes, students, g, teacher, first + 2 * i !in faults, first + 2 * i + 1 !in faults).value))
  }

  /** `fetchClasses`: `None` when it throws (no session, a failed
      assignment read, or a class row missing from the join), leaving the
      list as it was; no assignment gives no card. */
  function ClassDetails(session: Option<Id>, t: seq<Assignment>, classes: seq<ClassRow>,
                        students: seq<Student>, g: seq<GradeRow>, faults: set<nat>): Option<seq<ClassDetail>>
  {
    if session.None? || 0 in faults then None
    else
      var mine := TeacherAssignments(t, session.value);
      if mine == [] then Some([])
      else DetailList(mine, classes, students, g, session.value, faults, 1)
  }

  /** One card per assignment of the teacher, in order, so a class shows
      once for each subject the teacher has in it; no assignment gives an
      empty list. */
  lemma ClassDetailsSpec(session: Id, t: seq<Assignment>, classes: seq<ClassRow>,
                         students: seq<Student>, g: seq<GradeRow>, faults: set<nat>)
    requires 0 !in faults
    ensures var r := ClassDetails(Some(session), t, classes, students, g, faults);
      var mine := TeacherAssignments(t, session);
      (mine == [] ==> r == Some([]))
      && (r.None? <==> exists a :: a in t && a.teacherId == session && JoinedName(classes, a.classId).None?)
      && (r.Some? ==>
            |r.value| == |mine|
            && forall i :: 0 <= i < |mine| ==> r.value[i].id == mine[i].classId && r.value[i].subject == mine[i].subject)
  {
    var mine := TeacherAssignments(t, session);
    if mine != [] {
      var r := DetailList(mine, classes, students, g, session, faults, 1);
      if r.Some? {
        forall a | a in mine
          ensures JoinedName(classes, a.classId).Some?
        {
          var i :| 0 <= i < |mine| && mine[i] == a;
          assert Some(r.value[i]) == DetailFor(mine[i], classes, students, g, session, 1 + 2 * i !in faults, 1 + 2 * i + 1 !in faults);
        }
      }
    }
  }

  /** The progress bar's width, `graded / students * 100` percent, as the
      exact fraction `num / den`; 0 for a class without students. */
  datatype Fraction = Fraction(num: int, den: nat)

  function Progress(d: ClassDetail): (r: Fraction)
    ensures r.den > 0 && r.num >= 0
  {
    if d.studentCount > 0 then Fraction(100 * d.gradedCount, d.studentCount) else Fraction(0, 1)
  }

  /** The bar is empty exactly when nothing is graded or the class has no
      student, full exactly when as many rows are graded as there are
      students, and overflows past 100% when more rows are graded than
      there are students. */
  lemma ProgressSpec(d: ClassDetail)
    ensures Progress(d).num == 0 <==> d.gradedCount == 0 || d.studentCount == 0
    ensures d.studentCount > 0 ==>
      (Progress(d).num == 100 * Progress(d).den <==> d.gradedCount == d.studentCount)
      && (Progress(d).num > 100 * Progress(d).den <==> d.gradedCount > d.studentCount)
  {
  }
}
