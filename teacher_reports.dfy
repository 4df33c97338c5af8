/** The teacher's monthly report page (app/teacher/reports/page.tsx): the
    class picker, the report of one class over one calendar month, its
    attendance table, its grade table and its CSV export. */
module TeacherReports {
  import opened Common
  import opened Calendar
  import opened Records
  import opened Database
  import opened Ordering
  import opened Text
  import opened Cells
  import opened TeacherGrades

  // ---------------------------------------------------------------------
  // The class picker

  /** `fetchTeacherClasses` on this page: no session throws (the picker is
      left as it was, `None`); a failed read is not checked and lists no
      class; otherwise the same classes as the grade page. */
  function ReportClasses(session: Option<Id>, t: seq<Assignment>, classes: seq<ClassRow>, readOk: bool)
    : (r: Option<seq<ClassEntry>>)
    ensures session.None? ==> r.None?
    ensures session.Some? && !readOk ==> r == Some([])
    ensures session.Some? && readOk ==> r == GradeClasses(session, t, classes, true)
    ensures r.Some? ==> session.Some? && forall e :: e in r.value ==>
      exists a :: a in t && a.teacherId == session.value && a.classId == e.id
  {
    if session.None? then None
    else if readOk then GradeClasses(session, t, classes, true)
    else GradeClasses(session, [], classes, true)
  }

  // ---------------------------------------------------------------------
  // The reads of a report

  /** The teacher's grade rows of the class last updated in the window. */
  function WindowRows(g: seq<GradeRow>, classId: Id, teacher: Id, y: nat, m: nat): (r: seq<GradeRow>)
    requires 1 <= m <= 12
    ensures forall x :: x in r <==>
      x in g && x.classId == classId && x.teacherId == teacher && StampInWindow(x.updatedAt, y, m)
  {
    Filter((x: GradeRow) => x.classId == classId && x.teacherId == teacher && StampInWindow(x.updatedAt, y, m), g)
  }

  /** `.from("grades").select("*").eq("class_id", classId).eq("teacher_id", teacher)
      .gte("updated_at", start).lte("updated_at", end).order("student_id")`. */
  function WindowGrades(g: seq<GradeRow>, classId: Id, teacher: Id, y: nat, m: nat): seq<GradeRow>
    requires 1 <= m <= 12
  {
    SortBy(WindowRows(g, classId, teacher, y, m), StudentKey)
  }

  /** The report's rows are exactly the teacher's rows of the class whose
      last update falls in the month (up to 23:59:59 on its last day), all
      subjects together, sorted by student id. */
  lemma WindowGradesSpec(g: seq<GradeRow>, classId: Id, teacher: Id, y: nat, m: nat)
    requires 1 <= m <= 12
    ensures forall x :: x in WindowGrades(g, classId, teacher, y, m) <==>
      x in g && x.classId == classId && x.teacherId == teacher && StampInWindow(x.updatedAt, y, m)
    ensures multiset(WindowGrades(g, classId, teacher, y, m)) == multiset(WindowRows(g, classId, teacher, y, m))
    ensures SortedBy(WindowGrades(g, classId, teacher, y, m), StudentKey)
  {
    var rows := WindowRows(g, classId, teacher, y, m);
    var r := SortBy(rows, StudentKey);
    assert forall x :: x in r <==> x in multiset(r);
    assert forall x :: x in rows <==> x in multiset(rows);
  }

  /** `.from("attendance").select("*").eq("class_id", classId).eq("teacher_id", teacher)
      .gte("attendance_date", start).lte("attendance_date", end)`. */
  function WindowAttendance(att: seq<AttendanceRow>, classId: Id, teacher: Id, y: nat, m: nat)
    : (r: seq<AttendanceRow>)
    requires 1 <= m <= 12
    ensures forall a :: a in r <==>
      a in att && a.classId == classId && a.teacherId == teacher && DateInWindow(a.date, y, m)
  {
    Filter((a: AttendanceRow) => a.classId == classId && a.teacherId == teacher && DateInWindow(a.date, y, m), att)
  }

  /** A well-formed attendance record is read exactly when its date lies in
      the chosen calendar month. */
  lemma WindowAttendanceIsMonth(att: seq<AttendanceRow>, classId: Id, teacher: Id, y: nat, m: nat, a: AttendanceRow)
    requires 1 <= m <= 12 && ValidDate(a.date)
    ensures a in WindowAttendance(att, classId, teacher, y, m) <==>
      a in att && a.classId == classId && a.teacherId == teacher && a.date.year == y && a.date.month == m
  {
    DateWindowIsMonth(a.date, y, m);
  }

  // ---------------------------------------------------------------------
  // The report

  /** One line of the report: a grade row with its student's name. */
  datatype ReportEntry = ReportEntry(name: string, subject: string, total: Option<Score>,
                                     components: Components)

  datatype ClassReport = ClassReport(className: string, entries: seq<ReportEntry>)

  /** `processedGrades`: each row in order, with its student's name or "Unknown". */
  function Processed(rows: seq<GradeRow>, students: seq<Student>): (r: seq<ReportEntry>)
    ensures |r| == |rows|
    ensures forall i :: 0 <= i < |rows| ==>
      r[i].subject == rows[i].subject && r[i].total == rows[i].total
      && r[i].components == rows[i].components
  {
    seq(|rows|, i requires 0 <= i < |rows| =>
      ReportEntry(StudentName(students, rows[i].studentId), rows[i].subject, rows[i].total,
                  rows[i].components))
  }

  /** Each name is "Unknown" or the name of a student with the row's id, and
      the first such student's name whenever that is non-empty: the same name
      the grade page shows for that row. */
  lemma ProcessedNames(rows: seq<GradeRow>, students: seq<Student>)
    ensures var r := Processed(rows, students);
      forall i :: 0 <= i < |rows| ==>
        r[i].name == Enrich(rows, students)[i].studentName
        && (r[i].name == "Unknown"
            || exists s :: s in students && s.id == rows[i].studentId && s.name == r[i].name)
    ensures var r := Processed(rows, students);
      forall i, k :: 0 <= i < |rows| && 0 <= k < |students| && students[k].id == rows[i].studentId
                     && (forall j :: 0 <= j < k ==> students[j].id != rows[i].studentId) ==>
        r[i].name == (if students[k].name != "" then students[k].name else "Unknown")
  {
    EnrichNames(rows, students);
  }

  /** `classes.find(c => c.id === classId)?.name || "Unknown"`, over the
      picker's own entries. */
  function ClassName(classes: seq<ClassEntry>, classId: Id): (name: string)
    ensures name == "Unknown"
      || exists e :: e in classes && e.id == classId && e.name == name
    ensures (forall e :: e in classes ==> e.id != classId) ==> name == "Unknown"
    ensures forall i :: 0 <= i < |classes| && classes[i].id == classId
                        && (forall j :: 0 <= j < i ==> classes[j].id != classId) ==>
      name == (if classes[i].name != "" then classes[i].name else "Unknown")
  {
    assert forall i | 0 <= i < |classes| && classes[i].id == classId
                      && (forall j :: 0 <= j < i ==> classes[j].id != classId) ::
      Find((e: ClassEntry) => e.id == classId, classes) == Some(classes[i]) by {
      forall i | 0 <= i < |classes| && classes[i].id == classId
                 && (forall j :: 0 <= j < i ==> classes[j].id != classId) {
        FindFirst((e: ClassEntry) => e.id == classId, classes, i);
      }
    }
    match Find((e: ClassEntry) => e.id == classId, classes)
    case None => "Unknown"
    case Some(e) => Or(Some(e.name), "Unknown")
  }

  /** The report `generateReport` sets. Call 0 reads the grade rows and call
      1 the class's students; neither result is checked, so a failed read
      contributes nothing. */
  function BuildReport(g: seq<GradeRow>, students: seq<Student>, classes: seq<ClassEntry>,
                       classId: Id, teacher: Id, y: nat, m: nat, faults: set<nat>): ClassReport
    requires 1 <= m <= 12
  {
    var rows := if 0 in faults then [] else WindowGrades(g, classId, teacher, y, m);
    var names := if 1 in faults then [] else ClassStudents(students, classId);
    ClassReport(ClassName(classes, classId), Processed(rows, names))
  }

  /** The attendance records `generateReport` keeps; call 2 reads them and
      a failed read keeps none. */
  function ReadAttendance(att: seq<AttendanceRow>, classId: Id, teacher: Id, y: nat, m: nat,
                          faults: set<nat>): (r: seq<AttendanceRow>)
    requires 1 <= m <= 12
    ensures 2 in faults ==> r == []
    ensures 2 !in faults ==> r == WindowAttendance(att, classId, teacher, y, m)
  {
    if 2 in faults then [] else WindowAttendance(att, classId, teacher, y, m)
  }

  /** A report lists one entry per grade row of the month, in student-id
      order, each with the row's subject, total and components; a failed
      grade read gives an empty report, and a failed student read names
      every student "Unknown". */
  lemma BuildReportSpec(g: seq<GradeRow>, students: seq<Student>, classes: seq<ClassEntry>,
                        classId: Id, teacher: Id, y: nat, m: nat, faults: set<nat>)
    requires 1 <= m <= 12
    ensures var r := BuildReport(g, students, classes, classId, teacher, y, m, faults);
      var rows := WindowGrades(g, classId, teacher, y, m);
      (0 in faults ==> r.entries == [])
      && (0 !in faults ==>
            |r.entries| == |rows|
            && forall i :: 0 <= i < |rows| ==>
                 r.entries[i].subject == rows[i].subject && r.entries[i].total == rows[i].total
                 && r.entries[i].components == rows[i].components)
      && (1 in faults ==> forall e :: e in r.entries ==> e.name == "Unknown")
  {
    var rows := if 0 in faults then [] else WindowGrades(g, classId, teacher, y, m);
    var r := BuildReport(g, students, classes, classId, teacher, y, m, faults);
    if 1 in faults {
      forall e | e in r.entries
        ensures e.name == "Unknown"
      {
        var i :| 0 <= i < |r.entries| && r.entries[i] == e;
        assert e.name == StudentName([], rows[i].studentId);
      }
    }
  }

  // ---------------------------------------------------------------------
  // The grade table and the CSV export

  /** The export's header row. */
  const Header: seq<string> :=
    ["الاسم", "المادة", "ت1", "ت2", "ت3", "ت4", "امتحان", "كشكول", "مواظبة", "سلوك", "المجموع"]

  /** A CSV row: name, subject, `v || ""` per component, the raw total. */
  function CsvRow(e: ReportEntry): seq<string>
  {
    [e.name, e.subject] + OrCells(e.components, "") + [PlainCell(e.total)]
  }

  /** A row of the grade table: `v || "-"` per component, the raw total. */
  function TableRow(e: ReportEntry): seq<string>
  {
    [e.name, e.subject] + OrCells(e.components, "-") + [PlainCell(e.total)]
  }

  /** The export and the table show the same eleven columns under the
      header's labels: a component is blank in the export exactly when it
      is "-" in the table, which is when it is missing or zero, and every
      other cell is the same text in both. */
  lemma CsvMatchesTable(e: ReportEntry)
    ensures |CsvRow(e)| == |TableRow(e)| == |Header| == 11
    ensures forall k :: 0 <= k < 11 && (k < 2 || k == 10) ==> CsvRow(e)[k] == TableRow(e)[k]
    ensures forall k :: 2 <= k < 10 ==>
      (CsvRow(e)[k] == "" <==> TableRow(e)[k] == "-")
      && (TableRow(e)[k] == "-" <==> Get(e.components, Fields[k - 2]) in {None, Some(0)})
      && (CsvRow(e)[k] != "" ==> CsvRow(e)[k] == TableRow(e)[k])
  {
    var csv, table := OrCells(e.components, ""), OrCells(e.components, "-");
    assert CsvRow(e) == [e.name, e.subject] + csv + [PlainCell(e.total)];
    assert TableRow(e) == [e.name, e.subject] + table + [PlainCell(e.total)];
    forall k | 2 <= k < 10
      ensures (CsvRow(e)[k] == "" <==> TableRow(e)[k] == "-")
      && (TableRow(e)[k] == "-" <==> Get(e.components, Fields[k - 2]) in {None, Some(0)})
      && (CsvRow(e)[k] != "" ==> CsvRow(e)[k] == TableRow(e)[k])
    {
      var v := Get(e.components, Fields[k - 2]);
      assert CsvRow(e)[k] == csv[k - 2] == OrCell(v, "");
      assert TableRow(e)[k] == table[k - 2] == OrCell(v, "-");
      BlankCells(v);
    }
  }

  /** One component in both renderings. */
  lemma BlankCells(v: Option<Score>)
    ensures OrCell(v, "") == "" <==> OrCell(v, "-") == "-"
    ensures OrCell(v, "-") == "-" <==> v in {None, Some(0)}
    ensures OrCell(v, "") != "" ==> OrCell(v, "") == OrCell(v, "-")
  {
    OrCellBlank(v, "");
    OrCellBlank(v, "-");
  }

  function CsvRows(entries: seq<ReportEntry>): (r: seq<seq<string>>)
    ensures |r| == |entries| && forall i :: 0 <= i < |entries| ==> r[i] == CsvRow(entries[i])
  {
    seq(|entries|, i requires 0 <= i < |entries| => CsvRow(entries[i]))
  }

  /** `exportToCSV`: nothing without a report; otherwise the CSV text, named
      after the class and `today`'s UTC date. */
  function ExportCsv(report: Option<ClassReport>, today: Date): (r: Option<Download>)
    ensures r.None? <==> report.None?
    ensures r.Some? ==> StartsWith(r.value.fileName, "report-" + report.value.className + "-")
  {
    if report.None? then None
    else
      var name := "report-" + report.value.className + "-" + IsoDateText(today) + ".csv";
      assert "report-" + report.value.className + "-" <= name;
      Some(Download(name, CsvText(Header, CsvRows(report.value.entries))))
  }

  /** No name or subject holds `c`. */
  predicate PlainTexts(entries: seq<ReportEntry>, c: char)
  {
    forall e :: e in entries ==> c !in e.name && c !in e.subject
  }

  /** No cell of an entry's CSV row holds `c` when its name and subject do not. */
  lemma CsvRowFree(e: ReportEntry, c: char)
    requires c == ',' || c == '\n'
    requires c !in e.name && c !in e.subject
    ensures forall p :: p in CsvRow(e) ==> c !in p
  {
    var cells := OrCells(e.components, "");
    forall k | 0 <= k < 8
      ensures c !in cells[k]
    {
      CellsPlain(Get(e.components, Fields[k]), "", c);
    }
    CellsPlain(e.total, "", c);
    forall p | p in CsvRow(e)
      ensures c !in p
    {
      var j :| 0 <= j < 11 && CsvRow(e)[j] == p;
      if 2 <= j < 10 {
        assert p == cells[j - 2];
      }
    }
  }

  /** No header label and no cell holds `c`, when no name or subject does. */
  lemma CsvFreeOf(entries: seq<ReportEntry>, c: char)
    requires c == ',' || c == '\n'
    requires PlainTexts(entries, c)
    ensures FreeOf(Header, CsvRows(entries), c)
    ensures forall i :: 0 <= i < |entries| ==> forall p :: p in CsvRow(entries[i]) ==> c !in p
  {
    forall i | 0 <= i < |entries|
      ensures forall p :: p in CsvRow(entries[i]) ==> c !in p
    {
      assert entries[i] in entries;
      CsvRowFree(entries[i], c);
    }
  }

  /** The text of a report's export. */
  lemma ExportText(report: ClassReport, today: Date)
    ensures ExportCsv(Some(report), today).value.text == CsvText(Header, CsvRows(report.entries))
  {
  }

  /** When no name or subject holds a line break, the export has one line
      for the header and one per entry, in order. */
  lemma ExportLines(report: ClassReport, today: Date)
    requires PlainTexts(report.entries, '\n')
    ensures var lines := Split(ExportCsv(Some(report), today).value.text, '\n');
      |lines| == |report.entries| + 1
      && lines[0] == Join(Header, ',')
      && forall i :: 0 <= i < |report.entries| ==> lines[i + 1] == Join(CsvRow(report.entries[i]), ',')
  {
    var rows := CsvRows(report.entries);
    ExportText(report, today);
    CsvFreeOf(report.entries, '\n');
    CsvLines(Header, rows);
  }

  /** When no name or subject holds a comma either, every line of the
      export reads back as its eleven fields. */
  lemma ExportFields(report: ClassReport, today: Date)
    requires PlainTexts(report.entries, '\n') && PlainTexts(report.entries, ',')
    ensures var lines := Split(ExportCsv(Some(report), today).value.text, '\n');
      |lines| == |report.entries| + 1
      && Split(lines[0], ',') == Header
      && forall i :: 0 <= i < |report.entries| ==> Split(lines[i + 1], ',') == CsvRow(report.entries[i])
  {
    ExportLines(report, today);
    CsvFreeOf(report.entries, ',');
    CsvFields(Header);
    forall i | 0 <= i < |report.entries|
      ensures Split(Join(CsvRow(report.entries[i]), ','), ',') == CsvRow(report.entries[i])
    {
      CsvFields(CsvRow(report.entries[i]));
    }
  }

  // ---------------------------------------------------------------------
  // The attendance table

  function IsPresent(a: AttendanceRow): bool { a.isPresent }

  function IsAbsent(a: AttendanceRow): bool { !a.isPresent }

  /** Every record is counted once, as present or as absent. */
  lemma {:induction false} PresentAbsentSplit(att: seq<AttendanceRow>)
    ensures Count(IsPresent, att) + Count(IsAbsent, att) == |att|
  {
    if att != [] {
      PresentAbsentSplit(att[1..]);
    }
  }

  /** `Math` rounding of `present / total * 100` to tenths, ties upwards,
      as a whole number of tenths. */
  function RoundedTenths(present: nat, total: nat): nat
    requires total > 0
  {
    (2000 * present + total) / (2 * total)
  }

  /** Multiplying by a natural number keeps the order. */
  lemma MulMonotone(a: nat, b: nat, c: nat)
    requires b <= c
    ensures a * b <= a * c
  {
    assert a * c - a * b == a * (c - b);
  }

  /** The rounded value is the nearest tenth of the percentage, a tie going
      up. */
  lemma RoundedTenthsNearest(present: nat, total: nat)
    requires total > 0
    ensures 2 * total * RoundedTenths(present, total) <= 2000 * present + total
    ensures 2000 * present + total < 2 * total * (RoundedTenths(present, total) + 1)
  {
    var n := 2000 * present + total;
    var d := 2 * total;
    var r := n / d;
    assert n == d * r + n % d && 0 <= n % d < d;
    assert d * (r + 1) == d * r + d;
  }

  /** The percentage lies between 0.0 and 100.0; it is 100.0 when every
      record is a presence and 0.0 when none is. */
  lemma RoundedTenthsBounds(present: nat, total: nat)
    requires total > 0 && present <= total
    ensures RoundedTenths(present, total) <= 1000
    ensures present == total ==> RoundedTenths(present, total) == 1000
    ensures present == 0 ==> RoundedTenths(present, total) == 0
  {
    var n := 2000 * present + total;
    var d := 2 * total;
    var r := RoundedTenths(present, total);
    RoundedTenthsNearest(present, total);
    if r >= 1001 {
      MulMonotone(d, 1001, r);
      assert false;
    }
    if present == total {
      if r <= 999 {
        MulMonotone(d, r + 1, 1000);
        assert false;
      }
    }
    if present == 0 && r >= 1 {
      MulMonotone(d, 1, r);
      assert false;
    }
  }

  /** `x.toFixed(1)` of a whole number of tenths. */
  function TenthsText(tenths: nat): (r: string)
    ensures |r| >= 3 && r[|r| - 2] == '.'
  {
    NatText(tenths / 10) + "." + [DigitChar(tenths % 10)]
  }

  /** `total > 0 ? ((present / total) * 100).toFixed(1) : "0.0"`. */
  function PercentText(present: nat, total: nat): string
  {
    if total > 0 then TenthsText(RoundedTenths(present, total)) else "0.0"
  }

  lemma PercentTextValues()
    ensures PercentText(0, 0) == "0.0"
    ensures PercentText(0, 7) == "0.0"
    ensures PercentText(3, 3) == "100.0"
    ensures PercentText(1, 3) == "33.3"
    ensures PercentText(2, 3) == "66.7"
  {
    assert RoundedTenths(3, 3) == 1000;
    assert NatText(100) == "100" by {
      assert NatText(10) == "10";
    }
    assert RoundedTenths(1, 3) == 333;
    assert NatText(33) == "33";
    assert RoundedTenths(2, 3) == 667;
    assert NatText(66) == "66";
  }

  /** One row of the attendance table. */
  datatype AttendanceLine = AttendanceLine(name: string, present: nat, absent: nat, percentage: string)

  /** The counts and percentage of a list of attendance records. */
  function Line(name: string, records: seq<AttendanceRow>): AttendanceLine
  {
    var p := Count(IsPresent, records);
    var a := Count(IsAbsent, records);
    AttendanceLine(name, p, a, PercentText(p, p + a))
  }

  /** The attendance table as written: one line per entry, whose records
      are `attendanceData.filter(a => reportData.students[idx]?.name === student.name)`,
      with `student` being `reportData.students[idx]`. */
  function AttendanceTable(entries: seq<ReportEntry>, att: seq<AttendanceRow>): (r: seq<AttendanceLine>)
    ensures |r| == |entries|
  {
    seq(|entries|, i requires 0 <= i < |entries| =>
      Line(entries[i].name, Filter((a: AttendanceRow) => entries[i].name == entries[i].name, att)))
  }

  /** The filter compares a line's entry with itself, so every line counts
      every record of the class in the month: all lines show the same
      counts, whose sum is the number of records. */
  lemma AttendanceTableRepeats(entries: seq<ReportEntry>, att: seq<AttendanceRow>)
    ensures forall i :: 0 <= i < |entries| ==> AttendanceTable(entries, att)[i] == Line(entries[i].name, att)
    ensures forall i :: 0 <= i < |entries| ==>
      AttendanceTable(entries, att)[i].present + AttendanceTable(entries, att)[i].absent == |att|
  {
    forall i | 0 <= i < |entries|
      ensures AttendanceTable(entries, att)[i] == Line(entries[i].name, att)
    {
      FilterKeepsAll((a: AttendanceRow) => entries[i].name == entries[i].name, att);
    }
    PresentAbsentSplit(att);
  }

  /** The records of one student. */
  function StudentRecords(att: seq<AttendanceRow>, studentId: Id): (r: seq<AttendanceRow>)
    ensures forall a :: a in r <==> a in att && a.studentId == studentId
  {
    Filter((a: AttendanceRow) => a.studentId == studentId, att)
  }

  /** The attendance table as evidently intended: the line of each grade row
      counts only the records of that row's student. */
  function StudentAttendanceTable(rows: seq<GradeRow>, students: seq<Student>, att: seq<AttendanceRow>)
    : (r: seq<AttendanceLine>)
    ensures |r| == |rows|
  {
    seq(|rows|, i requires 0 <= i < |rows| =>
      Line(StudentName(students, rows[i].studentId), StudentRecords(att, rows[i].studentId)))
  }

  /** In the intended table a line counts exactly its student's records, so
      a record of another student never changes it. */
  lemma StudentAttendanceOwn(rows: seq<GradeRow>, students: seq<Student>, att: seq<AttendanceRow>,
                             x: AttendanceRow, i: nat)
    requires i < |rows| && x.studentId != rows[i].studentId
    ensures var l := StudentAttendanceTable(rows, students, att)[i];
      l.present + l.absent == |StudentRecords(att, rows[i].studentId)|
    ensures StudentAttendanceTable(rows, students, att + [x])[i]
            == StudentAttendanceTable(rows, students, att)[i]
  {
    var own := StudentRecords(att, rows[i].studentId);
    PresentAbsentSplit(own);
    FilterAppend((a: AttendanceRow) => a.studentId == rows[i].studentId, att, [x]);
    assert StudentRecords(att + [x], rows[i].studentId) == own;
  }

  /** A sample class: two students, one grade row each, and one record
      each in the month, the first absent and the second present. */
  const SampleRows: seq<GradeRow> :=
    [GradeRow("g1", "s1", "c", "t", "Math", NoComponents, None, false, DateTime(Date(2025, 3, 3), 9, 0, 0, 0)),
     GradeRow("g2", "s2", "c", "t", "Math", NoComponents, None, false, DateTime(Date(2025, 3, 3), 9, 0, 0, 0))]

  const SampleStudents: seq<Student> := [Student("s1", "Ali", "c", "1", None), Student("s2", "Sara", "c", "2", None)]

  const SampleAbsent := AttendanceRow("a1", "s1", "c", "t", Date(2025, 3, 4), false)

  const SamplePresent := AttendanceRow("a2", "s2", "c", "t", Date(2025, 3, 4), true)

  lemma SampleHalf()
    ensures PercentText(1, 2) == "50.0"
  {
    assert RoundedTenths(1, 2) == 500;
    assert NatText(50) == "50";
  }

  lemma SampleFull()
    ensures PercentText(1, 1) == "100.0" && PercentText(0, 1) == "0.0"
  {
    assert RoundedTenths(1, 1) == 1000;
    assert NatText(100) == "100" by {
      assert NatText(10) == "10";
    }
    assert RoundedTenths(0, 1) == 0;
  }

  lemma SampleCounts()
    ensures Count(IsPresent, [SampleAbsent, SamplePresent]) == 1
    ensures Count(IsAbsent, [SampleAbsent, SamplePresent]) == 1
    ensures Count(IsPresent, [SampleAbsent]) == 0 && Count(IsAbsent, [SampleAbsent]) == 1
    ensures Count(IsPresent, [SamplePresent]) == 1 && Count(IsAbsent, [SamplePresent]) == 0
  {
    assert [SampleAbsent, SamplePresent][1..] == [SamplePresent];
    assert Filter(IsPresent, [SamplePresent]) == [SamplePresent];
    assert Filter(IsAbsent, [SamplePresent]) == [];
    assert Filter(IsPresent, [SampleAbsent]) == [];
    assert Filter(IsAbsent, [SampleAbsent]) == [SampleAbsent];
  }

  lemma SampleLines()
    ensures Line("Ali", [SampleAbsent, SamplePresent]) == AttendanceLine("Ali", 1, 1, "50.0")
    ensures Line("Sara", [SampleAbsent, SamplePresent]) == AttendanceLine("Sara", 1, 1, "50.0")
    ensures Line("Ali", [SampleAbsent]) == AttendanceLine("Ali", 0, 1, "0.0")
    ensures Line("Sara", [SamplePresent]) == AttendanceLine("Sara", 1, 0, "100.0")
  {
    SampleCounts();
    SampleHalf();
    SampleFull();
  }

  lemma SampleNames()
    ensures StudentName(SampleStudents, "s1") == "Ali"
    ensures StudentName(SampleStudents, "s2") == "Sara"
  {
    StudentNameSpec(SampleStudents, "s1");
    StudentNameSpec(SampleStudents, "s2");
  }

  /** As written, both students' lines read one present, one absent, 50.0%. */
  lemma AttendanceTableCounterexample()
    ensures AttendanceTable(Processed(SampleRows, SampleStudents), [SampleAbsent, SamplePresent])
            == [AttendanceLine("Ali", 1, 1, "50.0"), AttendanceLine("Sara", 1, 1, "50.0")]
  {
    var entries := Processed(SampleRows, SampleStudents);
    AttendanceTableRepeats(entries, [SampleAbsent, SamplePresent]);
    SampleNames();
    SampleLines();
  }

  lemma SampleRecords()
    ensures StudentRecords([SampleAbsent, SamplePresent], "s1") == [SampleAbsent]
    ensures StudentRecords([SampleAbsent, SamplePresent], "s2") == [SamplePresent]
  {
    var att := [SampleAbsent, SamplePresent];
    assert att[1..] == [SamplePresent];
    assert SamplePresent.studentId != "s1" && SampleAbsent.studentId != "s2";
    assert StudentRecords([SamplePresent], "s1") == [];
    assert StudentRecords([SamplePresent], "s2") == [SamplePresent];
  }

  /** Counting each student's own records, the lines read 0.0% and 100.0%. */
  lemma StudentAttendanceExample()
    ensures StudentAttendanceTable(SampleRows, SampleStudents, [SampleAbsent, SamplePresent])
            == [AttendanceLine("Ali", 0, 1, "0.0"), AttendanceLine("Sara", 1, 0, "100.0")]
  {
    var att := [SampleAbsent, SamplePresent];
    SampleNames();
    SampleLines();
    SampleRecords();
    var r := StudentAttendanceTable(SampleRows, SampleStudents, att);
    assert r[0] == Line("Ali", [SampleAbsent]);
    assert r[1] == Line("Sara", [SamplePresent]);
  }

  // ---------------------------------------------------------------------
  // The page

  /** The page's state: the picker, the chosen month, and the last report. */
  class TeacherReportsPage {
    var classes: seq<ClassEntry>
    var selectedClass: Id
    var year: nat
    var month: nat
    var report: Option<ClassReport>
    var attendance: seq<AttendanceRow>

    /** The page opens on the current month, no class and no report. */
    constructor (thisYear: nat, thisMonth: nat)
      requires 1 <= thisMonth <= 12
      ensures classes == [] && selectedClass == "" && report == None && attendance == []
      ensures year == thisYear && month == thisMonth
    {
      classes, selectedClass, report, attendance := [], "", None, [];
      year, month := thisYear, thisMonth;
    }

    /** `fetchTeacherClasses` on mount. */
    method FetchTeacherClasses(db: Db, session: Option<Id>, readOk: bool)
      modifies this`classes, db`log
      ensures db.log == if session.None? then old(db.log) else old(db.log) + [Select(ClassAssignments)]
      ensures var r := ReportClasses(session, old(db.assignments), old(db.classes), readOk);
        classes == if r.Some? then r.value else old(classes)
    {
      if session.None? {
        return;
      }
      db.Read(ClassAssignments);
      var r := ReportClasses(session, db.assignments, db.classes, readOk);
      if r.Some? {
        classes := r.value;
      }
    }

    /** The month picker: it offers the months 1 to 12. */
    method SelectMonth(m: nat)
      requires 1 <= m <= 12
      modifies this`month
      ensures month == m
    {
      month := m;
    }

    /** `generateReport(classId)`: nothing without a class or a session;
        otherwise three reads (grades, students, attendance, numbered 0 to 2
        in `faults`) and the report and records they give. */
    method GenerateReport(db: Db, classId: Id, session: Option<Id>, faults: set<nat>)
      requires 1 <= month <= 12
      modifies this`report, this`attendance, db`log
      ensures classId == "" || session.None? ==>
        db.log == old(db.log) && report == old(report) && attendance == old(attendance)
      ensures classId != "" && session.Some? ==>
        db.log == old(db.log) + [Select(Grades), Select(Students), Select(Attendance)]
        && report == Some(BuildReport(old(db.grades), old(db.students), classes, classId,
                                      session.value, year, month, faults))
        && attendance == ReadAttendance(old(db.attendance), classId, session.value, year, month, faults)
    {
      if classId == "" || session.None? {
        return;
      }
      db.Read(Grades);
      db.Read(Students);
      db.Read(Attendance);
      report := Some(BuildReport(db.grades, db.students, classes, classId, session.value, year, month, faults));
      attendance := ReadAttendance(db.attendance, classId, session.value, year, month, faults);
    }
  }
}
