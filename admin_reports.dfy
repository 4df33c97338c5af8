/** The administrator's monthly report page (app/admin/reports/page.tsx):
    every grade row of one class over one calendar month, with student,
    class and teacher names, as a table and as a CSV export. */
module AdminReports {
  import opened Common
  import opened Calendar
  import opened Records
  import opened Database
  import opened Ordering
  import opened Text
  import opened Cells
  import opened TeacherReports

  /** The page's fallback for a missing name ("unknown"). */
  const Unknown: string := "غير معروف"

  // ---------------------------------------------------------------------
  // The class list

  function ClassNameKey(c: ClassRow): Key { TextKey(c.name) }

  /** `.from("classes").select("*").order("name")`; the result is not
      checked, so a failed read lists no class. */
  function ClassList(classes: seq<ClassRow>, readOk: bool): (r: seq<ClassRow>)
    ensures !readOk ==> r == []
    ensures readOk ==> multiset(r) == multiset(classes) && SortedBy(r, ClassNameKey)
  {
    if readOk then SortBy(classes, ClassNameKey) else []
  }

  // ---------------------------------------------------------------------
  // The reads of a report

  /** `.from("grades").select("*").eq("class_id", classId)
      .gte("updated_at", start).lte("updated_at", end)`: every teacher's rows. */
  function ClassWindowRows(g: seq<GradeRow>, classId: Id, y: nat, m: nat): (r: seq<GradeRow>)
    requires 1 <= m <= 12
    ensures forall x :: x in r <==> x in g && x.classId == classId && StampInWindow(x.updatedAt, y, m)
  {
    Filter((x: GradeRow) => x.classId == classId && StampInWindow(x.updatedAt, y, m), g)
  }

  /** `.from("attendance").select("*").eq("class_id", classId)
      .gte("attendance_date", start).lte("attendance_date", end)`. */
  function ClassWindowAttendance(att: seq<AttendanceRow>, classId: Id, y: nat, m: nat)
    : (r: seq<AttendanceRow>)
    requires 1 <= m <= 12
    ensures forall a :: a in r <==> a in att && a.classId == classId && DateInWindow(a.date, y, m)
  {
    Filter((a: AttendanceRow) => a.classId == classId && DateInWindow(a.date, y, m), att)
  }

  function GradeStudent(g: GradeRow): Id { g.studentId }

  function GradeTeacher(g: GradeRow): Id { g.teacherId }

  /** `[...new Set(rows.map(g => g.student_id))]`. */
  function StudentIds(rows: seq<GradeRow>): (r: seq<Id>)
    ensures forall id :: id in r <==> exists g :: g in rows && g.studentId == id
    ensures forall i, j :: 0 <= i < j < |r| ==> r[i] != r[j]
  {
    var ids := Ids(rows, GradeStudent);
    assert forall id :: id in ids <==> exists g :: g in rows && g.studentId == id by {
      forall id | id in ids
        ensures exists g :: g in rows && g.studentId == id
      {
        var i :| 0 <= i < |ids| && ids[i] == id;
        assert rows[i] in rows;
      }
      forall g | g in rows
        ensures g.studentId in ids
      {
        var i :| 0 <= i < |rows| && rows[i] == g;
        assert ids[i] == g.studentId;
      }
    }
    Distinct(ids)
  }

  /** `[...new Set(rows.map(g => g.teacher_id))]`. */
  function TeacherIds(rows: seq<GradeRow>): (r: seq<Id>)
    ensures forall id :: id in r <==> exists g :: g in rows && g.teacherId == id
    ensures forall i, j :: 0 <= i < j < |r| ==> r[i] != r[j]
  {
    var ids := Ids(rows, GradeTeacher);
    assert forall id :: id in ids <==> exists g :: g in rows && g.teacherId == id by {
      forall id | id in ids
        ensures exists g :: g in rows && g.teacherId == id
      {
        var i :| 0 <= i < |ids| && ids[i] == id;
        assert rows[i] in rows;
      }
      forall g | g in rows
        ensures g.teacherId in ids
      {
        var i :| 0 <= i < |rows| && rows[i] == g;
        assert ids[i] == g.teacherId;
      }
    }
    Distinct(ids)
  }

  /** `.from("students").select("id, name").in("id", ids)`. */
  function StudentsIn(students: seq<Student>, ids: seq<Id>): (r: seq<Student>)
    ensures forall s :: s in r <==> s in students && s.id in ids
  {
    Filter((s: Student) => s.id in ids, students)
  }

  /** `.from("profiles").select("id, full_name").in("id", ids)`. */
  function ProfilesIn(profiles: seq<Profile>, ids: seq<Id>): (r: seq<Profile>)
    ensures forall p :: p in r <==> p in profiles && p.id in ids
  {
    Filter((p: Profile) => p.id in ids, profiles)
  }

  // ---------------------------------------------------------------------
  // The report

  /** One row of the report. `total` is the stored total, or 0 when none. */
  datatype AdminEntry = AdminEntry(
    studentName: string, className: string, subject: string, teacherName: string,
    total: Score, components: Components)

  /** `studentsData?.find(s => s.id === id)?.name || "غير معروف"`. */
  function StudentLabel(students: seq<Student>, id: Id): string
  {
    match Find((s: Student) => s.id == id, students)
    case None => Unknown
    case Some(s) => Or(Some(s.name), Unknown)
  }

  /** `teachersData?.find(t => t.id === id)?.full_name || "غير معروف"`. */
  function TeacherLabel(profiles: seq<Profile>, id: Id): string
  {
    match Find((p: Profile) => p.id == id, profiles)
    case None => Unknown
    case Some(p) => Or(p.fullName, Unknown)
  }

  /** `classes.find(c => c.id === classId)?.name || "غير معروف"`, over the
      page's class list. */
  function ClassLabel(classes: seq<ClassRow>, id: Id): string
  {
    match Find((c: ClassRow) => c.id == id, classes)
    case None => Unknown
    case Some(c) => Or(Some(c.name), Unknown)
  }

  /** A student label is "Unknown" or the name of a student with that id,
      "Unknown" when no student has it, and otherwise the first matching
      student's name unless that is empty. */
  lemma StudentLabelSpec(students: seq<Student>, id: Id)
    ensures StudentLabel(students, id) == Unknown
      || exists s :: s in students && s.id == id && s.name == StudentLabel(students, id)
    ensures (forall s :: s in students ==> s.id != id) ==> StudentLabel(students, id) == Unknown
    ensures forall i :: 0 <= i < |students| && students[i].id == id
                        && (forall j :: 0 <= j < i ==> students[j].id != id) ==>
      StudentLabel(students, id) == (if students[i].name != "" then students[i].name else Unknown)
  {
    forall i | 0 <= i < |students| && students[i].id == id && (forall j :: 0 <= j < i ==> students[j].id != id) {
      FindFirst((s: Student) => s.id == id, students, i);
    }
    var fs := Find((s: Student) => s.id == id, students);
    if fs.Some? {
      var k :| 0 <= k < |students| && students[k] == fs.value && fs.value.id == id
               && forall j :: 0 <= j < k ==> students[j].id != id;
      assert students[k] in students;
    }
  }

  /** A teacher label is "Unknown" or the full name of a profile with that
      id, "Unknown" when no profile has it, and otherwise the first matching
      profile's full name unless that is missing or empty. */
  lemma TeacherLabelSpec(profiles: seq<Profile>, id: Id)
    ensures TeacherLabel(profiles, id) == Unknown
      || exists p :: p in profiles && p.id == id && p.fullName == Some(TeacherLabel(profiles, id))
    ensures (forall p :: p in profiles ==> p.id != id) ==> TeacherLabel(profiles, id) == Unknown
    ensures forall i :: 0 <= i < |profiles| && profiles[i].id == id
                        && (forall j :: 0 <= j < i ==> profiles[j].id != id) ==>
      TeacherLabel(profiles, id) == Or(profiles[i].fullName, Unknown)
  {
    forall i | 0 <= i < |profiles| && profiles[i].id == id && (forall j :: 0 <= j < i ==> profiles[j].id != id) {
      FindFirst((p: Profile) => p.id == id, profiles, i);
    }
    var fp := Find((p: Profile) => p.id == id, profiles);
    if fp.Some? {
      var k :| 0 <= k < |profiles| && profiles[k] == fp.value && fp.value.id == id
               && forall j :: 0 <= j < k ==> profiles[j].id != id;
      assert profiles[k] in profiles;
    }
  }

  /** A class label is "Unknown" or the name of a class with that id,
      "Unknown" when no class has it, and otherwise the first matching
      class's name unless that is empty. */
  lemma ClassLabelSpec(classes: seq<ClassRow>, id: Id)
    ensures ClassLabel(classes, id) == Unknown
      || exists c :: c in classes && c.id == id && c.name == ClassLabel(classes, id)
    ensures (forall c :: c in classes ==> c.id != id) ==> ClassLabel(classes, id) == Unknown
    ensures forall i :: 0 <= i < |classes| && classes[i].id == id
                        && (forall j :: 0 <= j < i ==> classes[j].id != id) ==>
      ClassLabel(classes, id) == (if classes[i].name != "" then classes[i].name else Unknown)
  {
    forall i | 0 <= i < |classes| && classes[i].id == id && (forall j :: 0 <= j < i ==> classes[j].id != id) {
      FindFirst((c: ClassRow) => c.id == id, classes, i);
    }
    var fc := Find((c: ClassRow) => c.id == id, classes);
    if fc.Some? {
      var k :| 0 <= k < |classes| && classes[k] == fc.value && fc.value.id == id
               && forall j :: 0 <= j < k ==> classes[j].id != id;
      assert classes[k] in classes;
    }
  }

  /** Reading only the students and teachers the rows name loses no name:
      every row is labelled as it would be from the whole tables. */
  lemma ReadByIdsKeepsNames(rows: seq<GradeRow>, students: seq<Student>, profiles: seq<Profile>, g: GradeRow)
    requires g in rows
    ensures StudentLabel(StudentsIn(students, StudentIds(rows)), g.studentId) == StudentLabel(students, g.studentId)
    ensures TeacherLabel(ProfilesIn(profiles, TeacherIds(rows)), g.teacherId) == TeacherLabel(profiles, g.teacherId)
  {
    var sids := StudentIds(rows);
    var tids := TeacherIds(rows);
    FindFilter((s: Student) => s.id == g.studentId, (s: Student) => s.id in sids, students);
    FindFilter((p: Profile) => p.id == g.teacherId, (p: Profile) => p.id in tids, profiles);
  }

  /** One report row from a grade row. */
  function Entry(x: GradeRow, students: seq<Student>, profiles: seq<Profile>, classes: seq<ClassRow>,
                 classId: Id): (e: AdminEntry)
    ensures e.components == x.components
    ensures e.total == (if x.total.Some? then x.total.value else 0)
    ensures e.subject == (if x.subject != "" then x.subject else Unknown)
  {
    AdminEntry(StudentLabel(students, x.studentId), ClassLabel(classes, classId), Or(Some(x.subject), Unknown),
               TeacherLabel(profiles, x.teacherId), if x.total.Some? then x.total.value else 0, x.components)
  }

  /** `enriched`: one entry per row, in order. */
  function Entries(rows: seq<GradeRow>, students: seq<Student>, profiles: seq<Profile>, classes: seq<ClassRow>,
                   classId: Id): (r: seq<AdminEntry>)
    ensures |r| == |rows|
    ensures forall i :: 0 <= i < |rows| ==> r[i] == Entry(rows[i], students, profiles, classes, classId)
  {
    seq(|rows|, i requires 0 <= i < |rows| => Entry(rows[i], students, profiles, classes, classId))
  }

  /** What `generateClassReport` produces over the tables it reads: `None`
      when the grade read (call 0) fails and the page alerts; otherwise the
      entries, with the students (call 2) and teachers (call 3) read by the
      ids the rows name; their failures are not checked and leave names
      unknown. */
  function BuildAdminReport(g: seq<GradeRow>, students: seq<Student>, profiles: seq<Profile>,
                            classes: seq<ClassRow>, classId: Id, y: nat, m: nat, faults: set<nat>)
    : Option<seq<AdminEntry>>
    requires 1 <= m <= 12
  {
    if 0 in faults then None
    else
      var rows := ClassWindowRows(g, classId, y, m);
      var readStudents := if 2 in faults then [] else StudentsIn(students, StudentIds(rows));
      var readTeachers := if 3 in faults then [] else ProfilesIn(profiles, TeacherIds(rows));
      Some(Entries(rows, readStudents, readTeachers, classes, classId))
  }

  /** A report holds one entry per grade row of the class in the month, of
      any teacher, in table order, each labelled as from the whole student
      and profile tables when those reads succeed. */
  lemma BuildAdminReportSpec(g: seq<GradeRow>, students: seq<Student>, profiles: seq<Profile>,
                             classes: seq<ClassRow>, classId: Id, y: nat, m: nat, faults: set<nat>)
    requires 1 <= m <= 12
    ensures var r := BuildAdminReport(g, students, profiles, classes, classId, y, m, faults);
      var rows := ClassWindowRows(g, classId, y, m);
      (r.None? <==> 0 in faults)
      && (r.Some? ==>
            |r.value| == |rows|
            && forall i :: 0 <= i < |rows| ==>
                 r.value[i].components == rows[i].components
                 && r.value[i].className == ClassLabel(classes, classId)
                 && (2 !in faults ==> r.value[i].studentName == StudentLabel(students, rows[i].studentId))
                 && (3 !in faults ==> r.value[i].teacherName == TeacherLabel(profiles, rows[i].teacherId))
                 && (2 in faults ==> r.value[i].studentName == Unknown)
                 && (3 in faults ==> r.value[i].teacherName == Unknown))
  {
    if 0 !in faults {
      var rows := ClassWindowRows(g, classId, y, m);
      forall i | 0 <= i < |rows|
        ensures StudentLabel(StudentsIn(students, StudentIds(rows)), rows[i].studentId)
                == StudentLabel(students, rows[i].studentId)
        ensures TeacherLabel(ProfilesIn(profiles, TeacherIds(rows)), rows[i].teacherId)
                == TeacherLabel(profiles, rows[i].teacherId)
      {
        ReadByIdsKeepsNames(rows, students, profiles, rows[i]);
      }
    }
  }

  /** The attendance records the page keeps; call 1 reads them, unchecked. */
  function AdminAttendance(att: seq<AttendanceRow>, classId: Id, y: nat, m: nat, faults: set<nat>)
    : (r: seq<AttendanceRow>)
    requires 1 <= m <= 12
    ensures 1 in faults ==> r == []
    ensures 1 !in faults ==> forall a :: a in r <==> a in att && a.classId == classId && DateInWindow(a.date, y, m)
  {
    if 1 in faults then [] else ClassWindowAttendance(att, classId, y, m)
  }

  // ---------------------------------------------------------------------
  // The table and the CSV export

  /** The export's header row. */
  const AdminHeader: seq<string> :=
    ["الاسم", "الفصل", "المادة", "المدرس", "التقييم 1", "التقييم 2", "التقييم 3", "التقييم 4",
     "الامتحان", "الكشكول", "المواظبة", "السلوك", "المجموع"]

  /** A CSV row as written: `v || ""` per component and the total. */
  function AdminCsvRow(e: AdminEntry): seq<string>
  {
    [e.studentName, e.className, e.subject, e.teacherName] + OrCells(e.components, "")
    + [ScoreText(e.total)]
  }

  /** A table row: no class column, `v ?? "-"` per component and
      `total.toFixed(1)`. */
  function AdminTableRow(e: AdminEntry): seq<string>
  {
    [e.studentName, e.subject, e.teacherName] + NullishCells(e.components, "-") + [ScoreFixed1(e.total)]
  }

  /** The table shows the export's columns but the class: a missing
      component is "-" in the table and blank in the export, a non-zero
      component is the same text in both, and the total gains a ".0" in the
      table when it is whole. */
  lemma AdminTableMatchesCsv(e: AdminEntry)
    ensures |AdminCsvRow(e)| == |AdminHeader| == 13 && |AdminTableRow(e)| == 12
    ensures AdminTableRow(e)[0] == AdminCsvRow(e)[0]
    ensures AdminTableRow(e)[1..3] == AdminCsvRow(e)[2..4]
    ensures forall k :: 0 <= k < 8 ==>
      var v := Get(e.components, Fields[k]);
      (AdminTableRow(e)[3 + k] == "-" <==> v.None?)
      && (v.None? ==> AdminCsvRow(e)[4 + k] == "")
      && (v.Some? && v.value != 0 ==> AdminCsvRow(e)[4 + k] == AdminTableRow(e)[3 + k])
    ensures AdminTableRow(e)[11] == if e.total % 2 == 0 then AdminCsvRow(e)[12] + ".0" else AdminCsvRow(e)[12]
  {
    AdminRowShape(e);
    forall k | 0 <= k < 8
      ensures var v := Get(e.components, Fields[k]);
        (AdminTableRow(e)[3 + k] == "-" <==> v.None?)
        && (v.None? ==> AdminCsvRow(e)[4 + k] == "")
        && (v.Some? && v.value != 0 ==> AdminCsvRow(e)[4 + k] == AdminTableRow(e)[3 + k])
    {
      AdminCell(Get(e.components, Fields[k]));
    }
    FixedAddsDecimal(e.total);
  }

  /** Where each column of the two rows comes from. */
  lemma AdminRowShape(e: AdminEntry)
    ensures |AdminCsvRow(e)| == 13 && |AdminTableRow(e)| == 12
    ensures AdminTableRow(e)[0] == AdminCsvRow(e)[0]
    ensures AdminTableRow(e)[1..3] == AdminCsvRow(e)[2..4]
    ensures forall k :: 0 <= k < 8 ==>
      AdminCsvRow(e)[4 + k] == OrCell(Get(e.components, Fields[k]), "")
      && AdminTableRow(e)[3 + k] == NullishCell(Get(e.components, Fields[k]), "-")
    ensures AdminCsvRow(e)[12] == ScoreText(e.total) && AdminTableRow(e)[11] == ScoreFixed1(e.total)
  {
    var csv, table := OrCells(e.components, ""), NullishCells(e.components, "-");
    assert AdminCsvRow(e) == [e.studentName, e.className, e.subject, e.teacherName] + csv + [ScoreText(e.total)];
    assert AdminTableRow(e) == [e.studentName, e.subject, e.teacherName] + table + [ScoreFixed1(e.total)];
  }

  /** One component in the table and in the export. */
  lemma AdminCell(v: Option<Score>)
    ensures NullishCell(v, "-") == "-" <==> v.None?
    ensures v.None? ==> OrCell(v, "") == ""
    ensures v.Some? && v.value != 0 ==> OrCell(v, "") == NullishCell(v, "-")
  {
    if v.Some? {
      ScoreTextShape(v.value);
    }
  }

  /** The export as written loses a score of zero: a component of 0 is an
      empty field, the same as a missing one, while the table shows "0". */
  lemma AdminCsvLosesZero(e: AdminEntry)
    requires e.components.evaluation1 == Some(0)
    ensures AdminCsvRow(e)[4] == "" == AdminCsvRow(e.(components := e.components.(evaluation1 := None)))[4]
    ensures AdminTableRow(e)[3] == "0"
    ensures AdminTableRow(e.(components := e.components.(evaluation1 := None)))[3] == "-"
  {
    var cleared := e.(components := e.components.(evaluation1 := None));
    assert Fields[0] == Evaluation1;
    assert AdminCsvRow(e)[4] == OrCells(e.components, "")[0] == OrCell(Some(0), "");
    assert AdminCsvRow(cleared)[4] == OrCells(cleared.components, "")[0] == OrCell(None, "");
    assert AdminTableRow(e)[3] == NullishCells(e.components, "-")[0] == ScoreText(0);
    assert AdminTableRow(cleared)[3] == NullishCells(cleared.components, "-")[0] == "-";
    assert NatText(0) == "0";
  }

  /** The export row as evidently intended: `v ?? ""`, as the table does. */
  function NullishCsvRow(e: AdminEntry): seq<string>
  {
    [e.studentName, e.className, e.subject, e.teacherName] + NullishCells(e.components, "")
    + [ScoreText(e.total)]
  }

  /** With `??` the export and the table agree on every component: a field
      is blank exactly when the table shows "-", which is when the component
      is missing, and is otherwise the same text, zero included. */
  lemma NullishCsvMatchesTable(e: AdminEntry)
    ensures |NullishCsvRow(e)| == 13
    ensures forall k :: 0 <= k < 8 ==>
      (NullishCsvRow(e)[4 + k] == "" <==> AdminTableRow(e)[3 + k] == "-")
      && (NullishCsvRow(e)[4 + k] == "" <==> Get(e.components, Fields[k]).None?)
      && (NullishCsvRow(e)[4 + k] != "" ==> NullishCsvRow(e)[4 + k] == AdminTableRow(e)[3 + k])
  {
    forall k | 0 <= k < 8
      ensures NullishCsvRow(e)[4 + k] == "" <==> Get(e.components, Fields[k]).None?
      ensures AdminTableRow(e)[3 + k] == "-" <==> Get(e.components, Fields[k]).None?
    {
      var v := Get(e.components, Fields[k]);
      if v.Some? {
        ScoreTextShape(v.value);
      }
    }
  }

  function AdminCsvRows(entries: seq<AdminEntry>): (r: seq<seq<string>>)
    ensures |r| == |entries| && forall i :: 0 <= i < |entries| ==> r[i] == AdminCsvRow(entries[i])
  {
    seq(|entries|, i requires 0 <= i < |entries| => AdminCsvRow(entries[i]))
  }

  /** `exportToCSV`: nothing for an empty report; otherwise the CSV text,
      named after the selected class id and `today`'s UTC date. */
  function ExportAdminCsv(entries: seq<AdminEntry>, classId: Id, today: Date): (r: Option<Download>)
    ensures r.None? <==> entries == []
    ensures r.Some? ==> r.value.fileName == "report-" + classId + "-" + IsoDateText(today) + ".csv"
  {
    if entries == [] then None
    else Some(Download("report-" + classId + "-" + IsoDateText(today) + ".csv",
                       CsvText(AdminHeader, AdminCsvRows(entries))))
  }

  /** No name or subject of an entry holds `c`. */
  predicate PlainEntry(e: AdminEntry, c: char)
  {
    c !in e.studentName && c !in e.className && c !in e.subject && c !in e.teacherName
  }

  lemma AdminCsvRowFree(e: AdminEntry, c: char)
    requires c == ',' || c == '\n'
    requires PlainEntry(e, c)
    ensures forall p :: p in AdminCsvRow(e) ==> c !in p
  {
    var cells := OrCells(e.components, "");
    forall k | 0 <= k < 8
      ensures c !in cells[k]
    {
      CellsPlain(Get(e.components, Fields[k]), "", c);
    }
    ScoreTextPlain(e.total, c);
    forall p | p in AdminCsvRow(e)
      ensures c !in p
    {
      var j :| 0 <= j < 13 && AdminCsvRow(e)[j] == p;
      if 4 <= j < 12 {
        assert p == cells[j - 4];
      }
    }
  }

  /** When no name or subject holds a line break, the export has a header
      line and one line per entry, each that entry's thirteen fields joined
      by commas. */
  lemma AdminExportLines(entries: seq<AdminEntry>, classId: Id, today: Date)
    requires entries != []
    requires forall e :: e in entries ==> PlainEntry(e, '\n')
    ensures var lines := Split(ExportAdminCsv(entries, classId, today).value.text, '\n');
      |lines| == |entries| + 1
      && lines[0] == Join(AdminHeader, ',')
      && forall i :: 0 <= i < |entries| ==> lines[i + 1] == Join(AdminCsvRow(entries[i]), ',')
  {
    var rows := AdminCsvRows(entries);
    forall i | 0 <= i < |entries|
      ensures forall p :: p in rows[i] ==> '\n' !in p
    {
      assert entries[i] in entries;
      AdminCsvRowFree(entries[i], '\n');
    }
    CsvLines(AdminHeader, rows);
  }

  // ---------------------------------------------------------------------
  // The page

  /** What `generateClassReport` leaves behind: the report, if the grade
      read succeeds, and the attendance records. */
  datatype Generation = Generation(report: Option<seq<AdminEntry>>, attendance: seq<AttendanceRow>)

  /** The outcome of `generateClassReport` over the tables as they are
      before its reads: the report is missing exactly when call 0 fails. */
  function Generate(g: seq<GradeRow>, students: seq<Student>, profiles: seq<Profile>, att: seq<AttendanceRow>,
                    classes: seq<ClassRow>, classId: Id, y: nat, m: nat, faults: set<nat>): (r: Generation)
    requires 1 <= m <= 12
    ensures r.report.None? <==> 0 in faults
  {
    Generation(BuildAdminReport(g, students, profiles, classes, classId, y, m, faults),
               AdminAttendance(att, classId, y, m, faults))
  }

  /** The page's state. `alert` stands for the alert box being shown;
      `reportType` is chosen but never read. */
  class AdminReportsPage {
    var classes: seq<ClassRow>
    var selectedClass: Id
    var year: nat
    var month: nat
    var reportType: string
    var report: seq<AdminEntry>
    var attendance: seq<AttendanceRow>
    var alert: bool

    constructor (thisYear: nat, thisMonth: nat)
      requires 1 <= thisMonth <= 12
      ensures classes == [] && selectedClass == "" && reportType == "class"
      ensures report == [] && attendance == [] && !alert
      ensures year == thisYear && month == thisMonth
    {
      classes, selectedClass, reportType, report, attendance, alert := [], "", "class", [], [], false;
      year, month := thisYear, thisMonth;
    }

    /** `fetchClasses` on mount. */
    method FetchClasses(db: Db, readOk: bool)
      modifies this`classes, db`log
      ensures db.log == old(db.log) + [Select(Classes)]
      ensures classes == ClassList(old(db.classes), readOk)
    {
      db.Read(Classes);
      classes := ClassList(db.classes, readOk);
    }

    /** `generateClassReport`: nothing without a class; the grade read
        (call 0) failing alerts and keeps the previous report; otherwise the
        attendance (1), student (2) and teacher (3) reads follow and the
        report and records are replaced. */
    method GenerateClassReport(db: Db, faults: set<nat>)
      requires 1 <= month <= 12
      modifies this`report, this`attendance, this`alert, db`log
      ensures selectedClass == "" ==>
        db.log == old(db.log) && report == old(report) && attendance == old(attendance) && alert == old(alert)
      ensures selectedClass != "" && 0 in faults ==>
        db.log == old(db.log) + [Select(Grades)]
        && report == old(report) && attendance == old(attendance) && alert
      ensures selectedClass != "" && 0 !in faults ==>
        db.log == old(db.log) + [Select(Grades), Select(Attendance), Select(Students), Select(Profiles)]
        && Generation(Some(report), attendance)
           == Generate(old(db.grades), old(db.students), old(db.profiles), old(db.attendance), classes,
                       selectedClass, year, month, faults)
        && alert == old(alert)
    {
      if selectedClass == "" {
        return;
      }
      var outcome := Generate(db.grades, db.students, db.profiles, db.attendance, classes, selectedClass, year, month, faults);
      db.Read(Grades);
      if 0 in faults {
        alert := true;
        return;
      }
      db.Read(Attendance);
      db.Read(Students);
      db.Read(Profiles);
      AppendFour(old(db.log), Select(Grades), Select(Attendance), Select(Students), Select(Profiles));
      report, attendance := outcome.report.value, outcome.attendance;
    }
  }
}
