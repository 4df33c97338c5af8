/** The administrator's student page (app/admin/students/page.tsx): the
    student list with its class names, search and class filter, and the
    form that adds a student. */
module AdminStudents {
  import opened Common
  import opened Records
  import opened Database
  import opened Ordering
  import opened AdminReports

  /** A listed student with the name of their class. */
  datatype ShownStudent = ShownStudent(student: Student, className: string)

  /** `classes.find(c => c.id === classId)?.name || "Unknown"`. */
  function ClassNameOf(classes: seq<ClassRow>, classId: Id): (r: string)
    ensures r != ""
  {
    match Find((c: ClassRow) => c.id == classId, classes)
    case None => "Unknown"
    case Some(c) => Or(Some(c.name), "Unknown")
  }

  /** The class name is that of the first class row with the student's
      class id, unless it is empty; "Unknown" when there is none. */
  lemma ClassNameOfSpec(classes: seq<ClassRow>, classId: Id)
    ensures (forall c :: c in classes ==> c.id != classId) ==> ClassNameOf(classes, classId) == "Unknown"
    ensures forall i :: 0 <= i < |classes| && classes[i].id == classId && classes[i].name != ""
                        && (forall j :: 0 <= j < i ==> classes[j].id != classId) ==>
      ClassNameOf(classes, classId) == classes[i].name
  {
    forall i | 0 <= i < |classes| && classes[i].id == classId && classes[i].name != ""
               && (forall j :: 0 <= j < i ==> classes[j].id != classId)
      ensures ClassNameOf(classes, classId) == classes[i].name
    {
      var f := Find((c: ClassRow) => c.id == classId, classes);
      assert classes[i] in classes;
      assert f.Some?;
      var k :| 0 <= k < |classes| && classes[k] == f.value && f.value.id == classId
                && forall j :: 0 <= j < k ==> classes[j].id != classId;
      assert k == i;
    }
  }

  /** The list with each student's class name; the rows are unchanged. */
  function Enrich(students: seq<Student>, classes: seq<ClassRow>): (r: seq<ShownStudent>)
    ensures |r| == |students|
    ensures forall i :: 0 <= i < |students| ==>
      r[i] == ShownStudent(students[i], ClassNameOf(classes, students[i].classId))
  {
    seq(|students|, i requires 0 <= i < |students| =>
      ShownStudent(students[i], ClassNameOf(classes, students[i].classId)))
  }

  function StudentNameKey(s: Student): Key { TextKey(s.name) }

  /** `filteredStudents`: the name, lower-cased, contains the lower-cased
      search term, and the class matches the filter unless the filter is
      empty. */
  predicate Matches(s: ShownStudent, term: string, filterClass: Id)
  {
    Contains(Lower(s.student.name), Lower(term)) && (filterClass == "" || s.student.classId == filterClass)
  }

  function FilteredStudents(students: seq<ShownStudent>, term: string, filterClass: Id): (r: seq<ShownStudent>)
    ensures forall s :: s in r <==> s in students && Matches(s, term, filterClass)
  {
    Filter((s: ShownStudent) => Matches(s, term, filterClass), students)
  }

  /** No search and no filter lists every student in order; the "all"
      option is no wildcard: it keeps only students whose class id is
      literally "all". */
  lemma FilteredStudentsSpec(students: seq<ShownStudent>, term: string)
    ensures FilteredStudents(students, "", "") == students
    ensures forall s :: s in FilteredStudents(students, term, "all") ==> s.student.classId == "all"
  {
    assert Lower("") == "";
    FilterKeepsAll((s: ShownStudent) => Matches(s, "", ""), students);
  }

  /** The add form. */
  datatype StudentForm = StudentForm(name: string, classId: Id, nationalId: string, seatNumber: string)

  const EmptyForm := StudentForm("", "", "", "")

  class AdminStudentsPage {
    var students: seq<ShownStudent>
    var classes: seq<ClassRow>
    var searchTerm: string
    var filterClass: Id
    var form: StudentForm
    var showForm: bool
    /** Whether an error message is shown. */
    var error: bool

    constructor ()
      ensures students == [] && classes == [] && searchTerm == "" && filterClass == ""
      ensures form == EmptyForm && !showForm && !error
    {
      students, classes, searchTerm, filterClass := [], [], "", "";
      form, showForm, error := EmptyForm, false, false;
    }

    /** `fetchData`: the classes by name, then the students by name with
        their class names; a failed read shows an error and stops. */
    method FetchData(db: Db, classesOk: bool, studentsOk: bool)
      modifies this`classes, this`students, this`error, db`log
      ensures db.log == old(db.log) + [Select(Classes)] + (if classesOk then [Select(Students)] else [])
      ensures classes == if classesOk then ClassList(db.classes, true) else old(classes)
      ensures students == if classesOk && studentsOk
        then Enrich(SortBy(db.students, StudentNameKey), ClassList(db.classes, true)) else old(students)
      ensures error == (old(error) || !classesOk || !studentsOk)
    {
      var sortedClasses := ClassList(db.classes, true);
      var enriched := Enrich(SortBy(db.students, StudentNameKey), sortedClasses);
      db.Read(Classes);
      if !classesOk {
        error := true;
        return;
      }
      classes := sortedClasses;
      db.Read(Students);
      if !studentsOk {
        error := true;
        return;
      }
      students := enriched;
    }

    /** `handleAddStudent`: an empty name or class is refused before any
        call; otherwise one student row is inserted holding the name, class
        and seat number (the national id is never stored, and no grade row
        is created), and the form is reset and the list read again. */
    method HandleAddStudent(db: Db, ok: bool, classesOk: bool, studentsOk: bool)
      requires db.Valid()
      modifies this`classes, this`students, this`error, this`form, this`showForm, db`students, db`log
      ensures db.Valid()
      ensures db.grades == old(db.grades)
      ensures old(form).name == "" || old(form).classId == "" ==>
        error && db.log == old(db.log) && db.students == old(db.students) && form == old(form)
        && showForm == old(showForm) && classes == old(classes) && students == old(students)
      ensures old(form).name != "" && old(form).classId != "" && !ok ==>
        error && db.log == old(db.log) + [Insert(Students)] && db.students == old(db.students)
        && form == old(form) && showForm == old(showForm) && classes == old(classes) && students == old(students)
      ensures old(form).name != "" && old(form).classId != "" && ok ==>
        |db.students| == |old(db.students)| + 1
        && db.students[..|old(db.students)|] == old(db.students)
        && (var s := db.students[|old(db.students)|];
            s.name == old(form).name && s.classId == old(form).classId
            && s.seatNumber == old(form).seatNumber && s.nationalId.None?
            && s.id !in Ids(old(db.students), StudentId))
        && form == EmptyForm && !showForm
        && db.log == old(db.log) + [Insert(Students), Select(Classes)] + (if classesOk then [Select(Students)] else [])
        && classes == (if classesOk then ClassList(db.classes, true) else old(classes))
        && students == (if classesOk && studentsOk
                        then Enrich(SortBy(db.students, StudentNameKey), ClassList(db.classes, true))
                        else old(students))
        && error == (!classesOk || !studentsOk)
    {
      error := false;
      if form.name == "" || form.classId == "" {
        error := true;
        return;
      }
      var id := db.InsertStudent(form.name, form.classId, form.seatNumber, ok);
      if !ok {
        error := true;
        return;
      }
      assert db.students[..|old(db.students)|] == old(db.students);
      form, showForm := EmptyForm, false;
      FetchData(db, classesOk, studentsOk);
    }

    /** `handleDeleteStudent`: after the confirmation, the student's row is
        deleted (its grade rows go with it) and the list read again; a
        failed delete shows an error and reads nothing. */
    method HandleDeleteStudent(db: Db, studentId: Id, confirmed: bool, ok: bool, classesOk: bool, studentsOk: bool)
      requires db.Valid()
      modifies this`classes, this`students, this`error, db`students, db`grades, db`log
      ensures db.Valid()
      ensures !confirmed ==>
        db.log == old(db.log) && db.students == old(db.students) && db.grades == old(db.grades)
        && classes == old(classes) && students == old(students) && error == old(error)
      ensures confirmed && !ok ==>
        error && db.log == old(db.log) + [Delete(Students, studentId)]
        && db.students == old(db.students) && db.grades == old(db.grades)
        && classes == old(classes) && students == old(students)
      ensures confirmed && ok ==>
        (forall s :: s in db.students <==> s in old(db.students) && s.id != studentId)
        && (forall g :: g in db.grades <==> g in old(db.grades) && g.studentId != studentId)
        && db.log == old(db.log) + [Delete(Students, studentId), Select(Classes)]
                     + (if classesOk then [Select(Students)] else [])
        && classes == (if classesOk then ClassList(db.classes, true) else old(classes))
        && students == (if classesOk && studentsOk
                        then Enrich(SortBy(db.students, StudentNameKey), ClassList(db.classes, true))
                        else old(students))
        && error == (old(error) || !classesOk || !studentsOk)
    {
      if !confirmed {
        return;
      }
      db.DeleteStudent(studentId, ok);
      if !ok {
        error := true;
        return;
      }
      FetchData(db, classesOk, studentsOk);
    }
  }
}
