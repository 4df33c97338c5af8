/** The administrator's grade-schema page (app/admin/grade-schema/page.tsx):
    the maximum of each graded component, loaded from the single row of
    `grade_schema`, edited in a form and saved by update or insert. */
module GradeSchemaPage {
  import opened Common
  import opened Text
  import opened Records
  import opened Database

  /** The form's maxima before any schema is loaded. */
  const DefaultMaxima := Maxima(10, 10, 10, 10, 20, 5, 5, 5)

  /** The sum of the eight maxima. */
  function Total(m: Maxima): int
  {
    m.evaluation1 + m.evaluation2 + m.evaluation3 + m.evaluation4
    + m.monthlyExam + m.notebook + m.attendance + m.behavior
  }

  /** The maxima of the fields of `fs`, added up. */
  function SumOver(fs: seq<Field>, m: Maxima): int
  {
    if fs == [] then 0 else MaxOf(m, fs[0]) + SumOver(fs[1..], m)
  }

  /** The total is the sum of each component's maximum, and the defaults
      add up to 75. */
  lemma TotalSumsFields(m: Maxima)
    ensures Total(m) == SumOver(Fields, m)
    ensures Total(DefaultMaxima) == 75
  {
    var fs := Fields;
    assert SumOver(fs[8..], m) == 0;
    assert fs[7..][1..] == fs[8..];
    assert SumOver(fs[7..], m) == m.behavior;
    assert fs[6..][1..] == fs[7..];
    assert SumOver(fs[6..], m) == m.attendance + m.behavior;
    assert fs[5..][1..] == fs[6..];
    assert SumOver(fs[5..], m) == m.notebook + m.attendance + m.behavior;
    assert fs[4..][1..] == fs[5..];
    assert SumOver(fs[4..], m) == m.monthlyExam + m.notebook + m.attendance + m.behavior;
    assert fs[3..][1..] == fs[4..];
    assert SumOver(fs[3..], m) == m.evaluation4 + m.monthlyExam + m.notebook + m.attendance + m.behavior;
    assert fs[2..][1..] == fs[3..];
    assert SumOver(fs[2..], m) == m.evaluation3 + m.evaluation4 + m.monthlyExam + m.notebook + m.attendance + m.behavior;
    assert fs[1..][1..] == fs[2..];
    assert SumOver(fs[1..], m) == m.evaluation2 + m.evaluation3 + m.evaluation4 + m.monthlyExam + m.notebook + m.attendance + m.behavior;
    assert fs[0..][1..] == fs[1..];
    assert fs[0..] == fs;
    assert SumOver(fs, m) == Total(m);
  }

  /** `{ ...m, [field]: v }`: one maximum replaced, the others kept. */
  function SetMax(m: Maxima, f: Field, v: int): (r: Maxima)
    ensures MaxOf(r, f) == v
    ensures forall g :: g != f ==> MaxOf(r, g) == MaxOf(m, g)
  {
    match f
    case Evaluation1 => m.(evaluation1 := v)
    case Evaluation2 => m.(evaluation2 := v)
    case Evaluation3 => m.(evaluation3 := v)
    case Evaluation4 => m.(evaluation4 := v)
    case MonthlyExam => m.(monthlyExam := v)
    case Notebook => m.(notebook := v)
    case AttendanceMark => m.(attendance := v)
    case Behavior => m.(behavior := v)
  }

  /** Changing one maximum changes the total by the difference. */
  lemma SetMaxTotal(m: Maxima, f: Field, v: int)
    ensures Total(SetMax(m, f, v)) == Total(m) - MaxOf(m, f) + v
  {
  }

  // ---------------------------------------------------------------------
  // The page state

  /** `formData`: the maxima, and after a load also the stored row's id,
      since the whole row is copied into it. */
  datatype Form = Form(id: Option<Id>, maxima: Maxima)

  /** `error` and `success` stand for their message boxes being shown. */
  datatype Page = Page(schema: Option<GradeSchema>, form: Form, isEditing: bool, error: bool, success: bool)

  const InitialPage := Page(None, Form(None, DefaultMaxima), false, false, false)

  /** A number input's `onChange`: `parseInt` of the text, stored unchecked. */
  function EditField(p: Page, f: Field, v: int): (q: Page)
    ensures MaxOf(q.form.maxima, f) == v
    ensures forall g :: g != f ==> MaxOf(q.form.maxima, g) == MaxOf(p.form.maxima, g)
    ensures q.(form := p.form) == p && q.form.id == p.form.id
  {
    p.(form := p.form.(maxima := SetMax(p.form.maxima, f, v)))
  }

  /** The cancel button: editing ends and, when a schema is loaded, the form
      is restored from it. */
  function Cancel(p: Page): (q: Page)
    ensures !q.isEditing && q.schema == p.schema && q.error == p.error && q.success == p.success
    ensures p.schema.Some? ==> q.form == Form(Some(p.schema.value.id), p.schema.value.maxima)
    ensures p.schema.None? ==> q.form == p.form
  {
    p.(isEditing := false,
       form := if p.schema.Some? then Form(Some(p.schema.value.id), p.schema.value.maxima) else p.form)
  }

  /** Editing and then cancelling leaves the stored schema's values in the
      form, whatever was typed. */
  lemma CancelUndoesEdits(p: Page, f: Field, v: int)
    requires p.schema.Some?
    ensures Cancel(EditField(p, f, v)).form == Cancel(p).form
  {
  }

  // ---------------------------------------------------------------------
  // Loading

  /** The outcome of `.select("*").single()`. */
  datatype Single = Found(row: GradeSchema) | NotFound | Failed

  /** `.single()` succeeds with exactly one row; zero or several rows give
      the error PGRST116; a failed request gives another error. */
  function SingleRow(rows: seq<GradeSchema>, readOk: bool): (r: Single)
    ensures r.Failed? <==> !readOk
    ensures r.Found? <==> readOk && |rows| == 1
    ensures r.Found? ==> r.row == rows[0]
  {
    if !readOk then Failed else if |rows| == 1 then Found(rows[0]) else NotFound
  }

  /** `fetchSchema`: a found row becomes the schema and the whole form;
      PGRST116 is not an error and changes nothing; any other error is shown. */
  function FetchSchema(p: Page, rows: seq<GradeSchema>, readOk: bool): Page
  {
    match SingleRow(rows, readOk)
    case Found(r) => p.(schema := Some(r), form := Form(Some(r.id), r.maxima))
    case NotFound => p
    case Failed => p.(error := true)
  }

  /** A load shows an error exactly when the request fails, loads the row
      exactly when the table holds one row, and otherwise changes nothing:
      an empty table keeps the default form, and so does a table of two or
      more rows. */
  lemma FetchSchemaSpec(p: Page, rows: seq<GradeSchema>, readOk: bool)
    ensures var q := FetchSchema(p, rows, readOk);
      (q.error <==> p.error || !readOk)
      && (readOk && |rows| == 1 ==> q.schema == Some(rows[0]) && q.form == Form(Some(rows[0].id), rows[0].maxima))
      && (readOk && |rows| != 1 ==> q == p)
      && q.isEditing == p.isEditing && q.success == p.success
  {
  }

  // ---------------------------------------------------------------------
  // Saving

  /** What `handleSave` leaves on the page once its write is done: an error
      when the write failed; otherwise the success message, the form closed
      and the schema reloaded (the reload's read is `readOk`). */
  function AfterSave(p: Page, writeOk: bool, schemas: seq<GradeSchema>, readOk: bool): Page
  {
    if !writeOk then p.(error := true, success := false)
    else FetchSchema(p.(error := false, success := true, isEditing := false), schemas, readOk)
  }

  /** The call the save issues: an update of the loaded row by id, or an
      insert when no schema is loaded. */
  function SaveCall(p: Page): Call
  {
    if p.schema.Some? then Update(GradeSchemas, p.schema.value.id, MaximaColumns) else Insert(GradeSchemas)
  }

  /** `handleSave`: update the loaded schema's row by id, or insert a new
      row when none is loaded; the maxima are written as they are in the
      form, unchecked, so zero and negative maxima are stored. On success
      the schema is fetched again. */
  method HandleSave(db: Db, p: Page, writeOk: bool, readOk: bool) returns (q: Page)
    modifies db`schemas, db`log
    ensures p.schema.Some? ==>
      db.schemas == if writeOk then SetMaxima(old(db.schemas), p.schema.value.id, p.form.maxima) else old(db.schemas)
    ensures p.schema.None? && writeOk ==>
      |db.schemas| == |old(db.schemas)| + 1 && db.schemas[..|old(db.schemas)|] == old(db.schemas)
      && db.schemas[|old(db.schemas)|].maxima == p.form.maxima
      && db.schemas[|old(db.schemas)|].id !in Ids(old(db.schemas), SchemaId)
    ensures p.schema.None? && !writeOk ==> db.schemas == old(db.schemas)
    ensures db.log == old(db.log) + [SaveCall(p)] + (if writeOk then [Select(GradeSchemas)] else [])
    ensures q == AfterSave(p, writeOk, db.schemas, readOk)
  {
    if p.schema.Some? {
      db.UpdateSchema(p.schema.value.id, p.form.maxima, writeOk);
    } else {
      db.InsertSchema(p.form.maxima, writeOk);
    }
    if !writeOk {
      q := p.(error := true, success := false);
      return;
    }
    db.Read(GradeSchemas);
    q := FetchSchema(p.(error := false, success := true, isEditing := false), db.schemas, readOk);
  }

  /** Saving the loaded schema and reading it back shows what was saved: a
      one-row table keeps one row, now holding the form's maxima. */
  lemma UpdateReadsBack(p: Page, row: GradeSchema)
    requires p.schema == Some(row)
    ensures var q := AfterSave(p, true, SetMaxima([row], row.id, p.form.maxima), true);
      q.schema == Some(GradeSchema(row.id, p.form.maxima)) && q.form.maxima == p.form.maxima
      && q.success && !q.error && !q.isEditing
  {
    assert SetMaxima([row], row.id, p.form.maxima) == [GradeSchema(row.id, p.form.maxima)];
  }

  /** The first save into an empty table inserts one row and loads it. */
  lemma FirstInsertLoads(p: Page, row: GradeSchema)
    requires p.schema.None? && row.maxima == p.form.maxima
    ensures var q := AfterSave(p, true, [row], true);
      q.schema == Some(row) && q.form == Form(Some(row.id), p.form.maxima)
  {
  }

  /** With no schema loaded and the table not empty, a save inserts one
      more row; the table then holds two or more rows, `.single()` keeps
      failing with PGRST116, no schema is ever loaded and every later save
      inserts again. */
  lemma InsertIntoNonEmptyNeverLoads(p: Page, schemas: seq<GradeSchema>, readOk: bool)
    requires p.schema.None? && |schemas| >= 2
    ensures AfterSave(p, true, schemas, readOk).schema.None?
    ensures SaveCall(AfterSave(p, true, schemas, readOk)) == Insert(GradeSchemas)
  {
  }

  // ---------------------------------------------------------------------
  // The displayed total

  /** A JavaScript value in the reduction: a number or a string. */
  datatype JsValue = Num(n: int) | Str(s: string)

  /** JavaScript `a + b`: addition of two numbers, otherwise concatenation
      of their texts. */
  function JsAdd(a: JsValue, b: JsValue): JsValue
  {
    if a.Num? && b.Num? then Num(a.n + b.n)
    else Str(JsText(a) + JsText(b))
  }

  function JsText(v: JsValue): string
  {
    match v
    case Num(n) => IntText(n)
    case Str(s) => s
  }

  /** `values.reduce((a, b) => a + b, acc)`. */
  function Reduce(acc: JsValue, values: seq<JsValue>): JsValue
    decreases |values|
  {
    if values == [] then acc else Reduce(JsAdd(acc, values[0]), values[1..])
  }

  /** `Object.values(formData)`: the id first when the form holds a loaded
      row, then the eight maxima in column order. */
  function FormValues(form: Form): seq<JsValue>
  {
    (if form.id.Some? then [Str(form.id.value)] else [])
    + [Num(form.maxima.evaluation1), Num(form.maxima.evaluation2), Num(form.maxima.evaluation3),
       Num(form.maxima.evaluation4), Num(form.maxima.monthlyExam), Num(form.maxima.notebook),
       Num(form.maxima.attendance), Num(form.maxima.behavior)]
  }

  /** The total as written: `Object.values(formData).reduce((a, b) => a + b, 0)`. */
  function ShownTotalAsWritten(form: Form): JsValue
  {
    Reduce(Num(0), FormValues(form))
  }

  /** Once a string enters, the result is a string. */
  lemma {:induction false} ReduceString(s: string, values: seq<JsValue>)
    ensures Reduce(Str(s), values).Str?
    decreases |values|
  {
    if values != [] {
      ReduceString(JsText(JsAdd(Str(s), values[0])), values[1..]);
    }
  }

  /** Before a load the form holds only numbers and the total is their sum. */
  lemma ShownTotalBeforeLoad(form: Form)
    requires form.id.None?
    ensures ShownTotalAsWritten(form) == Num(Total(form.maxima))
  {
    var m := form.maxima;
    var vs := FormValues(form);
    assert vs[8..] == [];
    assert Reduce(Num(0), vs) == Reduce(Num(m.evaluation1), vs[1..]);
    assert Reduce(Num(m.evaluation1), vs[1..])
      == Reduce(Num(m.evaluation1 + m.evaluation2), vs[2..]);
    assert Reduce(Num(m.evaluation1 + m.evaluation2), vs[2..])
      == Reduce(Num(m.evaluation1 + m.evaluation2 + m.evaluation3), vs[3..]);
    assert Reduce(Num(m.evaluation1 + m.evaluation2 + m.evaluation3), vs[3..])
      == Reduce(Num(m.evaluation1 + m.evaluation2 + m.evaluation3 + m.evaluation4), vs[4..]);
    assert Reduce(Num(m.evaluation1 + m.evaluation2 + m.evaluation3 + m.evaluation4), vs[4..])
      == Reduce(Num(m.evaluation1 + m.evaluation2 + m.evaluation3 + m.evaluation4 + m.monthlyExam), vs[5..]);
    assert Reduce(Num(m.evaluation1 + m.evaluation2 + m.evaluation3 + m.evaluation4 + m.monthlyExam), vs[5..])
      == Reduce(Num(m.evaluation1 + m.evaluation2 + m.evaluation3 + m.evaluation4 + m.monthlyExam + m.notebook), vs[6..]);
    assert Reduce(Num(m.evaluation1 + m.evaluation2 + m.evaluation3 + m.evaluation4 + m.monthlyExam + m.notebook), vs[6..])
      == Reduce(Num(Total(m) - m.behavior), vs[7..]);
    assert Reduce(Num(Total(m) - m.behavior), vs[7..]) == Reduce(Num(Total(m)), vs[8..]);
  }

  /** After a load the form holds the row's id, so the total is a string. */
  lemma ShownTotalAfterLoad(form: Form)
    requires form.id.Some?
    ensures ShownTotalAsWritten(form).Str?
  {
    var vs := FormValues(form);
    assert Reduce(Num(0), vs) == Reduce(Str("0" + form.id.value), vs[1..]);
    ReduceString("0" + form.id.value, vs[1..]);
  }

  /** One step of the reduction once the accumulator is a string. */
  lemma ConcatenateStep(s: string, n: int, rest: seq<JsValue>)
    ensures Reduce(Str(s), [Num(n)] + rest) == Reduce(Str(s + IntText(n)), rest)
  {
    assert ([Num(n)] + rest)[1..] == rest;
  }

  /** The four evaluations of the default maxima appended to "0s1". */
  lemma ConcatenateEvaluations(rest: seq<JsValue>)
    ensures Reduce(Str("0s1"), [Num(10), Num(10), Num(10), Num(10)] + rest)
      == Reduce(Str("0s110101010"), rest)
  {
    var vs := [Num(10), Num(10), Num(10), Num(10)] + rest;
    assert IntText(10) == "10";
    assert vs[4..] == rest;
    assert vs[0..] == [Num(10)] + vs[1..];
    ConcatenateStep("0s1", 10, vs[1..]);
    assert "0s1" + IntText(10) == "0s110";
    assert vs[1..] == [Num(10)] + vs[2..];
    ConcatenateStep("0s110", 10, vs[2..]);
    assert "0s110" + IntText(10) == "0s11010";
    assert vs[2..] == [Num(10)] + vs[3..];
    ConcatenateStep("0s11010", 10, vs[3..]);
    assert "0s11010" + IntText(10) == "0s1101010";
    assert vs[3..] == [Num(10)] + vs[4..];
    ConcatenateStep("0s1101010", 10, vs[4..]);
    assert "0s1101010" + IntText(10) == "0s110101010";
  }

  /** The last four default maxima appended. */
  lemma ConcatenateRest()
    ensures Reduce(Str("0s110101010"), [Num(20), Num(5), Num(5), Num(5)]) == Str("0s11010101020555")
  {
    var vs := [Num(20), Num(5), Num(5), Num(5)];
    assert IntText(20) == "20" && IntText(5) == "5";
    assert vs[4..] == [];
    assert vs[0..] == [Num(20)] + vs[1..];
    ConcatenateStep("0s110101010", 20, vs[1..]);
    assert "0s110101010" + IntText(20) == "0s11010101020";
    assert vs[1..] == [Num(5)] + vs[2..];
    ConcatenateStep("0s11010101020", 5, vs[2..]);
    assert "0s11010101020" + IntText(5) == "0s110101010205";
    assert vs[2..] == [Num(5)] + vs[3..];
    ConcatenateStep("0s110101010205", 5, vs[3..]);
    assert "0s110101010205" + IntText(5) == "0s1101010102055";
    assert vs[3..] == [Num(5)] + vs[4..];
    ConcatenateStep("0s1101010102055", 5, vs[4..]);
    assert "0s1101010102055" + IntText(5) == "0s11010101020555";
  }

  /** With the default maxima and the id "s1" the page shows
      "0s11010101020555" where 75 is meant. */
  lemma ShownTotalConcatenates()
    ensures ShownTotalAsWritten(Form(Some("s1"), DefaultMaxima)) == Str("0s11010101020555")
  {
    var vs := FormValues(Form(Some("s1"), DefaultMaxima));
    assert IntText(0) + "s1" == "0s1";
    assert vs[1..] == [Num(10), Num(10), Num(10), Num(10)] + [Num(20), Num(5), Num(5), Num(5)];
    assert Reduce(Num(0), vs) == Reduce(Str("0s1"), vs[1..]);
    ConcatenateEvaluations([Num(20), Num(5), Num(5), Num(5)]);
    ConcatenateRest();
  }

  /** The total as evidently intended: the sum of the eight maxima, whether
      or not a row has been loaded. */
  function ShownTotal(form: Form): (r: int)
    ensures r == SumOver(Fields, form.maxima)
  {
    TotalSumsFields(form.maxima);
    Total(form.maxima)
  }

  /** The intended total is the default 75 before a load and the stored
      schema's total after one, and equals the as-written total exactly
      when no id is in the form. */
  lemma ShownTotalAgrees(p: Page, rows: seq<GradeSchema>)
    ensures ShownTotal(InitialPage.form) == 75
    ensures var q := FetchSchema(p, rows, true);
      |rows| == 1 ==> ShownTotal(q.form) == Total(rows[0].maxima)
    ensures forall form: Form :: form.id.None? ==> ShownTotalAsWritten(form) == Num(ShownTotal(form))
  {
    TotalSumsFields(DefaultMaxima);
    forall form: Form | form.id.None?
      ensures ShownTotalAsWritten(form) == Num(ShownTotal(form))
    {
      ShownTotalBeforeLoad(form);
    }
  }
}
