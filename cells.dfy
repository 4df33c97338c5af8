/** How the report pages print a nullable score in a table cell or a CSV
    field, and how they assemble CSV text. */
module Cells {
  import opened Common
  import opened Text
  import opened Records

  /** `String(v)` for a number, and "" for `null`: how `Array.join` and
      React print a value that may be missing. */
  function PlainCell(v: Option<Score>): string
  {
    if v.Some? then ScoreText(v.value) else ""
  }

  /** `v || blank`: `null` and `0` are both falsy, so both become `blank`. */
  function OrCell(v: Option<Score>, blank: string): string
  {
    if v.None? || v.value == 0 then blank else ScoreText(v.value)
  }

  /** `v ?? blank`: only `null` becomes `blank`; `0` prints as "0". */
  function NullishCell(v: Option<Score>, blank: string): string
  {
    if v.None? then blank else ScoreText(v.value)
  }

  /** A printed score is never empty and never a lone "-". */
  lemma ScoreTextShape(units: int)
    ensures ScoreText(units) != "" && ScoreText(units) != "-"
  {
    var m := if units < 0 then -units else units;
    var digits := NatText(m / 2);
    assert digits[|digits| - 1] == DigitChar(m / 2 % 10) != '-';
    if units >= 0 && m % 2 == 0 {
      assert ScoreText(units) == digits;
    }
  }

  /** A printed score holds only digits, `-`, `.` and `5`: no field or line
      separator. */
  lemma ScoreTextPlain(units: int, c: char)
    requires c == ',' || c == '\n'
    ensures c !in ScoreText(units)
  {
    var m := if units < 0 then -units else units;
    NatTextDigits(m / 2);
  }

  /** No cell of a score holds `c` unless its blank text does. */
  lemma CellsPlain(v: Option<Score>, blank: string, c: char)
    requires c == ',' || c == '\n'
    requires c !in blank
    ensures c !in PlainCell(v) && c !in OrCell(v, blank) && c !in NullishCell(v, blank)
  {
    if v.Some? {
      ScoreTextPlain(v.value, c);
    }
  }

  /** `||` and `??` differ on exactly one value: a score of zero. */
  lemma OrHidesZero(v: Option<Score>, blank: string)
    ensures OrCell(Some(0), blank) == blank
    ensures NullishCell(Some(0), blank) == "0"
    ensures v != Some(0) ==> OrCell(v, blank) == NullishCell(v, blank)
    ensures OrCell(v, blank) == blank <==> v.None? || v == Some(0) || ScoreText(v.value) == blank
  {
    assert NatText(0) == "0";
  }

  /** A cell that does not hide the value shows a printed score, so an
      empty CSV field and a "-" table cell both mean null or zero. */
  lemma OrCellBlank(v: Option<Score>, blank: string)
    requires blank == "" || blank == "-"
    ensures OrCell(v, blank) == blank <==> v.None? || v == Some(0)
  {
    if v.Some? {
      ScoreTextShape(v.value);
    }
  }

  /** The eight component cells of a grade row, each `v || blank`. */
  function OrCells(c: Components, blank: string): (r: seq<string>)
    ensures |r| == 8
    ensures forall k :: 0 <= k < 8 ==> r[k] == OrCell(Get(c, Fields[k]), blank)
  {
    [OrCell(c.evaluation1, blank), OrCell(c.evaluation2, blank), OrCell(c.evaluation3, blank),
     OrCell(c.evaluation4, blank), OrCell(c.monthlyExam, blank), OrCell(c.notebook, blank),
     OrCell(c.attendance, blank), OrCell(c.behavior, blank)]
  }

  /** The eight component cells of a grade row, each `v ?? blank`. */
  function NullishCells(c: Components, blank: string): (r: seq<string>)
    ensures |r| == 8
    ensures forall k :: 0 <= k < 8 ==> r[k] == NullishCell(Get(c, Fields[k]), blank)
  {
    [NullishCell(c.evaluation1, blank), NullishCell(c.evaluation2, blank), NullishCell(c.evaluation3, blank),
     NullishCell(c.evaluation4, blank), NullishCell(c.monthlyExam, blank), NullishCell(c.notebook, blank),
     NullishCell(c.attendance, blank), NullishCell(c.behavior, blank)]
  }

  /** `toFixed(1)` adds ".0" to a whole score and leaves a half score as
      `String` prints it. */
  lemma FixedAddsDecimal(units: int)
    ensures ScoreFixed1(units) == if units % 2 == 0 then ScoreText(units) + ".0" else ScoreText(units)
  {
    var m := if units < 0 then -units else units;
    assert m % 2 == units % 2 by {
      if units < 0 {
        assert units == -m && (-m) % 2 == (2 - m % 2) % 2;
      }
    }
    var whole := (if units < 0 then "-" else "") + NatText(m / 2);
    assert ScoreText(units) == whole + (if m % 2 == 1 then ".5" else "");
    assert ScoreFixed1(units) == whole + (if m % 2 == 1 then ".5" else ".0");
  }

  /** Each row's fields joined by `,`. */
  function JoinEach(rows: seq<seq<string>>): (r: seq<string>)
    ensures |r| == |rows|
    ensures forall i :: 0 <= i < |rows| ==> r[i] == Join(rows[i], ',')
  {
    seq(|rows|, i requires 0 <= i < |rows| => Join(rows[i], ','))
  }

  /** A file handed to the browser for download. */
  datatype Download = Download(fileName: string, text: string)

  /** `[header.join(","), ...rows.map(r => r.join(","))].join("\n")`: no
      field is quoted. */
  function CsvText(header: seq<string>, rows: seq<seq<string>>): string
  {
    Join([Join(header, ',')] + JoinEach(rows), '\n')
  }

  /** A character that is neither the separator nor in any piece is not in
      the joined text. */
  lemma {:induction false} JoinFree(parts: seq<string>, sep: char, c: char)
    requires c != sep
    requires forall p :: p in parts ==> c !in p
    ensures c !in Join(parts, sep)
  {
    if |parts| > 1 {
      assert parts[1..] == parts[1..] && forall p :: p in parts[1..] ==> p in parts;
      JoinFree(parts[1..], sep, c);
      assert parts[0] in parts;
    }
  }

  /** `c` appears in no field of the header or of any row. */
  predicate FreeOf(header: seq<string>, rows: seq<seq<string>>, c: char)
  {
    (forall p :: p in header ==> c !in p)
    && forall i, p :: 0 <= i < |rows| && p in rows[i] ==> c !in p
  }

  /** With no line break inside a field, the CSV text has exactly one line
      for the header and one per row, each the row's fields joined by `,`. */
  lemma CsvLines(header: seq<string>, rows: seq<seq<string>>)
    requires FreeOf(header, rows, '\n')
    ensures Split(CsvText(header, rows), '\n') == [Join(header, ',')] + JoinEach(rows)
    ensures |Split(CsvText(header, rows), '\n')| == |rows| + 1
  {
    var lines := [Join(header, ',')] + JoinEach(rows);
    JoinFree(header, ',', '\n');
    forall i | 0 <= i < |rows|
      ensures '\n' !in Join(rows[i], ',')
    {
      JoinFree(rows[i], ',', '\n');
    }
    forall l | l in lines
      ensures '\n' !in l
    {
      var k :| 0 <= k < |lines| && lines[k] == l;
      if k > 0 {
        assert l == Join(rows[k - 1], ',');
      }
    }
    SplitJoin(lines, '\n');
  }

  /** With no comma inside a field, every line splits back into its fields. */
  lemma CsvFields(fields: seq<string>)
    requires fields != []
    requires forall p :: p in fields ==> ',' !in p
    ensures Split(Join(fields, ','), ',') == fields
  {
    SplitJoin(fields, ',');
  }

  /** Without quoting, a comma inside a field adds a field: the line of a
      two-field row whose first field is "a,b" reads back as three fields. */
  lemma CommaSplitsField()
    ensures Split(Join(["a,b", "c"], ','), ',') == ["a", "b", "c"]
  {
    assert Join(["a,b", "c"], ',') == "a,b" + [','] + "c";
    SplitAt("a", ',', "b,c");
    SplitAt("b", ',', "c");
    SplitPlain("c", ',');
    assert "a,b,c" == "a" + [','] + "b,c";
    assert "b,c" == "b" + [','] + "c";
  }
}
