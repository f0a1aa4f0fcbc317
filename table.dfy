/** Row extraction from a page classified as a table (`extract_table_basic`):
    a page title from the first ten lines, then one five-column row from
    every line that passes the filters and one of three row patterns. */
module TableExtract {
  import opened Strings
  import opened Options
  import opened RowPatterns
  import opened Splitting
  import opened Decimal
  import opened Document

  /** Words whose presence, upper-cased, marks a header or page-info line. */
  const SkipWords: seq<string> := ["NO.", "PART NO.", "PART NAME", "QTY", "REMARKS", "PAGE", "MIXER", "MANUAL", "REV."]
  const TitleLines: nat := 10
  const MinTitleLength: nat := 5
  const MinRowLength: nat := 10
  const Columns: nat := 5

  /** One extracted table: its 1-based page number, the model, a title and
      its rows. */
  datatype Table = Table(page: nat, model: string, title: string, rows: seq<seq<string>>)

  // ---------------------------------------------------------------------
  // The page title

  /** A stripped line that can serve as the title: longer than five
      characters and not starting (case-sensitively) with `PAGE` or
      `WM63SLF`. */
  predicate IsTitleCandidate(line: string) {
    |line| > MinTitleLength && !StartsWith(line, "PAGE") && !StartsWith(line, "WM63SLF")
  }

  /** `lines[:10]`. */
  function TitleWindow(lines: seq<string>): (w: seq<string>)
    ensures |w| == (if |lines| <= TitleLines then |lines| else TitleLines) && w == lines[..|w|]
  {
    if |lines| <= TitleLines then lines else lines[..TitleLines]
  }

  /** The first line at or after `from` whose stripped form is a title. */
  function FirstTitleFrom(lines: seq<string>, from: nat): (r: Option<nat>)
    requires from <= |lines|
    ensures r.Some? ==> from <= r.value < |lines| && IsTitleCandidate(Strip(lines[r.value], Space))
    ensures forall k | from <= k < |lines| && (r.None? || k < r.value) :: !IsTitleCandidate(Strip(lines[k], Space))
    decreases |lines| - from
  {
    if from == |lines| then None
    else if IsTitleCandidate(Strip(lines[from], Space)) then Some(from)
    else FirstTitleFrom(lines, from + 1)
  }

  /** The page title: the first title candidate among the first ten
      stripped lines, or empty when there is none. */
  function PageTitle(lines: seq<string>): (r: string)
    ensures r != [] <==> exists k | 0 <= k < |TitleWindow(lines)| :: IsTitleCandidate(Strip(lines[k], Space))
    ensures r != [] ==> exists k | 0 <= k < |TitleWindow(lines)| ::
              r == Strip(lines[k], Space) && IsTitleCandidate(r) &&
              forall k' | 0 <= k' < k :: !IsTitleCandidate(Strip(lines[k'], Space))
  {
    var w := TitleWindow(lines);
    assert forall k | 0 <= k < |w| :: w[k] == lines[k];
    match FirstTitleFrom(w, 0)
    case None => []
    case Some(k) => Strip(w[k], Space)
  }

  /** The title loop: stops at the first candidate of the first ten lines. */
  method DetectTitle(lines: seq<string>) returns (title: string)
    ensures title == PageTitle(lines)
  {
    var w := TitleWindow(lines);
    title := [];
    var i := 0;
    while i < |w|
      invariant 0 <= i <= |w|
      invariant FirstTitleFrom(w, i) == FirstTitleFrom(w, 0)
    {
      var line := Strip(w[i], Space);
      if |line| > MinTitleLength && !StartsWith(line, "PAGE") && !StartsWith(line, "WM63SLF") {
        title := line;
        break;
      }
      i := i + 1;
    }
  }

  // ---------------------------------------------------------------------
  // Rows

  /** The line, upper-cased, holds one of the skip words. */
  predicate IsSkipLine(line: string) {
    exists k | 0 <= k < |SkipWords| :: Contains(Upper(line), SkipWords[k])
  }

  /** The fields the pattern chain reads from a stripped line. A spaced row
      is split on runs of two blanks and needs three pieces; otherwise a line
      holding `...` that is a dotted row is split on runs of three dots;
      otherwise a general row is split on two dots or three blanks and needs
      two pieces. A spaced row with too few pieces yields nothing: the later
      patterns are alternatives, not fallbacks. */
  function RowFields(line: string): (r: Option<seq<string>>)
    ensures r.Some? ==> SpacedRowRegex(line) || DottedRowRegex(line) || GeneralRowRegex(line)
    ensures r.Some? ==> InOrder(r.value, line)
    ensures r.Some? ==> forall k | 0 <= k < |r.value| :: r.value[k] != []
    ensures SpacedRowRegex(line) ==>
              r == if |ReSplit(line, SpacedSplit)| >= 3 then Some(CleanFields(ReSplit(line, SpacedSplit), Space)) else None
    ensures !SpacedRowRegex(line) && Contains(line, "...") && DottedRowRegex(line) ==>
              r == Some(CleanFields(ReSplit(line, DottedSplit), SpaceOrDot))
    ensures !SpacedRowRegex(line) && !(Contains(line, "...") && DottedRowRegex(line)) && GeneralRowRegex(line) ==>
              r == if |ReSplit(line, GeneralSplit)| >= 2 then Some(CleanFields(ReSplit(line, GeneralSplit), SpaceOrDot)) else None
    ensures !SpacedRowRegex(line) && !(Contains(line, "...") && DottedRowRegex(line)) && !GeneralRowRegex(line) ==> r.None?
  {
    if IsSpacedRow(line) then
      var parts := ReSplit(line, SpacedSplit);
      if |parts| >= 3 then
        SplitFieldsInOrder(line, SpacedSplit, Space);
        Some(CleanFields(parts, Space))
      else None
    else if Contains(line, "...") && IsDottedRow(line) then
      SplitFieldsInOrder(line, DottedSplit, SpaceOrDot);
      Some(CleanFields(ReSplit(line, DottedSplit), SpaceOrDot))
    else if IsGeneralRow(line) then
      var parts := ReSplit(line, GeneralSplit);
      if |parts| >= 2 then
        SplitFieldsInOrder(line, GeneralSplit, SpaceOrDot);
        Some(CleanFields(parts, SpaceOrDot))
      else None
    else None
  }

  /** A row cut or padded with empty cells to exactly five columns. */
  function Fit(fields: seq<string>): (r: seq<string>)
    ensures |r| == Columns
    ensures forall k | 0 <= k < Columns :: r[k] == if k < |fields| then fields[k] else ""
  {
    if |fields| < Columns then fields + seq(Columns - |fields|, _ => "") else fields[..Columns]
  }

  /** The padding loop: appends empty cells while the row is short, then
      keeps the first five. */
  method PadRow(fields: seq<string>) returns (row: seq<string>)
    ensures row == Fit(fields)
  {
    row := fields;
    while |row| < Columns
      invariant |fields| <= |row| && row[..|fields|] == fields
      invariant |fields| < Columns ==> |row| <= Columns
      invariant forall k | |fields| <= k < |row| :: row[k] == ""
      decreases Columns - |row|
    {
      row := row + [""];
    }
    row := row[..Columns];
  }

  /** The row one line of the page yields. The line is stripped; it must be
      at least ten characters long, hold no skip word, differ from the title
      ignoring case, and give at least two fields. */
  function TableRow(raw: string, title: string): (r: Option<seq<string>>)
    ensures var line := Strip(raw, Space);
      r.Some? <==> |line| >= MinRowLength && !IsSkipLine(line) && Upper(line) != Upper(title) &&
                   RowFields(line).Some? && |RowFields(line).value| >= 2
    ensures r.Some? ==> r.value == Fit(RowFields(Strip(raw, Space)).value)
    ensures r.Some? ==> |r.value| == Columns
    ensures r.Some? ==>
              var line := Strip(raw, Space);
              |line| >= MinRowLength && !IsSkipLine(line) && Upper(line) != Upper(title) &&
              (SpacedRowRegex(line) || DottedRowRegex(line) || GeneralRowRegex(line))
    ensures r.Some? ==> r.value[0] != [] && r.value[1] != []
  {
    var line := Strip(raw, Space);
    if line == [] || |line| < MinRowLength then None
    else if IsSkipLine(line) || Upper(line) == Upper(title) then None
    else
      match RowFields(line)
      case Some(fields) =>
        if |fields| >= 2 then Some(Fit(fields)) else None
      case None => None
  }

  /** The row of each line, `TableRow` with the title fixed. */
  function RowOf(title: string): string -> Option<seq<string>> {
    line => TableRow(line, title)
  }

  function LineRows(lines: seq<string>, title: string): seq<Option<seq<string>>> {
    Map(lines, RowOf(title))
  }

  /** The rows of a page, in line order. */
  function TableRows(lines: seq<string>, title: string): (r: seq<seq<string>>)
    ensures |r| <= |lines|
  {
    Somes(LineRows(lines, title))
  }

  /** What `extract_table_basic` returns for the page at `index`: nothing
      when no line gives a row, otherwise one table numbered from 1 whose
      title falls back to `Parts Table - Page <n>`. */
  function TableOf(text: string, index: nat, model: string): (r: seq<Table>)
    ensures |r| <= 1
    ensures r == [] <==> TableRows(SplitLines(text), PageTitle(SplitLines(text))) == []
    ensures r != [] ==> r[0].page == DisplayPage(index) && r[0].model == model && r[0].title != []
    ensures r != [] ==> forall k | 0 <= k < |r[0].rows| :: |r[0].rows[k]| == Columns
    ensures var lines := SplitLines(text); var title := PageTitle(lines);
      r != [] ==> r[0].rows == TableRows(lines, title) &&
                  r[0].title == if title == [] then "Parts Table - Page " + Dec(DisplayPage(index)) else title
  {
    var lines := SplitLines(text);
    var title := PageTitle(lines);
    var rows := TableRows(lines, title);
    if rows == [] then []
    else
      RowsWidth(lines, title);
      var shown := if title == [] then "Parts Table - Page " + Dec(DisplayPage(index)) else title;
      [Table(DisplayPage(index), model, shown, rows)]
  }

  /** Every row of a page has five columns. */
  lemma RowsWidth(lines: seq<string>, title: string)
    ensures forall k | 0 <= k < |TableRows(lines, title)| :: |TableRows(lines, title)[k]| == Columns
  {
    var rows := LineRows(lines, title);
    forall k | 0 <= k < |rows| && rows[k].Some? ensures |rows[k].value| == Columns {
      assert rows[k] == TableRow(lines[k], title);
    }
    SomesEvery(rows, (row: seq<string>) => |row| == Columns);
  }

  /** The body of the row loop for one line. */
  method RowOfLine(raw: string, title: string) returns (r: Option<seq<string>>)
    ensures r == TableRow(raw, title)
  {
    var line := Strip(raw, Space);
    if line == [] || |line| < MinRowLength {
      return None;
    }
    if IsSkipLine(line) || Upper(line) == Upper(title) {
      return None;
    }
    var fields := RowFields(line);
    if fields.Some? && |fields.value| >= 2 {
      var row := PadRow(fields.value);
      return Some(row);
    }
    return None;
  }

  /** `extract_table_basic` on the text of the page at `index`. */
  method ExtractTable(text: string, index: nat, model: string) returns (tables: seq<Table>)
    ensures tables == TableOf(text, index, model)
  {
    var lines := SplitLines(text);
    var title := DetectTitle(lines);
    var rows: seq<seq<string>> := [];
    for i := 0 to |lines|
      invariant rows == Somes(LineRows(lines[..i], title))
    {
      var row := RowOfLine(lines[i], title);
      FilterMapStep(lines, i, RowOf(title));
      if row.Some? {
        rows := rows + [row.value];
      }
    }
    assert lines[..|lines|] == lines;
    if rows == [] {
      tables := [];
    } else {
      var shown := if title == [] then "Parts Table - Page " + Dec(DisplayPage(index)) else title;
      tables := [Table(DisplayPage(index), model, shown, rows)];
    }
  }

  // ---------------------------------------------------------------------
  // Properties

  /** Where the rows come from: each from its own line, in line order, and
      every line that yields a row is represented. */
  lemma TableRowsOrigins(lines: seq<string>, title: string) returns (idx: seq<nat>)
    ensures |idx| == |TableRows(lines, title)|
    ensures forall i | 0 <= i < |idx| ::
              idx[i] < |lines| && TableRow(lines[idx[i]], title) == Some(TableRows(lines, title)[i])
    ensures forall i, j | 0 <= i < j < |idx| :: idx[i] < idx[j]
    ensures forall j | 0 <= j < |lines| && TableRow(lines[j], title).Some? :: j in idx
  {
    idx := SomesOrigins(LineRows(lines, title));
  }

  /** The non-empty cells of a row are text of its line, in order. */
  lemma TableRowFromLine(raw: string, title: string)
    requires TableRow(raw, title).Some?
    ensures InOrder(TableRow(raw, title).value, Strip(raw, Space))
  {
    var line := Strip(raw, Space);
    var fields := RowFields(line).value;
    assert TableRow(raw, title).value == Fit(fields);
    if |fields| < Columns {
      InOrderPadEmpty(fields, Columns - |fields|, line);
    } else {
      InOrderPrefix(fields, Columns, line);
    }
  }

  /** The line the title was taken from, one of the first ten, never
      becomes a row, and neither does any other line that strips to it. */
  lemma TitleLineIsNoRow(lines: seq<string>)
    requires PageTitle(lines) != []
    ensures exists k | 0 <= k < |TitleWindow(lines)| :: Strip(lines[k], Space) == PageTitle(lines)
    ensures forall k | 0 <= k < |lines| && Strip(lines[k], Space) == PageTitle(lines) ::
              TableRow(lines[k], PageTitle(lines)).None?
  {
    var title := PageTitle(lines);
    forall k | 0 <= k < |lines| && Strip(lines[k], Space) == title
      ensures TableRow(lines[k], title).None?
    {
      TitleIsNoRow(lines[k], title);
    }
  }

  /** A line that, stripped, is the title yields no row. */
  lemma TitleIsNoRow(raw: string, title: string)
    requires Strip(raw, Space) == title
    ensures TableRow(raw, title).None?
  {
    assert Upper(Strip(raw, Space)) == Upper(title);
  }
}
