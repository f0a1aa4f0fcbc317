/** The table-or-diagram decision for a page (`simple_table_check`): a page
    is a table when at least two column-header words occur in its text, or
    when at least three of its first fifteen lines look like part rows. */
module TableCheck {
  import opened Strings
  import opened RowPatterns
  import opened Options

  const Indicators: seq<string> := ["NO.", "PART NO.", "PART NAME", "QTY", "REMARKS"]
  const HeaderThreshold: nat := 2
  const DataRowThreshold: nat := 3
  const ScannedLines: nat := 15

  /** How many of `words` occur in `u`. */
  function CountContained(u: string, words: seq<string>): (n: nat)
    ensures n <= |words|
  {
    if words == [] then 0
    else CountContained(u, words[..|words| - 1]) + (if Contains(u, words[|words| - 1]) then 1 else 0)
  }

  /** The number of header words in the upper-cased text. */
  function HeaderHits(text: string): nat {
    CountContained(Upper(text), Indicators)
  }

  /** One of the three part-row patterns matches the (stripped) line. */
  predicate IsDataRow(line: string)
    ensures IsDataRow(line) <==> SpacedRowRegex(line) || DottedRowRegex(line) || LooseRowRegex(line)
  {
    IsSpacedRow(line) || IsDottedRow(line) || IsLooseRow(line)
  }

  predicate IsDataRowLine(raw: string) {
    var line := Strip(raw, Space);
    line != [] && IsDataRow(line)
  }

  /** Which lines look like part rows once stripped. */
  function RowMarks(lines: seq<string>): seq<bool> {
    Map(lines, IsDataRowLine)
  }

  /** The number of `true` marks. */
  function CountTrue(marks: seq<bool>): (n: nat)
    ensures n <= |marks|
  {
    if marks == [] then 0
    else CountTrue(marks[..|marks| - 1]) + (if marks[|marks| - 1] then 1 else 0)
  }

  /** The number of lines that look like part rows once stripped. */
  function DataRowHits(lines: seq<string>): nat {
    CountTrue(RowMarks(lines))
  }

  /** `lines[:15]`. */
  function Window(lines: seq<string>): (w: seq<string>)
    ensures |w| == (if |lines| <= ScannedLines then |lines| else ScannedLines) && w == lines[..|w|]
  {
    if |lines| <= ScannedLines then lines else lines[..ScannedLines]
  }

  predicate IsTablePage(text: string) {
    HeaderHits(text) >= HeaderThreshold || DataRowHits(Window(SplitLines(text))) >= DataRowThreshold
  }

  /** `simple_table_check`: counts the header words, then walks the first
      fifteen lines counting part rows. */
  method SimpleTableCheck(text: string) returns (isTable: bool)
    ensures isTable == IsTablePage(text)
  {
    var count := HeaderHits(text);
    var lines := Window(SplitLines(text));
    var dataRowCount := 0;
    for i := 0 to |lines|
      invariant dataRowCount == DataRowHits(lines[..i])
    {
      MapSnoc(lines, i, IsDataRowLine);
      var line := Strip(lines[i], Space);
      if line == [] {
        continue;
      }
      if IsSpacedRow(line) || IsDottedRow(line) || IsLooseRow(line) {
        dataRowCount := dataRowCount + 1;
      }
    }
    assert lines[..|lines|] == lines;
    isTable := count >= HeaderThreshold || dataRowCount >= DataRowThreshold;
  }

  lemma {:induction false} CountTrueCounts(marks: seq<bool>)
    ensures CountTrue(marks) == |set k | 0 <= k < |marks| && marks[k]|
  {
    if marks != [] {
      var n := |marks| - 1;
      var front := marks[..n];
      CountTrueCounts(front);
      var before := set k | 0 <= k < n && front[k];
      var after := set k | 0 <= k < |marks| && marks[k];
      assert before == set k | 0 <= k < n && marks[k];
      if marks[n] {
        assert after == before + {n};
      } else {
        assert after == before;
      }
    }
  }

  /** The row count is the number of row-shaped lines. */
  lemma DataRowHitsCounts(lines: seq<string>)
    ensures DataRowHits(lines) == |set k | 0 <= k < |lines| && IsDataRowLine(lines[k])|
  {
    var marks := RowMarks(lines);
    CountTrueCounts(marks);
    assert (set k | 0 <= k < |marks| && marks[k]) == set k | 0 <= k < |lines| && IsDataRowLine(lines[k]);
  }

  /** The header count is the number of distinct header words present. */
  lemma {:induction false} CountContainedCounts(u: string, words: seq<string>)
    requires forall i, j | 0 <= i < j < |words| :: words[i] != words[j]
    ensures CountContained(u, words) == |set w | w in words && Contains(u, w)|
  {
    if words != [] {
      var n := |words| - 1;
      var front := words[..n];
      CountContainedCounts(u, front);
      var before := set w | w in front && Contains(u, w);
      var after := set w | w in words && Contains(u, w);
      assert words == front + [words[n]];
      assert words[n] !in front;
      if Contains(u, words[n]) {
        assert after == before + {words[n]};
      } else {
        assert after == before;
      }
    }
  }

  lemma HeaderHitsCounts(text: string)
    ensures HeaderHits(text) == |set w | w in Indicators && Contains(Upper(text), w)|
  {
    CountContainedCounts(Upper(text), Indicators);
  }
}
