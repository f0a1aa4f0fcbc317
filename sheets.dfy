/** The naming and header logic of the workbook writer
    (`save_results_simple`): one sheet per table, named after the model, the
    page and a cleaned, shortened title, and a header row as wide as the
    widest table row. */
module Sheets {
  import opened Strings
  import opened Decimal
  import opened TableExtract

  /** The longest sheet name a workbook accepts. */
  const MaxSheetName: nat := 31
  const MaxTitle: nat := 20
  const GenericHeaders: seq<string> := ["NO.", "PART_NO", "PART_NAME", "QTY", "REMARKS"]

  /** `s[:n]`. */
  function Truncate(s: string, n: nat): (r: string)
    ensures |r| == (if |s| <= n then |s| else n) && r == s[..|r|]
  {
    if |s| <= n then s else s[..n]
  }

  /** `re.sub(r'[^\w\s]', '', s)`: drops every character that is neither a
      word character nor white space; a string made only of such characters
      is left alone. */
  function KeepWordAndSpace(s: string): (r: string)
    ensures |r| <= |s|
    ensures forall k | 0 <= k < |r| :: In(r[k], Word) || In(r[k], Space)
    ensures (forall k | 0 <= k < |s| :: In(s[k], Word) || In(s[k], Space)) ==> r == s
    ensures |s| == 1 ==> r == if In(s[0], Word) || In(s[0], Space) then s else []
  {
    if s == [] then []
    else (if In(s[0], Word) || In(s[0], Space) then [s[0]] else []) + KeepWordAndSpace(s[1..])
  }

  /** The substitution works character by character: the kept text of a
      concatenation is the kept text of each part, one after the other. */
  lemma {:induction false} KeepWordAndSpaceConcat(a: string, b: string)
    ensures KeepWordAndSpace(a + b) == KeepWordAndSpace(a) + KeepWordAndSpace(b)
    decreases |a|
  {
    if a == [] {
      assert a + b == b;
    } else {
      var t := a + b;
      assert t[0] == a[0] && t[1..] == a[1..] + b;
      KeepWordAndSpaceConcat(a[1..], b);
      var h: string := if In(a[0], Word) || In(a[0], Space) then [a[0]] else [];
      assert h + (KeepWordAndSpace(a[1..]) + KeepWordAndSpace(b)) == (h + KeepWordAndSpace(a[1..])) + KeepWordAndSpace(b);
    }
  }

  /** `re.sub(r'\s+', '_', s)`: every maximal run of white space becomes one
      underscore; a string without white space is left alone. */
  function CollapseSpaces(s: string): (r: string)
    ensures |r| <= |s|
    ensures forall k | 0 <= k < |r| :: !In(r[k], Space)
    ensures (forall k | 0 <= k < |s| :: In(s[k], Word) || In(s[k], Space)) ==>
              forall k | 0 <= k < |r| :: In(r[k], Word)
    ensures (forall k | 0 <= k < |s| :: !In(s[k], Space)) ==> r == s
    decreases |s|
  {
    if s == [] then []
    else if In(s[0], Space) then
      var j := RunEnd(s, 0, Space);
      "_" + CollapseSpaces(s[j..])
    else [s[0]] + CollapseSpaces(s[1..])
  }

  /** A character that is not white space is kept as it is. */
  lemma CollapseSpacesKeeps(c: char, rest: string)
    requires !In(c, Space)
    ensures CollapseSpaces([c] + rest) == [c] + CollapseSpaces(rest)
  {
    assert ([c] + rest)[1..] == rest;
  }

  /** A maximal run of white space becomes a single underscore. */
  lemma CollapseSpacesRun(run: string, rest: string)
    requires run != [] && forall k | 0 <= k < |run| :: In(run[k], Space)
    requires rest != [] ==> !In(rest[0], Space)
    ensures CollapseSpaces(run + rest) == "_" + CollapseSpaces(rest)
  {
    var t := run + rest;
    assert AllIn(t, 0, |run|, Space);
    assert |run| < |t| ==> t[|run|] == rest[0];
    RunEndAt(t, 0, |run|, Space);
    assert t[|run|..] == rest;
  }

  /** The title part of a sheet name: special characters removed, white
      space runs turned into underscores, at most twenty characters, all of
      them word characters. */
  function SheetTitle(title: string): (r: string)
    ensures |r| <= MaxTitle
    ensures forall k | 0 <= k < |r| :: In(r[k], Word)
    ensures var full := CollapseSpaces(KeepWordAndSpace(title));
      |r| == (if |full| <= MaxTitle then |full| else MaxTitle) && r == full[..|r|]
  {
    Truncate(CollapseSpaces(KeepWordAndSpace(title)), MaxTitle)
  }

  /** The sheet name before the length limit, for a stripped title. */
  function NameFor(model: string, page: nat, title: string): (r: string)
    ensures |r| > |model| + 2 && r[..|model| + 2] == model + "_P"
  {
    if title != [] then model + "_P" + Dec(page) + "_" + SheetTitle(title)
    else model + "_Page_" + Dec(page)
  }

  /** The sheet name of a table before the length limit. */
  function FullSheetName(t: Table): string {
    NameFor(t.model, t.page, Strip(t.title, Space))
  }

  /** The sheet name of a table: the full name cut to 31 characters. */
  function SheetName(t: Table): (r: string)
    ensures |r| <= MaxSheetName
    ensures var f := FullSheetName(t); |r| == (if |f| <= MaxSheetName then |f| else MaxSheetName) && r == f[..|r|]
  {
    var f := FullSheetName(t);
    Truncate(f, MaxSheetName)
  }

  /** Cleaning a cleaned title changes nothing. */
  lemma SheetTitleIdempotent(title: string)
    ensures SheetTitle(SheetTitle(title)) == SheetTitle(title)
  {
    var c := SheetTitle(title);
    assert forall k | 0 <= k < |c| :: In(c[k], Word) && !In(c[k], Space);
    assert KeepWordAndSpace(c) == c;
    assert CollapseSpaces(c) == c;
  }

  /** The page number read back from a sheet name: the digits after the
      model name and `_P`. */
  function SheetPage(name: string, model: string): nat {
    if |name| < |model| + 2 then 0 else Parse(LeadingDigits(name[|model| + 2..]))
  }

  /** A titled table whose model name leaves room for the page number and
      the underscore after it keeps its page number in its sheet name. */
  lemma SheetNamePage(t: Table)
    requires Strip(t.title, Space) != []
    requires |t.model| + 3 + |Dec(t.page)| <= MaxSheetName
    ensures SheetPage(SheetName(t), t.model) == t.page
  {
    var pre := t.model + "_P";
    var tail := SheetTitle(Strip(t.title, Space));
    assert FullSheetName(t) == pre + Dec(t.page) + "_" + tail;
    ReadPage(FullSheetName(t), SheetName(t), pre, t.page, tail);
  }

  /** A prefix of `f == pre + Dec(page) + "_" + tail` long enough to hold
      the underscore gives back `page` after `pre`. */
  lemma ReadPage(f: string, s: string, pre: string, page: nat, tail: string)
    requires f == pre + Dec(page) + "_" + tail
    requires |pre| + |Dec(page)| + 1 <= |s| <= |f| && s == f[..|s|]
    ensures Parse(LeadingDigits(s[|pre|..])) == page
  {
    var n := |pre| + |Dec(page)| + 1;
    assert s[|pre|..] == Dec(page) + ("_" + s[n..]);
    DigitsThen(Dec(page), "_" + s[n..]);
    ParseDec(page);
  }

  /** Two titled tables of the same model on different pages get different
      sheet names, as long as the model name leaves room for the page
      numbers. */
  lemma SheetNamesDiffer(t: Table, u: Table)
    requires t.model == u.model && t.page != u.page
    requires Strip(t.title, Space) != [] && Strip(u.title, Space) != []
    requires |t.model| + 3 + |Dec(t.page)| <= MaxSheetName && |u.model| + 3 + |Dec(u.page)| <= MaxSheetName
    ensures SheetName(t) != SheetName(u)
  {
    SheetNamePage(t);
    SheetNamePage(u);
  }

  // ---------------------------------------------------------------------
  // Header row

  /** The length of the longest row. */
  function MaxWidth(rows: seq<seq<string>>): (m: nat)
    requires rows != []
    ensures forall k | 0 <= k < |rows| :: |rows[k]| <= m
    ensures exists k | 0 <= k < |rows| :: |rows[k]| == m
  {
    if |rows| == 1 then |rows[0]|
    else
      var m := MaxWidth(rows[1..]);
      if |rows[0]| >= m then |rows[0]| else m
  }

  /** The header row for a table: the provided headers, or the generic ones
      when none are provided, cut to the widest row and padded with
      `Column_<n>` for the 1-based column `n`. */
  function Headers(rows: seq<seq<string>>, provided: seq<string>): (h: seq<string>)
    requires rows != []
    ensures |h| == MaxWidth(rows)
    ensures var base := if provided != [] then provided else GenericHeaders;
      forall k | 0 <= k < |h| :: h[k] == if k < |base| then base[k] else "Column_" + Dec(k + 1)
  {
    var base := if provided != [] then provided else GenericHeaders;
    var w := MaxWidth(rows);
    var kept := if |base| <= w then base else base[..w];
    kept + seq(w - |kept|, k requires 0 <= k < w - |kept| => "Column_" + Dec(|kept| + k + 1))
  }

  /** The header loop: cut the base headers, then append `Column_<n>` while
      the row is short. */
  method BuildHeaders(rows: seq<seq<string>>, provided: seq<string>) returns (headers: seq<string>)
    requires rows != []
    ensures headers == Headers(rows, provided)
  {
    var maxCols := MaxWidth(rows);
    var base := if provided != [] then provided else GenericHeaders;
    headers := if |base| <= maxCols then base else base[..maxCols];
    while |headers| < maxCols
      invariant |headers| <= maxCols
      invariant forall k | 0 <= k < |headers| :: headers[k] == if k < |base| then base[k] else "Column_" + Dec(k + 1)
      decreases maxCols - |headers|
    {
      headers := headers + ["Column_" + Dec(|headers| + 1)];
    }
  }

  /** Every table the extractor produces has five-column rows, so its
      header row is exactly the generic one. */
  lemma ExtractedTableHeaders(text: string, index: nat, model: string)
    requires TableOf(text, index, model) != []
    ensures Headers(TableOf(text, index, model)[0].rows, []) == GenericHeaders
  {
    var rows := TableOf(text, index, model)[0].rows;
    assert rows != [] by {
      assert TableRows(SplitLines(text), PageTitle(SplitLines(text))) != [];
    }
    var k :| 0 <= k < |rows| && |rows[k]| == MaxWidth(rows);
  }
}
