/** The spare-parts list read from the anchor page (`extract_spare_parts_basic`).
    Each line is handled on its own: a stripped line of at least ten
    characters that starts with digits, later holds five part-number
    characters and after them a letter, is split on dot leaders or runs of
    three blanks; its cleaned fields give quantity, part number and
    description. */
module SpareParts {
  import opened Strings
  import opened Options
  import opened RowPatterns
  import opened Splitting

  datatype SparePart = SparePart(model: string, quantity: string, partNumber: string, description: string)

  const MinLineLength: nat := 10
  const MinFields: nat := 3

  /** The cleaned fields of a line that passes the row pattern: at least
      three raw pieces from the dot-or-blank split and at least three
      non-empty fields once spaces and dots are stripped. The fields are
      text of the line, in order. */
  function SpareFields(line: string): (r: Option<seq<string>>)
    ensures var parts := ReSplit(line, SparePartsSplit);
      r.Some? <==> |parts| >= MinFields && |CleanFields(parts, SpaceOrDot)| >= MinFields
    ensures r.Some? ==> r.value == CleanFields(ReSplit(line, SparePartsSplit), SpaceOrDot)
    ensures r.Some? ==> InOrder(r.value, line)
  {
    var parts := ReSplit(line, SparePartsSplit);
    if |parts| < MinFields then None
    else
      var clean := CleanFields(parts, SpaceOrDot);
      if |clean| < MinFields then None
      else
        SplitFieldsInOrder(line, SparePartsSplit, SpaceOrDot);
        Some(clean)
  }

  /** The entry made of cleaned fields: quantity and part number first, the
      rest joined by single spaces as the description. */
  function EntryFromFields(model: string, clean: seq<string>): SparePart
    requires |clean| >= MinFields
  {
    SparePart(model, clean[0], clean[1], Join(clean[2..], " "))
  }

  /** The entry one line yields: quantity and part number are the first two
      fields and the description the rest joined by single spaces, none of
      them empty. Only stripped lines of ten or more characters that match
      the row pattern are split. */
  function SpareLineEntry(raw: string, model: string): (r: Option<SparePart>)
    ensures var line := Strip(raw, Space);
      r.Some? <==> |line| >= MinLineLength && LooseRowRegex(line) && SpareFields(line).Some?
    ensures r.Some? ==> r.value == EntryFromFields(model, SpareFields(Strip(raw, Space)).value)
    ensures r.Some? ==> r.value.model == model && r.value.quantity != []
    ensures r.Some? ==> r.value.partNumber != [] && r.value.description != []
  {
    var line := Strip(raw, Space);
    if line == [] || |line| < MinLineLength || !IsLooseRow(line) then None
    else
      match SpareFields(line)
      case None => None
      case Some(clean) =>
        JoinStartsWith(clean[2..], " ");
        Some(EntryFromFields(model, clean))
  }

  /** The entry of each line, `SpareLineEntry` with the model fixed. */
  function EntryOf(model: string): string -> Option<SparePart> {
    line => SpareLineEntry(line, model)
  }

  function LineEntries(lines: seq<string>, model: string): seq<Option<SparePart>> {
    Map(lines, EntryOf(model))
  }

  /** The entries of a page, in line order. */
  function SpareParts(text: string, model: string): (r: seq<SparePart>)
    ensures |r| <= |SplitLines(text)|
    ensures forall i | 0 <= i < |r| :: r[i].model == model
  {
    var xs := LineEntries(SplitLines(text), model);
    forall k | 0 <= k < |xs| && xs[k].Some? ensures xs[k].value.model == model {
      assert xs[k] == SpareLineEntry(SplitLines(text)[k], model);
    }
    SomesEvery(xs, (e: SparePart) => e.model == model);
    Somes(xs)
  }

  /** The `clean_parts` loop: strips every piece of spaces and dots and keeps
      the non-empty ones. */
  method CleanPieces(parts: seq<string>, cls: CharClass) returns (clean: seq<string>)
    ensures clean == CleanFields(parts, cls)
  {
    clean := [];
    for i := 0 to |parts|
      invariant clean == CleanFields(parts[..i], cls)
    {
      CleanPrefixStep(parts, i, cls);
      var cleanPart := Strip(parts[i], cls);
      if cleanPart != [] {
        clean := clean + [cleanPart];
      }
    }
    assert parts[..|parts|] == parts;
  }

  /** The body of the line loop: the entry one line yields. */
  method EntryOfLine(raw: string, model: string) returns (e: Option<SparePart>)
    ensures e == SpareLineEntry(raw, model)
  {
    var line := Strip(raw, Space);
    if line == [] || |line| < MinLineLength {
      return None;
    }
    e := None;
    if IsLooseRow(line) {
      var parts := ReSplit(line, SparePartsSplit);
      if |parts| >= MinFields {
        var cleanParts := CleanPieces(parts, SpaceOrDot);
        if |cleanParts| >= MinFields {
          assert SpareFields(line) == Some(cleanParts);
          e := Some(EntryFromFields(model, cleanParts));
        } else {
          assert SpareFields(line).None?;
        }
      } else {
        assert SpareFields(line).None?;
      }
    }
  }

  /** `extract_spare_parts_basic` on the text of the anchor page. */
  method ExtractSpareParts(text: string, model: string) returns (entries: seq<SparePart>)
    ensures entries == SpareParts(text, model)
  {
    var lines := SplitLines(text);
    entries := [];
    for i := 0 to |lines|
      invariant entries == Somes(LineEntries(lines[..i], model))
    {
      var e := EntryOfLine(lines[i], model);
      FilterMapStep(lines, i, EntryOf(model));
      if e.Some? {
        entries := entries + [e.value];
      }
    }
    assert lines[..|lines|] == lines;
  }

  /** Where the entries come from: each from its own line, in line order,
      and every line that yields an entry is represented. */
  lemma SparePartsOrigins(text: string, model: string) returns (idx: seq<nat>)
    ensures |idx| == |SpareParts(text, model)|
    ensures forall i | 0 <= i < |idx| ::
              idx[i] < |SplitLines(text)| && SpareLineEntry(SplitLines(text)[idx[i]], model) == Some(SpareParts(text, model)[i])
    ensures forall i, j | 0 <= i < j < |idx| :: idx[i] < idx[j]
    ensures forall j | 0 <= j < |SplitLines(text)| && SpareLineEntry(SplitLines(text)[j], model).Some? :: j in idx
  {
    idx := SomesOrigins(LineEntries(SplitLines(text), model));
  }

  /** The quantity, the part number and the pieces of the description are
      text of the line, in that order. */
  lemma SpareEntryFromLine(raw: string, model: string)
    requires SpareLineEntry(raw, model).Some?
    ensures var e := SpareLineEntry(raw, model).value;
      exists rest: seq<string> :: |rest| >= 1 && e.description == Join(rest, " ") &&
        InOrder([e.quantity, e.partNumber] + rest, Strip(raw, Space))
  {
    var clean := SpareFields(Strip(raw, Space)).value;
    FieldsInOrder(model, clean, Strip(raw, Space));
  }

  lemma FieldsInOrder(model: string, clean: seq<string>, line: string)
    requires |clean| >= MinFields && InOrder(clean, line)
    ensures var e := EntryFromFields(model, clean);
      exists rest: seq<string> :: |rest| >= 1 && e.description == Join(rest, " ") &&
        InOrder([e.quantity, e.partNumber] + rest, line)
  {
    var rest := clean[2..];
    assert [clean[0], clean[1]] + rest == clean;
  }
}
