# Spare-parts manual extractor, modelled in Dafny

This project models the core of `pdf_processor.py`, a script that reads
technical PDF manuals of mixers and pulls out the following:

- the model identifier, taken from the file name;
- the spare-parts list, found on the page that carries "SUGGESTED SPARE PARTS";
- the parts tables on the pages after it;
- the embedded pictures and diagram renderings on the other pages after it.

For a workbook of the tables, it also models how each sheet is named and
what its header row holds.

The PDF library is replaced by values (`Document`). Each page offers its
extracted text (absent when reading it failed), its embedded images (their
pixel sizes, or "unreadable" when building the pixmap failed) and its count
of vector drawing primitives. A file is missing, cannot be opened, or opens
as a sequence of pages.

The patterns tested with `re.match` and `re.search` (the three row
patterns, the loose spare-parts pattern, the number-and-code pair of the
general branch and the model-name token) each have two forms:

- a ghost predicate that says what the backtracking matcher accepts ("there
  exist indices such that …");
- an executable scanner over maximal character runs, proved equivalent to
  the predicate.

The four split patterns (`\s{2,}`, `\.{3,}`, `\.{2,}|\s{3,}`,
`\.{3,}|\s{3,}`) are lists of `cls{min,}` alternatives. `Splitting.DelimiterEnd`
gives the end of the match at a position. Its contract says that there is
no match exactly when no alternative's greedy run reaches its minimum.
Otherwise the match is the maximal run of the first alternative that does
reach it. The two `re.sub` patterns of the sheet title (`[^\w\s]` and
`\s+`) have no predicate. They are stated by what the substitution does to
one character, to a concatenation and to a maximal run of white space.

`re.split` is a left-to-right scan (`Splitting.ScansFrom`): each field
runs up to the first position where the pattern matches, and each
delimiter is that match, with the end the pattern gives it. The scan
determines the pieces, and interleaving them with the delimiters gives
back the line. The
strip-and-drop-empty step keeps the fields in order as substrings of the
line (`InOrder`).

The code is structured as follows:

- Loops of the script are methods with loop invariants. Each is proved equal
  to a specification function.
- The results dictionary of `process_pdf_simple` is a class,
  `Processor.ProcessingResult`. Its fields are updated by the page loop.
- What a run reports is stated as a function of the input (`Expected`).
- The properties of a run are lemmas about `Expected`:
  - tables carry page numbers after the anchor, in increasing order;
  - image names carry page numbers after the anchor and are all different;
  - without an anchor page the run reports nothing.

Character classes are ASCII:

- `\d` is `0-9`;
- `\w` is `[A-Za-z0-9_]`;
- `\s` is the ASCII white space that Python's `str.isspace` accepts;
- `upper()` maps `a-z` to `A-Z`.

Three facts about the code shape the model:

- Every line is read on its own, with three row patterns, each with its
  own split. Rows that wrap over several lines are not joined.
- The table check returns a boolean. Pages whose stripped text is under
  100 characters are skipped, and a page is rendered as a diagram when it
  has more than 100 drawing primitives. There are no configurable
  thresholds.
- The generic column headers are `NO., PART_NO, PART_NAME, QTY, REMARKS`,
  cut or padded to the widest row.

## Model

| member | source | states |
|---|---|---|
| Strings.Strip | pdf_processor.py:102 | `str.strip()`: the result is the input minus leading and trailing characters of the class; it is empty exactly when every character is of the class, otherwise it starts and ends with a character outside the class |
| Strings.StripIdempotent | pdf_processor.py:102 | stripping twice gives the same as stripping once |
| Strings.SplitLines | pdf_processor.py:97 | `text.split('\n')`: at least one line, no line holds a line feed, joining the lines with line feeds gives back the text |
| Strings.SplitJoinedLines | pdf_processor.py:97 | splitting lines joined by line feeds gives back those lines |
| Strings.JoinStartsWith | pdf_processor.py:122 | `' '.join(xs)` of a non-empty list starts with its first element |
| Options.SomesAppend | pdf_processor.py:118-123 | collecting the entries of two runs of lines one after the other collects the entries of each in turn |
| Options.SomesOrigins | pdf_processor.py:101-123 | every collected entry comes from its own input position, positions increase with the entries, and every position that yields an entry is represented |
| Options.Map | pdf_processor.py:101-123 | one value per line, each the value of the line at the same position |
| Options.MapSnoc | pdf_processor.py:72-83 | one more line adds its value at the end |
| Options.FilterMapStep | pdf_processor.py:101-123 | one more line adds its entry, when it yields one, at the end of the collected entries: the step of an append loop |
| Options.FlattenSnoc | pdf_processor.py:112-115 | one more piece adds what it gives at the end |
| Options.FlattenEvery | pdf_processor.py:112-115 | when each piece gives at most one field, of some property, there are no more fields than pieces and each has the property |
| Options.SomesEvery | pdf_processor.py:216-220 | a property held by every produced row holds for every collected row |
| Decimal.Dec | pdf_processor.py:224 | `str(n)`: at least one digit, no leading zero, and one digit exactly when `n < 10` |
| Decimal.ParseDec | pdf_processor.py:224 | the decimal text of `n` reads back as `n` |
| Decimal.DecInjective | pdf_processor.py:224 | different numbers have different decimal texts |
| Decimal.Pad2 | pdf_processor.py:266 | `{n:02d}`: only digits, exactly two below 10, and the plain decimal text from 10 on |
| Decimal.ParsePad2 | pdf_processor.py:266 | a zero-padded number reads back as itself |
| Decimal.Pad2Injective | pdf_processor.py:266 | different page numbers give different padded texts |
| Decimal.DigitsThen | pdf_processor.py:431 | the leading digit run of digits followed by a non-digit is exactly those digits |
| RowPatterns.IsSpacedRow | pdf_processor.py:79 | decides `^\d+\s+[A-Z0-9\-]{4,}` exactly as the regex accepts it |
| RowPatterns.IsDottedRow | pdf_processor.py:80 | decides `^\d+\.+[A-Z0-9\-]{4,}` exactly as the regex accepts it |
| RowPatterns.NumberSepCodeRuns | pdf_processor.py:79-80 | the maximal digit run and the maximal separator run are the only candidates the regex needs |
| RowPatterns.IsLooseRow | pdf_processor.py:81 | decides `^\d+.*[A-Z0-9\-]{5,}.*[A-Za-z]` exactly as the backtracking regex accepts it |
| RowPatterns.LooseRowScan | pdf_processor.py:108 | the earliest five-character code block on the first line, followed by a letter on that line, is a match exactly when any match exists |
| RowPatterns.IsGeneralRow | pdf_processor.py:209 | decides `re.match(r'^\d+')` and `re.search(r'[A-Z0-9\-]{4,}')` together, exactly as the regexes accept them |
| RowPatterns.FirstRun | pdf_processor.py:209 | the earliest block of a given length and class within a bound, and no earlier one |
| Splitting.Split | pdf_processor.py:109 | `re.split` as the left-to-right scan: each field runs to the first position where the pattern matches and no match starts inside it, each delimiter is that match with the end the pattern gives it, the last field runs to the end; pieces and delimiters interleave back into the line |
| Splitting.DelimiterEnd | pdf_processor.py:109 | the match at a position: none exactly when no alternative's greedy run there reaches its minimum; otherwise the maximal run of the first alternative that does, a run of that class of at least its minimum length |
| Splitting.ScansFromUnique | pdf_processor.py:109 | the scan determines the pieces: two piece lists that both scan a line are equal |
| Splitting.SplitIsTheScan | pdf_processor.py:109 | any pieces that scan a line are its split |
| Splitting.ReSplit | pdf_processor.py:197 | the pieces of `re.split`: at least one, one more than the delimiters, and interleaved with them they give back the line |
| Splitting.CleanFields | pdf_processor.py:111-115 | the strip-and-drop-empty comprehension: nothing for no pieces, no more fields than pieces, each non-empty and trimmed at both ends |
| Splitting.CleanPiece | pdf_processor.py:112-115 | one piece, cleaned: nothing when it is made only of stripped characters, otherwise exactly its stripped text, non-empty and trimmed at both ends |
| Splitting.CleanPrefixStep | pdf_processor.py:112-115 | cleaning one more piece appends what is kept of it to the fields so far |
| Splitting.CleanHeadInOrder | pdf_processor.py:112-115 | the cleaned form of a leading piece, followed by fields in order in the rest, is in order in the whole text |
| Splitting.SplitFieldsInOrder | pdf_processor.py:109-115 | the cleaned fields of a split line are substrings of the line, in order and not overlapping |
| Splitting.CleanFieldsInOrder | pdf_processor.py:111-115 | the cleaned fields of interleaved pieces are substrings of the joined text, in order |
| ModelName.ModelName | pdf_processor.py:32-38 | the first `WM\d+\w*` token of the stem that `re.search` with IGNORECASE finds (leftmost start, longest match), upper-cased; the stem itself when there is no token; never empty for a non-empty stem |
| ModelName.FindTokenStart | pdf_processor.py:35 | the first position where a token can start, and none before it |
| ModelName.LeftmostToken | pdf_processor.py:35 | the token found is the leftmost, longest match |
| ModelName.TokenExtent | pdf_processor.py:35 | a token starting at a position ends exactly where its run of word characters ends |
| Anchor.FirstAnchor | pdf_processor.py:40-59 | the least index of a readable page whose upper-cased text contains "SUGGESTED SPARE PARTS"; none when no page does |
| Anchor.FindSparePartsPage | pdf_processor.py:44-59 | the scan returns exactly the first anchor page, passing over pages whose text cannot be read |
| TableCheck.IsDataRow | pdf_processor.py:79-81 | a line is a data row exactly when one of the three row regexes matches it |
| TableCheck.SimpleTableCheck | pdf_processor.py:61-88 | the loop over the first 15 lines decides exactly `header hits >= 2 or data rows >= 3` |
| TableCheck.Window | pdf_processor.py:72 | `lines[:15]`: the first 15 lines, or all of them when there are fewer |
| TableCheck.IsTablePage | pdf_processor.py:61-88 | the verdict of the table check: at least two header words, or at least three data rows among the first 15 lines |
| TableCheck.HeaderHitsCounts | pdf_processor.py:63-64 | the header count is the number of distinct header words present in the upper-cased text |
| TableCheck.DataRowHitsCounts | pdf_processor.py:72-83 | the row count is the number of lines in the window that, stripped, match a row pattern |
| TableCheck.CountContainedCounts | pdf_processor.py:64 | counting the words contained counts the set of distinct contained words |
| SpareParts.SpareFields | pdf_processor.py:109-117 | a line gives fields exactly when its split has at least three pieces and at least three cleaned fields; the fields are then the cleaned pieces, in order in the line |
| SpareParts.SpareLineEntry | pdf_processor.py:101-123 | a line yields an entry exactly when, stripped, it is at least 10 characters, matches the loose-row regex and splits into three or more fields; the entry is then quantity = first field, part number = second, description = the rest joined by spaces, all non-empty |
| SpareParts.SpareParts | pdf_processor.py:90-126 | the entries of the anchor page: no more than its lines, each carrying the model name |
| SpareParts.CleanPieces | pdf_processor.py:111-115 | the cleaning loop computes exactly the cleaned fields |
| SpareParts.EntryOfLine | pdf_processor.py:101-123 | one turn of the line loop computes exactly the entry of the line |
| SpareParts.ExtractSpareParts | pdf_processor.py:90-126 | the line loop collects exactly the entries of the lines, in order |
| SpareParts.SparePartsOrigins | pdf_processor.py:101-123 | each entry comes from its own line, in line order, and every line that yields an entry is represented |
| SpareParts.SpareEntryFromLine | pdf_processor.py:117-123 | quantity, part number and the pieces of the description are text of the stripped line, in that order |
| TableExtract.TitleWindow | pdf_processor.py:171 | `lines[:10]`: the first ten lines, or all of them when there are fewer |
| TableExtract.FirstTitleFrom | pdf_processor.py:171-175 | the first line from a position whose stripped form is longer than 5 characters and starts with neither `PAGE` nor `WM63SLF` |
| TableExtract.PageTitle | pdf_processor.py:168-175 | the title is non-empty exactly when a candidate line is among the first ten, and then it is the first such line, stripped |
| TableExtract.DetectTitle | pdf_processor.py:170-175 | the title loop with its early exit computes exactly the page title |
| TableExtract.RowFields | pdf_processor.py:193-214 | the if/elif chain: a spaced-pattern line gives its cleaned `\s{2,}` pieces exactly when there are three or more; otherwise a line with `...` that is a dotted row gives its cleaned `\.{3,}` pieces; otherwise a general row gives its pieces cleaned after a split on `\.{2,}` or `\s{3,}` exactly when there are two or more; any other line gives nothing; fields are non-empty and in order in the line |
| TableExtract.Fit | pdf_processor.py:216-220 | padding with empty strings and cutting at five: exactly five columns, holding the fields first and empty strings after them |
| TableExtract.PadRow | pdf_processor.py:218-220 | the padding loop computes exactly the fitted row |
| TableExtract.TableRow | pdf_processor.py:180-220 | a line yields a row exactly when, stripped, it is at least 10 characters, holds no skip word, differs from the title ignoring case and has two or more fields; the row is then those fields fitted to five columns |
| TableExtract.TableOf | pdf_processor.py:158-238 | at most one table, present exactly when some line yields a row; it carries the 1-based page number, the model, the page title or `Parts Table - Page <n>` when there is none, and exactly the rows of the lines in order, each of five columns |
| TableExtract.TableRows | pdf_processor.py:180-220 | the rows of a page: no more than its lines |
| TableExtract.RowOfLine | pdf_processor.py:180-220 | one turn of the row loop computes exactly the row of the line |
| TableExtract.ExtractTable | pdf_processor.py:158-238 | the title loop and the row loop compute exactly the table of the page |
| TableExtract.TableRowsOrigins | pdf_processor.py:180-220 | each row comes from its own line, in line order, and every line that yields a row is represented |
| TableExtract.TableRowFromLine | pdf_processor.py:216-220 | the non-empty cells of a row are text of the stripped line, in order |
| TableExtract.RowsWidth | pdf_processor.py:216-220 | every row of a page has exactly five cells |
| TableExtract.TitleIsNoRow | pdf_processor.py:190 | a line that strips to the title never yields a row |
| TableExtract.TitleLineIsNoRow | pdf_processor.py:168-190 | the title is the stripped form of one of the first ten lines, and no line that strips to the title yields a row |
| Images.EmbeddedRefs | pdf_processor.py:257-277 | no more names than embedded images |
| Images.EmbeddedRefsSound | pdf_processor.py:260-269 | every embedded name names a kept image by its 1-based position |
| Images.EmbeddedRefsComplete | pdf_processor.py:260-269 | every kept image is named among the embedded names |
| Images.EmbeddedRefsMembers | pdf_processor.py:260-273 | a name is produced exactly when it names, by its 1-based position, an image whose pixmap could be built with both sides over 50 pixels |
| Images.ExtractImages | pdf_processor.py:240-301 | the image loop and the diagram check compute exactly the page's references |
| Images.ImageRefs | pdf_processor.py:257-290 | the references of a page: no more than one per embedded image, plus the diagram |
| Images.ImageRefsMembers | pdf_processor.py:257-290 | a name is contributed exactly when it names a kept image at its position, or is the diagram name of a page with more than 100 drawing primitives |
| Images.ImageNameDecodes | pdf_processor.py:266 | an image name reads back as its page number and its position, and not as a diagram |
| Images.PositionDecodes | pdf_processor.py:266 | the part of an image name after the page prefix reads back as the position, and is not the diagram suffix |
| Images.DiagramNameDecodes | pdf_processor.py:285 | a diagram name reads back as its page number, and as a diagram |
| Images.KeptPositions | pdf_processor.py:260-265 | the positions of kept images lie between 1 and the image count and increase strictly |
| Images.EmbeddedRefsPositions | pdf_processor.py:260-269 | the embedded names are the image names at the kept positions, in order |
| Images.EmbeddedRefsDecode | pdf_processor.py:260-269 | embedded names carry the page number and strictly increasing positions |
| Images.ImageRefsDecode | pdf_processor.py:257-290 | the names a page contributes are its embedded names followed, for a page with more than 100 drawings, by its diagram name |
| Images.ImageRefsPage | pdf_processor.py:266-285 | every name a page contributes carries that page's 1-based number |
| Images.ImageRefsDistinct | pdf_processor.py:257-290 | no name occurs twice among a page's references |
| Images.DiagramLast | pdf_processor.py:280-290 | the diagram name occurs exactly when the page has more than 100 drawings, and then only last |
| Images.ImageRefsDisjoint | pdf_processor.py:266-285 | two different pages never contribute the same name |
| Processor.PageContributionShape | pdf_processor.py:348-373 | an unreadable page or one under 100 stripped characters adds nothing; otherwise a page classified as a table adds exactly its table and no images, and any other page adds no table and exactly its image references |
| Processor.PageContribution | pdf_processor.py:348-373 | what a page adds: at most one table, and never a table and images both |
| Processor.Contributions | pdf_processor.py:345 | one contribution per page |
| Processor.Expected | pdf_processor.py:308-394 | no record for a missing file; otherwise a record with the model name of the stem; status failed with empty lists exactly when the file cannot be opened, success exactly when it opens |
| Processor.Reported | pdf_processor.py:334-378 | the record of a file that opened: the model name and status success, with empty lists when no page is the anchor |
| Processor.ProcessingResult.constructor | pdf_processor.py:321-327 | the record starts with the model name, empty lists and an unknown status |
| Processor.ProcessPage | pdf_processor.py:348-373 | one turn of the page loop appends the page's table or images, and changes nothing else |
| Processor.WalkOne | pdf_processor.py:345-373 | one more page of the loop extends the record by that page's contribution |
| Processor.WalkPages | pdf_processor.py:345-378 | the loop from a page to the last appends exactly the contributions of those pages, in page order |
| Processor.ProcessPages | pdf_processor.py:334-378 | without an anchor page the lists stay empty; with one, the spare parts come from the anchor page and the tables and images from the pages after it |
| Processor.ProcessPdf | pdf_processor.py:308-394 | returns nothing exactly for a missing file; otherwise a new record equal to the expected outcome |
| Processor.PageTable | pdf_processor.py:362-363 | a page contributes at most one table, numbered with its own page |
| Processor.AppendPageTable | pdf_processor.py:363 | appending a page's table keeps the tables numbered in increasing order within the walked pages |
| Processor.GatherTablePages | pdf_processor.py:345-363 | when every page adds at most a table numbered with its own page, the gathered tables are numbered in increasing order within the range |
| Processor.WalkTablePages | pdf_processor.py:345-363 | the tables of a walk carry the model and strictly increasing page numbers within the walked range |
| Processor.DistinctConcat | pdf_processor.py:373 | joining two lists without repeats and without common names gives a list without repeats |
| Processor.AppendPageNames | pdf_processor.py:373 | appending a page's names keeps the names within the walked pages and without repeats |
| Processor.PageImageNames | pdf_processor.py:372-373 | a page's image names carry its page number and do not repeat |
| Processor.GatherImageNames | pdf_processor.py:345-373 | when every page adds names of its own page without repeats, the gathered names carry numbers within the range and never repeat |
| Processor.WalkImageNames | pdf_processor.py:345-373 | the image names of a walk carry page numbers within the walked range and never repeat |
| Processor.OutputsFollowAnchor | pdf_processor.py:334-378 | without an anchor page a run reports nothing; with one, its tables and image names belong to pages after the anchor, tables in increasing page order, image names all different |
| Sheets.Truncate | pdf_processor.py:430 | `s[:n]`: the first `n` characters of `s`, or all of `s` when it is shorter |
| Sheets.KeepWordAndSpace | pdf_processor.py:428 | `re.sub(r'[^\w\s]', '', s)` on one character: keeps it when it is a word or white-space character, drops it otherwise; the result holds only such characters |
| Sheets.KeepWordAndSpaceConcat | pdf_processor.py:428 | the substitution works character by character: the result for a concatenation is the results for its parts, concatenated |
| Sheets.CollapseSpaces | pdf_processor.py:429 | `re.sub(r'\s+', '_', s)`: the result holds no white space, is made of word characters when the input held only word and white-space characters, and equals an input without white space |
| Sheets.CollapseSpacesKeeps | pdf_processor.py:429 | a character that is not white space is kept in place |
| Sheets.CollapseSpacesRun | pdf_processor.py:429 | a maximal run of white space becomes exactly one underscore |
| Sheets.SheetTitle | pdf_processor.py:426-430 | the first 20 characters of the cleaned title (all of it when shorter), all of them word characters |
| Sheets.SheetTitleIdempotent | pdf_processor.py:428-430 | cleaning a cleaned title changes nothing |
| Sheets.SheetName | pdf_processor.py:421-437 | a sheet name has at most 31 characters: the first 31 of the full name, or all of it when it fits |
| Sheets.NameFor | pdf_processor.py:426-433 | the sheet name before the length limit starts with the model name and `_P` |
| Sheets.SheetNamePage | pdf_processor.py:431-437 | a titled table keeps its page number, readable after the model name and `_P`, when the model name leaves room for it |
| Sheets.ReadPage | pdf_processor.py:431 | a prefix of `pre + page + "_" + rest` long enough to hold the underscore gives back the page number after `pre` |
| Sheets.SheetNamesDiffer | pdf_processor.py:431-437 | two titled tables of one model on different pages get different sheet names when the model name leaves room for the page numbers |
| Sheets.MaxWidth | pdf_processor.py:444 | the length of the longest row: no row is longer, and some row is that long |
| Sheets.Headers | pdf_processor.py:446-458 | as many headers as the widest row; the provided headers, or the generic ones when none are provided, in their places, then `Column_<n>` for every later 1-based column `n` |
| Sheets.BuildHeaders | pdf_processor.py:444-458 | the cut-and-pad loop computes exactly the header row |
| Sheets.ExtractedTableHeaders | pdf_processor.py:453-458 | a table produced by the extractor gets exactly the generic header row |

## Left out

- Reading the PDF, the filesystem and the workbook are left out. The PDF library is replaced by page values, the existence check by the `Missing` source, and saving files and sheets by the names that would be written.
- Image references are the file names only. The directory `images/<model>/` under the output folder is left out.
- Failures while saving a pixmap or rendering a diagram are left out. The model assumes every kept image and every diagram is written.
- Exceptions from `get_images` and `get_drawings` are left out. A page's images and drawing count are always available.
- The spare-parts extractor reads the anchor page's text a second time, and so do the table extractor and the image extractor for their pages. The model assumes the second read returns the same text as the first. A failure of the spare-parts extractor's own read, which makes it return an empty list, is left out.
- A run that fails after opening the file is left out. An unopenable file yields the failed status with empty lists. The text of the exception, kept in the source's status string, is left out.
- The log output, the tracebacks, `simple_content_analysis`, `test_basic_functionality` and the command-line entry point are left out because they only print.
- The spare-parts and summary sheets of the workbook and the column-width formatting are left out. They hold no logic beyond writing.
- Unicode is left out: character classes, `upper()` and `strip()` are modelled on ASCII.
- Sheets.SheetNamesDiffer: proves distinct sheet names only when the model name leaves room for `_P`, the page number and the underscore within 31 characters. The code's cut to 31 characters can remove the page number of a long model name (the file stem is used when it holds no `WM` token), and then two tables share a sheet name.
- Sheets.MaxWidth: the fallback width of 5 for a table without rows is left out, because the code computes the width only for tables that have rows.
