/** The regular expressions that recognise part rows, written as
    character-class predicates. Each pattern has two forms: a ghost
    predicate that says, with "there exist indices", what the backtracking
    matcher accepts, and a function that decides it by scanning runs; the
    function's contract says the two agree on every string. All of them are
    anchored at the start of the line (`re.match`, or `re.search` with `^`). */
module RowPatterns {
  import opened Strings
  import opened Options

  // ---------------------------------------------------------------------
  // ^\d+\s+[A-Z0-9\-]{4,}   and   ^\d+\.+[A-Z0-9\-]{4,}
  // A prefix match needs only four code characters: {4,} accepts any four.

  /** `^\d+ sep+ [A-Z0-9\-]{4,}` matches a prefix of `s`. */
  ghost predicate NumberSepCodeRegex(s: string, sep: CharClass) {
    exists a: nat, b: nat | 0 < a < b && b + 4 <= |s| ::
      AllIn(s, 0, a, Digit) && AllIn(s, a, b, sep) && AllIn(s, b, b + 4, Code)
  }

  /** The spaced-row pattern `^\d+\s+[A-Z0-9\-]{4,}`. */
  ghost predicate SpacedRowRegex(s: string) {
    NumberSepCodeRegex(s, Space)
  }

  /** The dotted-row pattern `^\d+\.+[A-Z0-9\-]{4,}`. */
  ghost predicate DottedRowRegex(s: string) {
    NumberSepCodeRegex(s, Dot)
  }

  /** Decides `^\d+ sep+ [A-Z0-9\-]{4,}` for a separator class that shares no
      character with digits or with the code alphabet: both runs can only
      end where the next class begins, so the maximal runs are the only
      candidates. */
  function IsNumberSepCode(s: string, sep: CharClass): (r: bool)
    requires sep == Space || sep == Dot
    ensures r <==> NumberSepCodeRegex(s, sep)
  {
    var a := RunEnd(s, 0, Digit);
    var b := RunEnd(s, a, sep);
    NumberSepCodeRuns(s, sep, a, b);
    0 < a < b && b + 4 <= |s| && AllIn(s, b, b + 4, Code)
  }

  lemma NumberSepCodeRuns(s: string, sep: CharClass, a: nat, b: nat)
    requires sep == Space || sep == Dot
    requires a == RunEnd(s, 0, Digit) && b == RunEnd(s, a, sep)
    ensures (0 < a < b && b + 4 <= |s| && AllIn(s, b, b + 4, Code)) <==> NumberSepCodeRegex(s, sep)
  {
    if NumberSepCodeRegex(s, sep) {
      var a', b' :| 0 < a' < b' && b' + 4 <= |s| &&
        AllIn(s, 0, a', Digit) && AllIn(s, a', b', sep) && AllIn(s, b', b' + 4, Code);
      assert In(s[a'], sep) && In(s[b'], Code);
      RunEndAt(s, 0, a', Digit);
      RunEndAt(s, a', b', sep);
    }
  }

  function IsSpacedRow(s: string): (r: bool)
    ensures r <==> SpacedRowRegex(s)
  {
    IsNumberSepCode(s, Space)
  }

  function IsDottedRow(s: string): (r: bool)
    ensures r <==> DottedRowRegex(s)
  {
    IsNumberSepCode(s, Dot)
  }

  lemma AllInWithin(s: string, lo: nat, hi: nat, lo': nat, hi': nat, cls: CharClass)
    requires lo <= lo' <= hi' <= hi <= |s| && AllIn(s, lo, hi, cls)
    ensures AllIn(s, lo', hi', cls)
  {
  }

  // ---------------------------------------------------------------------
  // ^\d+.*[A-Z0-9\-]{5,}.*[A-Za-z]

  /** The loose-row pattern `^\d+.*[A-Z0-9\-]{5,}.*[A-Za-z]` matched with
      digits from 0 to `a`, any non-line-feed characters to `i`, `m >= 5`
      code characters to `i + m`, any non-line-feed characters to `k`, and a
      letter at `k`. */
  ghost predicate LooseRowAt(s: string, a: nat, i: nat, m: nat, k: nat) {
    0 < a <= i && 5 <= m && i + m <= k < |s| &&
    AllIn(s, 0, a, Digit) && AllIn(s, a, i, NotNewline) && AllIn(s, i, i + m, Code) &&
    AllIn(s, i + m, k, NotNewline) && In(s[k], Letter)
  }

  ghost predicate LooseRowRegex(s: string) {
    exists a: nat, i: nat, m: nat, k: nat :: LooseRowAt(s, a, i, m, k)
  }

  /** `s[j..j + len]` lies within `s` and is made of `cls` characters. */
  predicate RunAt(s: string, j: nat, len: nat, cls: CharClass) {
    j + len <= |s| && AllIn(s, j, j + len, cls)
  }

  /** The first `j` in `from..` with `s[j..j + len]` all in `cls` and ending
      by `limit`. */
  function FirstRun(s: string, from: nat, limit: nat, cls: CharClass, len: nat): (r: Option<nat>)
    requires from <= limit <= |s|
    ensures r.Some? ==> from <= r.value && r.value + len <= limit && RunAt(s, r.value, len, cls)
    ensures forall j: nat | from <= j && j + len <= limit && (r.None? || j < r.value) :: !RunAt(s, j, len, cls)
    decreases limit - from
  {
    if from + len > limit then None
    else if RunAt(s, from, len, cls) then Some(from)
    else FirstRun(s, from + 1, limit, cls, len)
  }

  /** Some character of `s[lo..hi]` is in `cls`. */
  predicate HasIn(s: string, lo: nat, hi: nat, cls: CharClass)
    requires lo <= hi <= |s|
  {
    exists k | lo <= k < hi :: In(s[k], cls)
  }

  /** Decides the loose-row pattern: within the first line of `s`, the
      earliest block of five code characters after the leading digit leaves
      the most room for the final letter. */
  function IsLooseRow(s: string): (r: bool)
    ensures r <==> LooseRowRegex(s)
  {
    if |s| == 0 || !In(s[0], Digit) then
      LooseRowNeedsDigit(s);
      false
    else
      var n := RunEnd(s, 0, NotNewline);
      var block := FirstRun(s, 1, n, Code, 5);
      LooseRowScan(s, n, block);
      block.Some? && HasIn(s, block.value + 5, n, Letter)
  }

  lemma LooseRowNeedsDigit(s: string)
    requires |s| == 0 || !In(s[0], Digit)
    ensures !LooseRowRegex(s)
  {
  }

  lemma LooseRowScan(s: string, n: nat, block: Option<nat>)
    requires |s| > 0 && In(s[0], Digit)
    requires n == RunEnd(s, 0, NotNewline) && 1 <= n
    requires block == FirstRun(s, 1, n, Code, 5)
    ensures (block.Some? && HasIn(s, block.value + 5, n, Letter)) <==> LooseRowRegex(s)
  {
    if LooseRowRegex(s) {
      var a: nat, i: nat, m: nat, k: nat :| LooseRowAt(s, a, i, m, k);
      // the first line reaches past the letter
      assert AllIn(s, 0, k + 1, NotNewline) by {
        forall q | 0 <= q < k + 1 ensures In(s[q], NotNewline) {
          if q < a {
            assert In(s[q], Digit);
          } else if q < i {
          } else if q < i + m {
            assert In(s[q], Code);
          } else if q < k {
          } else {
            assert In(s[q], Letter);
          }
        }
      }
      assert k < n;
      AllInWithin(s, i, i + m, i, i + 5, Code);
      assert RunAt(s, i, 5, Code);
      assert block.Some? && block.value <= i;
      assert HasIn(s, block.value + 5, n, Letter) by {
        assert block.value + 5 <= k < n && In(s[k], Letter);
      }
    }
    if block.Some? && HasIn(s, block.value + 5, n, Letter) {
      var i := block.value;
      var k :| i + 5 <= k < n && In(s[k], Letter);
      AllInWithin(s, 0, n, 1, i, NotNewline);
      AllInWithin(s, 0, n, i + 5, k, NotNewline);
      assert LooseRowAt(s, 1, i, 5, k);
    }
  }

  // ---------------------------------------------------------------------
  // re.match(r'^\d+', s) and re.search(r'[A-Z0-9\-]{4,}', s)

  /** The general-row test: the line starts with a digit and contains, anywhere,
      a run of at least four code characters. */
  ghost predicate GeneralRowRegex(s: string) {
    (exists a: nat | 0 < a <= |s| :: AllIn(s, 0, a, Digit)) &&
    (exists i: nat, m: nat | 4 <= m :: RunAt(s, i, m, Code))
  }

  function IsGeneralRow(s: string): (r: bool)
    ensures r <==> GeneralRowRegex(s)
  {
    var block := FirstRun(s, 0, |s|, Code, 4);
    GeneralRowScan(s, block);
    |s| > 0 && In(s[0], Digit) && block.Some?
  }

  lemma GeneralRowScan(s: string, block: Option<nat>)
    requires block == FirstRun(s, 0, |s|, Code, 4)
    ensures (|s| > 0 && In(s[0], Digit) && block.Some?) <==> GeneralRowRegex(s)
  {
    if |s| > 0 && In(s[0], Digit) {
      assert AllIn(s, 0, 1, Digit);
    }
    if block.Some? {
      assert RunAt(s, block.value, 4, Code);
    }
    if exists i: nat, m: nat | 4 <= m :: RunAt(s, i, m, Code) {
      var i: nat, m: nat :| 4 <= m && RunAt(s, i, m, Code);
      AllInWithin(s, i, i + m, i, i + 4, Code);
      assert RunAt(s, i, 4, Code);
    }
  }
}
