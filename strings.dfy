/** The character classes and Python string primitives the processor uses
    (`str.upper`, `str.strip`, `str.split('\n')`, `str.join`, `in`,
    `str.startswith`), restricted to ASCII. */
module Strings {

  /** The character classes of the processor's regular expressions and of
      its `strip` calls. */
  datatype CharClass =
    | Digit       // \d
    | Space       // \s, and what a bare str.strip() removes
    | Dot         // a literal '.'
    | Code        // [A-Z0-9\-], the part-number alphabet
    | Letter      // [A-Za-z]
    | Word        // \w
    | SpaceOrDot  // what str.strip(' .') removes
    | NotNewline  // the regex '.', which matches anything but a line feed

  predicate In(c: char, cls: CharClass) {
    match cls
    case Digit => '0' <= c <= '9'
    case Space => c == ' ' || '\t' <= c <= '\r' || '\U{1C}' <= c <= '\U{1F}'
    case Dot => c == '.'
    case Code => 'A' <= c <= 'Z' || '0' <= c <= '9' || c == '-'
    case Letter => 'A' <= c <= 'Z' || 'a' <= c <= 'z'
    case Word => 'A' <= c <= 'Z' || 'a' <= c <= 'z' || '0' <= c <= '9' || c == '_'
    case SpaceOrDot => c == ' ' || c == '.'
    case NotNewline => c != '\n'
  }

  /** Every character of `s[lo..hi]` is in `cls`. */
  predicate AllIn(s: string, lo: int, hi: int, cls: CharClass)
    requires 0 <= lo <= hi <= |s|
  {
    forall k | lo <= k < hi :: In(s[k], cls)
  }

  /** The end of the maximal run of `cls` characters that starts at `i`. */
  function RunEnd(s: string, i: nat, cls: CharClass): (j: nat)
    requires i <= |s|
    ensures i <= j <= |s| && AllIn(s, i, j, cls)
    ensures j < |s| ==> !In(s[j], cls)
    decreases |s| - i
  {
    if i == |s| || !In(s[i], cls) then i else RunEnd(s, i + 1, cls)
  }

  /** A run of `cls` characters from `i` to `j` that cannot be extended is
      the one `RunEnd` finds. */
  lemma RunEndAt(s: string, i: nat, j: nat, cls: CharClass)
    requires i <= j <= |s| && AllIn(s, i, j, cls)
    requires j < |s| ==> !In(s[j], cls)
    ensures RunEnd(s, i, cls) == j
  {
  }

  function UpperChar(c: char): char {
    if 'a' <= c <= 'z' then (c as int - 32) as char else c
  }

  /** str.upper() on ASCII text. */
  function Upper(s: string): string {
    seq(|s|, k requires 0 <= k < |s| => UpperChar(s[k]))
  }

  /** `needle` occurs in `haystack` at position `i`. */
  predicate OccursAt(haystack: string, needle: string, i: nat) {
    i + |needle| <= |haystack| && haystack[i..i + |needle|] == needle
  }

  /** Python's `needle in haystack` on strings. */
  predicate Contains(haystack: string, needle: string) {
    exists i: nat | i <= |haystack| - |needle| :: OccursAt(haystack, needle, i)
  }

  predicate StartsWith(s: string, prefix: string) {
    |prefix| <= |s| && s[..|prefix|] == prefix
  }

  /** The largest `j` in `lo..hi` such that `s[j..hi]` is made of `cls`
      characters and `s[j - 1]` (when `j > lo`) is not. */
  function KeepEnd(s: string, lo: nat, hi: nat, cls: CharClass): (j: nat)
    requires lo <= hi <= |s|
    ensures lo <= j <= hi && AllIn(s, j, hi, cls)
    ensures j > lo ==> !In(s[j - 1], cls)
    decreases hi
  {
    if hi == lo || !In(s[hi - 1], cls) then hi else KeepEnd(s, lo, hi - 1, cls)
  }

  /** str.strip(chars): `s` without its leading and trailing `cls` characters. */
  function Strip(s: string, cls: CharClass): (r: string)
    ensures exists i, j | 0 <= i <= j <= |s| :: r == s[i..j] && AllIn(s, 0, i, cls) && AllIn(s, j, |s|, cls)
    ensures r != [] ==> !In(r[0], cls) && !In(r[|r| - 1], cls)
    ensures r == [] <==> AllIn(s, 0, |s|, cls)
  {
    var i := RunEnd(s, 0, cls);
    var j := KeepEnd(s, i, |s|, cls);
    assert i == |s| ==> AllIn(s, 0, |s|, cls);
    s[i..j]
  }

  /** Stripping is idempotent. */
  lemma StripIdempotent(s: string, cls: CharClass)
    ensures Strip(Strip(s, cls), cls) == Strip(s, cls)
  {
    var r := Strip(s, cls);
    if r != [] {
      RunEndAt(r, 0, 0, cls);
      assert AllIn(r, |r|, |r|, cls);
    }
  }

  /** str.join: the items of `xs` separated by `sep`. */
  function Join(xs: seq<string>, sep: string): string {
    if |xs| == 0 then ""
    else if |xs| == 1 then xs[0]
    else xs[0] + sep + Join(xs[1..], sep)
  }

  /** A join begins with its first item. */
  lemma JoinStartsWith(xs: seq<string>, sep: string)
    requires |xs| >= 1
    ensures StartsWith(Join(xs, sep), xs[0])
  {
    if |xs| > 1 {
      assert Join(xs, sep) == xs[0] + (sep + Join(xs[1..], sep));
    }
  }

  predicate NoNewline(s: string) {
    AllIn(s, 0, |s|, NotNewline)
  }

  /** str.split('\n'): the pieces between line feeds; joining them with line
      feeds gives back the text. */
  function SplitLines(s: string): (r: seq<string>)
    ensures |r| >= 1
    ensures forall k | 0 <= k < |r| :: NoNewline(r[k])
    ensures Join(r, "\n") == s
    decreases |s|
  {
    var i := RunEnd(s, 0, NotNewline);
    if i == |s| then [s]
    else
      var rest := SplitLines(s[i + 1..]);
      assert s == s[..i] + "\n" + s[i + 1..];
      [s[..i]] + rest
  }

  /** The converse round trip: splitting text joined from line-feed-free
      pieces gives those pieces back. */
  lemma {:induction false} SplitJoinedLines(xs: seq<string>)
    requires |xs| >= 1
    requires forall k | 0 <= k < |xs| :: NoNewline(xs[k])
    ensures SplitLines(Join(xs, "\n")) == xs
    decreases |xs|
  {
    var s := Join(xs, "\n");
    if |xs| == 1 {
      RunEndAt(s, 0, |s|, NotNewline);
    } else {
      var tail := Join(xs[1..], "\n");
      assert s == xs[0] + "\n" + tail;
      assert s[|xs[0]|] == '\n';
      assert AllIn(s, 0, |xs[0]|, NotNewline) by {
        forall k | 0 <= k < |xs[0]| ensures In(s[k], NotNewline) {
          assert s[k] == xs[0][k];
        }
      }
      RunEndAt(s, 0, |xs[0]|, NotNewline);
      assert s[|xs[0]| + 1..] == tail;
      assert s[..|xs[0]|] == xs[0];
      SplitJoinedLines(xs[1..]);
    }
  }
}
