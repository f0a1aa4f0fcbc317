/** Decimal rendering of page numbers and image positions: Python's `str(n)`
    and the format `{n:02d}`, with the parser that undoes them. */
module Decimal {
  import opened Strings

  function DigitChar(d: nat): (c: char)
    requires d < 10
    ensures In(c, Digit)
  {
    ('0' as int + d) as char
  }

  function DigitValue(c: char): nat
    requires In(c, Digit)
  {
    c as int - '0' as int
  }

  predicate AllDigits(s: string) {
    AllIn(s, 0, |s|, Digit)
  }

  /** str(n) for a non-negative integer: digits only, no leading zero. */
  function Dec(n: nat): (r: string)
    ensures |r| >= 1 && AllDigits(r)
    ensures |r| > 1 ==> r[0] != '0'
    ensures n < 10 <==> |r| == 1
  {
    if n < 10 then [DigitChar(n)] else Dec(n / 10) + [DigitChar(n % 10)]
  }

  /** The value of a string of decimal digits. */
  function Parse(s: string): nat
    requires AllDigits(s)
  {
    if s == [] then 0
    else
      assert AllDigits(s[..|s| - 1]);
      Parse(s[..|s| - 1]) * 10 + DigitValue(s[|s| - 1])
  }

  /** Parsing undoes rendering. */
  lemma {:induction false} ParseDec(n: nat)
    ensures Parse(Dec(n)) == n
  {
    if n >= 10 {
      var r := Dec(n);
      assert r[..|r| - 1] == Dec(n / 10);
      ParseDec(n / 10);
    }
  }

  lemma DecInjective(a: nat, b: nat)
    requires Dec(a) == Dec(b)
    ensures a == b
  {
    ParseDec(a);
    ParseDec(b);
  }

  /** The format `{n:02d}`: at least two digits, left-padded with '0'. */
  function Pad2(n: nat): (r: string)
    ensures AllDigits(r) && |r| >= 2
    ensures n < 10 ==> |r| == 2
    ensures n >= 10 ==> r == Dec(n)
  {
    if n < 10 then "0" + Dec(n) else Dec(n)
  }

  /** A leading zero does not change a parsed value. */
  lemma {:induction false} ParseLeadingZero(s: string)
    requires AllDigits(s)
    ensures AllDigits("0" + s) && Parse("0" + s) == Parse(s)
    decreases |s|
  {
    var t := "0" + s;
    assert AllDigits(t);
    if s != [] {
      assert t[..|t| - 1] == "0" + s[..|s| - 1];
      ParseLeadingZero(s[..|s| - 1]);
    } else {
      assert t[..0] == [];
    }
  }

  /** Parsing undoes the padded rendering, so different page numbers never
      share a padded form. */
  lemma ParsePad2(n: nat)
    ensures Parse(Pad2(n)) == n
  {
    ParseDec(n);
    if n < 10 {
      ParseLeadingZero(Dec(n));
    }
  }

  lemma Pad2Injective(a: nat, b: nat)
    requires Pad2(a) == Pad2(b)
    ensures a == b
  {
    ParsePad2(a);
    ParsePad2(b);
  }

  /** The leading run of digits of `s`. */
  function LeadingDigits(s: string): (r: string)
    ensures AllDigits(r)
  {
    var j := RunEnd(s, 0, Digit);
    assert forall k | 0 <= k < j :: s[..j][k] == s[k];
    s[..j]
  }

  /** What follows the leading digits of `s`. */
  function AfterDigits(s: string): string {
    s[RunEnd(s, 0, Digit)..]
  }

  /** Digits followed by a non-digit: the digits are exactly the leading
      run, so both parts are recovered. */
  lemma DigitsThen(a: string, x: string)
    requires AllDigits(a) && x != [] && !In(x[0], Digit)
    ensures LeadingDigits(a + x) == a && AfterDigits(a + x) == x
  {
    var s := a + x;
    assert AllIn(s, 0, |a|, Digit) && s[|a|] == x[0];
    RunEndAt(s, 0, |a|, Digit);
    assert s[..|a|] == a && s[|a|..] == x;
  }
}
