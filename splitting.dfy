/** `re.split` over the processor's delimiter patterns, and the field
    clean-up that follows every split (`[p.strip(chars) for p in parts if
    p.strip(chars)]`). The patterns are alternations of runs of one
    character class (`\s{2,}`, `\.{3,}`, `\.{2,}|\s{3,}`, `\.{3,}|\s{3,}`);
    a match is a maximal run of at least the minimum length, and the
    alternatives are tried in order at each position. */
module Splitting {
  import opened Strings
  import opened Options

  /** One alternative of a split pattern: `cls{min,}`. */
  datatype Delimiter = Delimiter(cls: CharClass, min: nat)

  const SpacedSplit: seq<Delimiter> := [Delimiter(Space, 2)]                          // \s{2,}
  const DottedSplit: seq<Delimiter> := [Delimiter(Dot, 3)]                            // \.{3,}
  const GeneralSplit: seq<Delimiter> := [Delimiter(Dot, 2), Delimiter(Space, 3)]      // \.{2,}|\s{3,}
  const SparePartsSplit: seq<Delimiter> := [Delimiter(Dot, 3), Delimiter(Space, 3)]   // \.{3,}|\s{3,}

  /** No alternative matches the empty string. */
  predicate ValidDelimiters(ds: seq<Delimiter>) {
    forall k | 0 <= k < |ds| :: ds[k].min > 0
  }

  /** `d` is a whole match of one of the alternatives. */
  predicate IsDelimiterRun(d: string, ds: seq<Delimiter>) {
    exists k | 0 <= k < |ds| :: |d| >= ds[k].min && AllIn(d, 0, |d|, ds[k].cls)
  }

  /** Where the match that starts at `p` ends, trying the alternatives in
      order; `None` if the pattern does not match at `p`. */
  function DelimiterEnd(s: string, ds: seq<Delimiter>, p: nat): (r: Option<nat>)
    requires ValidDelimiters(ds) && p <= |s|
    ensures r.Some? ==> p < r.value <= |s| && IsDelimiterRun(s[p..r.value], ds)
    ensures r.None? <==> forall k | 0 <= k < |ds| :: RunEnd(s, p, ds[k].cls) - p < ds[k].min
    ensures r.Some? ==> exists k | 0 <= k < |ds| :: FirstFit(s, ds, p, k) && r.value == RunEnd(s, p, ds[k].cls)
    decreases |ds|
  {
    if ds == [] then None
    else
      var e := RunEnd(s, p, ds[0].cls);
      if e - p >= ds[0].min then
        assert AllIn(s[p..e], 0, e - p, ds[0].cls);
        assert FirstFit(s, ds, p, 0);
        Some(e)
      else
        var r := DelimiterEnd(s, ds[1..], p);
        FitShift(s, ds, p);
        if r.Some? then
          DelimiterRunTail(s[p..r.value], ds);
          r
        else
          r
  }

  /** Alternative `k` is the first whose greedy run at `p` is long enough:
      its run reaches its minimum and no earlier alternative's run does. */
  predicate FirstFit(s: string, ds: seq<Delimiter>, p: nat, k: nat)
    requires p <= |s|
  {
    k < |ds| && RunEnd(s, p, ds[k].cls) - p >= ds[k].min &&
    forall j | 0 <= j < k :: RunEnd(s, p, ds[j].cls) - p < ds[j].min
  }

  /** When the first alternative does not fit, the first fit among the
      others is the first fit of the whole alternation, one place on. */
  lemma FitShift(s: string, ds: seq<Delimiter>, p: nat)
    requires p <= |s| && ds != [] && RunEnd(s, p, ds[0].cls) - p < ds[0].min
    ensures forall k | 0 <= k < |ds| - 1 :: FirstFit(s, ds[1..], p, k) ==> FirstFit(s, ds, p, k + 1)
    ensures (forall k | 0 <= k < |ds| - 1 :: RunEnd(s, p, ds[1..][k].cls) - p < ds[1..][k].min) ==>
              forall k | 0 <= k < |ds| :: RunEnd(s, p, ds[k].cls) - p < ds[k].min
  {
    forall k | 0 <= k < |ds| - 1 && FirstFit(s, ds[1..], p, k) ensures FirstFit(s, ds, p, k + 1) {
      forall j | 0 <= j < k + 1 ensures RunEnd(s, p, ds[j].cls) - p < ds[j].min {
        if j > 0 {
          assert ds[j] == ds[1..][j - 1];
        }
      }
    }
    if forall k | 0 <= k < |ds| - 1 :: RunEnd(s, p, ds[1..][k].cls) - p < ds[1..][k].min {
      forall k | 0 <= k < |ds| ensures RunEnd(s, p, ds[k].cls) - p < ds[k].min {
        if k > 0 {
          assert ds[k] == ds[1..][k - 1];
        }
      }
    }
  }

  lemma DelimiterRunTail(d: string, ds: seq<Delimiter>)
    requires ds != [] && IsDelimiterRun(d, ds[1..])
    ensures IsDelimiterRun(d, ds)
  {
    var k :| 0 <= k < |ds[1..]| && |d| >= ds[1..][k].min && AllIn(d, 0, |d|, ds[1..][k].cls);
    assert |d| >= ds[k + 1].min && AllIn(d, 0, |d|, ds[k + 1].cls);
  }

  /** No match of the pattern starts inside `f`. */
  predicate NoDelimiterIn(f: string, ds: seq<Delimiter>)
    requires ValidDelimiters(ds)
  {
    forall q | 0 <= q < |f| :: DelimiterEnd(f, ds, q).None?
  }

  /** The fields of a split and the delimiter matches between them. */
  datatype Pieces = Pieces(fields: seq<string>, delims: seq<string>)

  /** The text a split came from: fields and delimiters alternately. */
  function Interleave(fields: seq<string>, delims: seq<string>): string
    requires |fields| == |delims| + 1
  {
    if delims == [] then fields[0] else fields[0] + delims[0] + Interleave(fields[1..], delims[1..])
  }

  /** A run cut short by the end of a slice is no longer than the run in the
      whole string. */
  lemma RunEndSlice(s: string, lo: nat, hi: nat, q: nat, cls: CharClass)
    requires lo + q <= hi <= |s|
    ensures RunEnd(s[lo..hi], q, cls) + lo <= RunEnd(s, lo + q, cls)
    decreases hi - lo - q
  {
    var t := s[lo..hi];
    if q < |t| && In(t[q], cls) {
      assert t[q] == s[lo + q];
      RunEndSlice(s, lo, hi, q + 1, cls);
    }
  }

  lemma DelimiterEndSlice(s: string, ds: seq<Delimiter>, lo: nat, hi: nat, q: nat)
    requires ValidDelimiters(ds) && lo + q <= hi <= |s|
    requires DelimiterEnd(s, ds, lo + q).None?
    ensures DelimiterEnd(s[lo..hi], ds, q).None?
    decreases |ds|
  {
    if ds != [] {
      RunEndSlice(s, lo, hi, q, ds[0].cls);
      DelimiterEndSlice(s, ds[1..], lo, hi, q);
    }
  }

  /** The text scanned without finding a match holds no match. */
  lemma HeadHasNoDelimiter(s: string, ds: seq<Delimiter>, start: nat, p: nat)
    requires ValidDelimiters(ds) && start <= p <= |s|
    requires forall q | start <= q < p :: DelimiterEnd(s, ds, q).None?
    ensures NoDelimiterIn(s[start..p], ds)
  {
    var head := s[start..p];
    forall q | 0 <= q < |head| ensures DelimiterEnd(head, ds, q).None? {
      DelimiterEndSlice(s, ds, start, p, q);
    }
  }

  /** Splits `s[start..]`, scanning from `p`; no match starts in `start..p`. */
  function SplitFrom(s: string, ds: seq<Delimiter>, start: nat, p: nat): (r: Pieces)
    requires ValidDelimiters(ds) && start <= p <= |s|
    requires forall q | start <= q < p :: DelimiterEnd(s, ds, q).None?
    ensures ScansFrom(s, Matches(s, ds), start, r)
    ensures Interleave(r.fields, r.delims) == s[start..]
    ensures forall k | 0 <= k < |r.delims| :: IsDelimiterRun(r.delims[k], ds)
    ensures forall k | 0 <= k < |r.fields| :: NoDelimiterIn(r.fields[k], ds)
    decreases |s| - p
  {
    var head := s[start..p];
    HeadHasNoDelimiter(s, ds, start, p);
    assert forall q | start <= q < p :: Matches(s, ds)(q).None?;
    if p == |s| then
      ScanToEnd(s, Matches(s, ds), start);
      Pieces([head], [])
    else
      match DelimiterEnd(s, ds, p)
      case Some(e) =>
        var rest := SplitFrom(s, ds, e, e);
        SliceInThree(s, start, p, e);
        ConsPieces(head, s[p..e], rest, ds);
        ScanCons(s, Matches(s, ds), start, p, e, rest);
        Pieces([head] + rest.fields, [s[p..e]] + rest.delims)
      case None =>
        SplitFrom(s, ds, start, p + 1)
  }

  lemma SliceInThree(s: string, i: nat, j: nat, k: nat)
    requires i <= j <= k <= |s|
    ensures s[i..] == s[i..j] + s[j..k] + s[k..]
  {
  }

  /** A field and a delimiter in front of pieces interleave in front of
      their text, and keep every delimiter a match and every field free of
      one. */
  lemma ConsPieces(head: string, d: string, rest: Pieces, ds: seq<Delimiter>)
    requires ValidDelimiters(ds) && |rest.fields| == |rest.delims| + 1
    requires NoDelimiterIn(head, ds) && IsDelimiterRun(d, ds)
    requires forall k | 0 <= k < |rest.delims| :: IsDelimiterRun(rest.delims[k], ds)
    requires forall k | 0 <= k < |rest.fields| :: NoDelimiterIn(rest.fields[k], ds)
    ensures var r := Pieces([head] + rest.fields, [d] + rest.delims);
      Interleave(r.fields, r.delims) == head + d + Interleave(rest.fields, rest.delims) &&
      (forall k | 0 <= k < |r.delims| :: IsDelimiterRun(r.delims[k], ds)) &&
      (forall k | 0 <= k < |r.fields| :: NoDelimiterIn(r.fields[k], ds))
  {
    var r := Pieces([head] + rest.fields, [d] + rest.delims);
    assert r.fields[1..] == rest.fields && r.delims[1..] == rest.delims;
  }

  /** Where the match of the pattern that starts at each position of `s`
      ends, if there is one. */
  function Matches(s: string, ds: seq<Delimiter>): nat -> Option<nat> {
    (q: nat) => if ValidDelimiters(ds) && q <= |s| then DelimiterEnd(s, ds, q) else None
  }

  /** `r` is what scanning `s` from `start` the way re.split does gives,
      where `m(q)` is the end of the match starting at `q`: the first field
      is the text from `start` up to the first position where a match
      starts, and no match starts inside it; that match is the first
      delimiter; the rest is the scan from the end of the match. Without a
      match the field runs to the end of `s`. */
  ghost predicate ScansFrom(s: string, m: nat -> Option<nat>, start: nat, r: Pieces)
    decreases |r.fields|
  {
    |r.fields| == |r.delims| + 1 && start + |r.fields[0]| <= |s| &&
    s[start..start + |r.fields[0]|] == r.fields[0] &&
    (forall q | start <= q < start + |r.fields[0]| :: m(q).None?) &&
    var p := start + |r.fields[0]|;
    if r.delims == [] then p == |s|
    else
      r.delims[0] != [] && m(p) == Some(p + |r.delims[0]|) && p + |r.delims[0]| <= |s| &&
      s[p..p + |r.delims[0]|] == r.delims[0] &&
      ScansFrom(s, m, p + |r.delims[0]|, Pieces(r.fields[1..], r.delims[1..]))
  }

  /** Text with no match in it scans as one field. */
  lemma ScanToEnd(s: string, m: nat -> Option<nat>, start: nat)
    requires start <= |s|
    requires forall q | start <= q < |s| :: m(q).None?
    ensures ScansFrom(s, m, start, Pieces([s[start..]], []))
  {
  }

  /** A field without a match, then a match, then a scan, is a scan. */
  lemma ScanCons(s: string, m: nat -> Option<nat>, start: nat, p: nat, e: nat, rest: Pieces)
    requires start <= p < e <= |s|
    requires forall q | start <= q < p :: m(q).None?
    requires m(p) == Some(e) && ScansFrom(s, m, e, rest)
    ensures ScansFrom(s, m, start, Pieces([s[start..p]] + rest.fields, [s[p..e]] + rest.delims))
  {
    var r := Pieces([s[start..p]] + rest.fields, [s[p..e]] + rest.delims);
    assert r.fields[0] == s[start..p] && r.delims[0] == s[p..e];
    assert Pieces(r.fields[1..], r.delims[1..]) == rest;
    ScanIntro(s, m, start, p, e, r);
  }

  /** The definition of a scan with a delimiter, read from its parts. */
  lemma ScanIntro(s: string, m: nat -> Option<nat>, start: nat, p: nat, e: nat, r: Pieces)
    requires |r.fields| == |r.delims| + 1 && r.delims != [] && r.delims[0] != []
    requires p == start + |r.fields[0]| && e == p + |r.delims[0]| && e <= |s|
    requires s[start..p] == r.fields[0] && s[p..e] == r.delims[0]
    requires forall q | start <= q < p :: m(q).None?
    requires m(p) == Some(e) && ScansFrom(s, m, e, Pieces(r.fields[1..], r.delims[1..]))
    ensures ScansFrom(s, m, start, r)
  {
  }

  /** The scan determines the pieces: two splits that both scan `s` from
      `start` are the same. */
  lemma {:induction false} ScansFromUnique(s: string, m: nat -> Option<nat>, start: nat, r1: Pieces, r2: Pieces)
    requires ScansFrom(s, m, start, r1) && ScansFrom(s, m, start, r2)
    ensures r1 == r2
    decreases |r1.fields|
  {
    var n1 := |r1.fields[0]|;
    var n2 := |r2.fields[0]|;
    if n1 < n2 {
      ScanStopsAt(s, m, start, r1);
      assert false;
    } else if n2 < n1 {
      ScanStopsAt(s, m, start, r2);
      assert false;
    }
    assert r1.fields[0] == r2.fields[0];
    var p := start + n1;
    if r1.delims == [] || r2.delims == [] {
      ScanStopsAt(s, m, start, r1);
      ScanStopsAt(s, m, start, r2);
      assert r1.fields == [r1.fields[0]] && r2.fields == [r2.fields[0]];
    } else {
      assert r1.delims[0] == r2.delims[0];
      var t1 := Pieces(r1.fields[1..], r1.delims[1..]);
      var t2 := Pieces(r2.fields[1..], r2.delims[1..]);
      ScansFromUnique(s, m, p + |r1.delims[0]|, t1, t2);
      assert r1.fields == [r1.fields[0]] + t1.fields && r2.fields == [r2.fields[0]] + t2.fields;
      assert r1.delims == [r1.delims[0]] + t1.delims && r2.delims == [r2.delims[0]] + t2.delims;
    }
  }

  /** Where a scan's first field ends, the text ends or a match starts. */
  lemma ScanStopsAt(s: string, m: nat -> Option<nat>, start: nat, r: Pieces)
    requires ScansFrom(s, m, start, r)
    ensures var p := start + |r.fields[0]|;
      p <= |s| && (r.delims == [] ==> p == |s|) && (r.delims != [] ==> m(p).Some? && p < |s|)
  {
    var p := start + |r.fields[0]|;
    if r.delims != [] {
      assert m(p) == Some(p + |r.delims[0]|);
    }
  }

  /** re.split(pattern, s), with the matched delimiters kept beside the
      fields: exactly the pieces the left-to-right scan gives (`ScansFrom`),
      so the fields and delimiters interleave back into `s`, every
      delimiter is a match of the pattern, and no match starts inside a
      field. */
  function Split(s: string, ds: seq<Delimiter>): (r: Pieces)
    requires ValidDelimiters(ds)
    ensures ScansFrom(s, Matches(s, ds), 0, r)
    ensures |r.fields| >= 1 && |r.fields| == |r.delims| + 1
    ensures Interleave(r.fields, r.delims) == s
    ensures forall k | 0 <= k < |r.delims| :: IsDelimiterRun(r.delims[k], ds)
    ensures forall k | 0 <= k < |r.fields| :: NoDelimiterIn(r.fields[k], ds)
  {
    SplitFrom(s, ds, 0, 0)
  }

  /** Any pieces that scan `s` from its start are the split of `s`. */
  lemma SplitIsTheScan(s: string, ds: seq<Delimiter>, r: Pieces)
    requires ValidDelimiters(ds) && ScansFrom(s, Matches(s, ds), 0, r)
    ensures r == Split(s, ds)
  {
    ScansFromUnique(s, Matches(s, ds), 0, r, Split(s, ds));
  }

  /** The list re.split returns. */
  function ReSplit(s: string, ds: seq<Delimiter>): (r: seq<string>)
    requires ValidDelimiters(ds)
    ensures |r| >= 1 && |r| == |Split(s, ds).delims| + 1
    ensures Interleave(r, Split(s, ds).delims) == s
  {
    Split(s, ds).fields
  }

  /** One part as the cleaning keeps it: stripped, and dropped when nothing
      is left. */
  function CleanPiece(p: string, cls: CharClass): (r: seq<string>)
    ensures |r| <= 1
    ensures forall k | 0 <= k < |r| :: r[k] != [] && !In(r[k][0], cls) && !In(r[k][|r[k]| - 1], cls)
    ensures r == [] <==> AllIn(p, 0, |p|, cls)
    ensures r != [] ==> r[0] == Strip(p, cls)
  {
    var c := Strip(p, cls);
    if c == [] then [] else [c]
  }

  function Cleaner(cls: CharClass): string -> seq<string> {
    p => CleanPiece(p, cls)
  }

  predicate IsCleanField(f: string, cls: CharClass) {
    f != [] && !In(f[0], cls) && !In(f[|f| - 1], cls)
  }

  /** `[p.strip(chars) for p in parts if p.strip(chars)]`: the non-empty
      stripped fields, in order, none of them starting or ending with a
      stripped character. */
  function CleanFields(parts: seq<string>, cls: CharClass): (r: seq<string>)
    ensures parts == [] ==> r == []
    ensures |r| <= |parts|
    ensures forall k | 0 <= k < |r| :: r[k] != [] && !In(r[k][0], cls) && !In(r[k][|r[k]| - 1], cls)
  {
    FlattenEvery(parts, Cleaner(cls), f => IsCleanField(f, cls));
    Flatten(parts, Cleaner(cls))
  }

  /** Cleaning one more part of a prefix appends what is kept of it: the
      step of the `clean_parts` loop. */
  lemma CleanPrefixStep(parts: seq<string>, i: nat, cls: CharClass)
    requires i < |parts|
    ensures CleanFields(parts[..i + 1], cls) == CleanFields(parts[..i], cls) + CleanPiece(parts[i], cls)
  {
    FlattenPrefixStep(parts, i, Cleaner(cls));
  }

  /** The strings of `fields` occur in `s` one after another, without
      overlapping, in the order they are listed. */
  ghost predicate InOrder(fields: seq<string>, s: string)
    decreases |fields|
  {
    fields == [] ||
    exists i: nat | i <= |s| :: OccursAt(s, fields[0], i) && InOrder(fields[1..], s[i + |fields[0]|..])
  }

  lemma InOrderExtendLeft(fields: seq<string>, u: string, t: string)
    requires InOrder(fields, t)
    ensures InOrder(fields, u + t)
  {
    if fields != [] {
      var i: nat :| i <= |t| && OccursAt(t, fields[0], i) && InOrder(fields[1..], t[i + |fields[0]|..]);
      var s := u + t;
      assert s[i + |u|..i + |u| + |fields[0]|] == t[i..i + |fields[0]|];
      assert s[i + |u| + |fields[0]|..] == t[i + |fields[0]|..];
      assert OccursAt(s, fields[0], i + |u|);
    }
  }

  lemma InOrderCons(c: string, rest: seq<string>, s: string, i: nat)
    requires OccursAt(s, c, i) && InOrder(rest, s[i + |c|..])
    ensures InOrder([c] + rest, s)
  {
    var fs := [c] + rest;
    assert fs[0] == c && fs[1..] == rest;
  }

  /** A stripped string occurs inside the string it was stripped from. */
  lemma StripOccurs(f: string, cls: CharClass) returns (i: nat)
    ensures OccursAt(f, Strip(f, cls), i)
  {
    var c := Strip(f, cls);
    var i', j :| 0 <= i' <= j <= |f| && c == f[i'..j] && AllIn(f, 0, i', cls) && AllIn(f, j, |f|, cls);
    assert |c| == j - i';
    i := i';
  }

  /** A slice of `f + t` that ends within `f` is a slice of `f`; what follows
      it is the rest of `f`, then `t`. */
  lemma SliceOfConcat(f: string, t: string, i: nat, j: nat)
    requires i <= j <= |f|
    ensures (f + t)[i..j] == f[i..j]
    ensures (f + t)[j..] == f[j..] + t
  {
    var s := f + t;
    assert forall k | i <= k < j :: s[k] == f[k];
    assert forall k | j <= k < |s| :: s[k] == (f[j..] + t)[k - j];
  }

  /** Cleaning one more field in front of ordered pieces keeps the order. */
  lemma CleanHeadInOrder(f: string, rest: seq<string>, restText: string, cls: CharClass)
    requires InOrder(rest, restText)
    ensures InOrder(CleanPiece(f, cls) + rest, f + restText)
  {
    var c := Strip(f, cls);
    if c == [] {
      InOrderExtendLeft(rest, f, restText);
      assert [] + rest == rest;
    } else {
      var i := StripOccurs(f, cls);
      var s := f + restText;
      assert i + |c| <= |f| && f[i..i + |c|] == c;
      SliceOfConcat(f, restText, i, i + |c|);
      InOrderExtendLeft(rest, f[i + |c|..], restText);
      InOrderCons(c, rest, s, i);
    }
  }

  /** Cleaning the fields of a split keeps them in the order they occur in
      the text the split came from. */
  lemma {:induction false} CleanFieldsInOrder(fields: seq<string>, delims: seq<string>, cls: CharClass)
    requires |fields| == |delims| + 1
    ensures InOrder(CleanFields(fields, cls), Interleave(fields, delims))
    decreases |delims|
  {
    var rest := CleanFields(fields[1..], cls);
    assert CleanFields(fields, cls) == CleanPiece(fields[0], cls) + rest;
    if delims == [] {
      assert fields[1..] == [];
      CleanHeadInOrder(fields[0], rest, "", cls);
      assert fields[0] + "" == Interleave(fields, delims);
    } else {
      var tail := Interleave(fields[1..], delims[1..]);
      CleanFieldsInOrder(fields[1..], delims[1..], cls);
      InOrderExtendLeft(rest, delims[0], tail);
      CleanHeadInOrder(fields[0], rest, delims[0] + tail, cls);
      assert fields[0] + (delims[0] + tail) == Interleave(fields, delims);
    }
  }

  /** The cleaned fields of re.split(pattern, s) are pieces of `s`, in order. */
  lemma SplitFieldsInOrder(s: string, ds: seq<Delimiter>, cls: CharClass)
    requires ValidDelimiters(ds)
    ensures InOrder(CleanFields(ReSplit(s, ds), cls), s)
  {
    var r := Split(s, ds);
    CleanFieldsInOrder(r.fields, r.delims, cls);
  }

  /** A prefix of an ordered list of pieces is ordered. */
  lemma {:induction false} InOrderPrefix(fields: seq<string>, n: nat, s: string)
    requires n <= |fields| && InOrder(fields, s)
    ensures InOrder(fields[..n], s)
    decreases n
  {
    if n > 0 {
      var i: nat :| i <= |s| && OccursAt(s, fields[0], i) && InOrder(fields[1..], s[i + |fields[0]|..]);
      var front := fields[1..][..n - 1];
      InOrderPrefix(fields[1..], n - 1, s[i + |fields[0]|..]);
      InOrderCons(fields[0], front, s, i);
      assert fields[..n] == [fields[0]] + front;
    }
  }

  /** Empty strings occur anywhere, so appending them keeps the order. */
  lemma {:induction false} InOrderPadEmpty(fields: seq<string>, n: nat, s: string)
    requires InOrder(fields, s)
    ensures InOrder(fields + seq(n, _ => ""), s)
    decreases |fields|
  {
    var pad: seq<string> := seq(n, _ => "");
    if fields != [] {
      var i: nat :| i <= |s| && OccursAt(s, fields[0], i) && InOrder(fields[1..], s[i + |fields[0]|..]);
      InOrderPadEmpty(fields[1..], n, s[i + |fields[0]|..]);
      InOrderCons(fields[0], fields[1..] + pad, s, i);
      assert [fields[0]] + (fields[1..] + pad) == fields + pad;
    } else {
      PadEmptyInOrder(n, s);
      assert fields + pad == pad;
    }
  }

  lemma {:induction false} PadEmptyInOrder(n: nat, s: string)
    ensures InOrder(seq(n, _ => ""), s)
  {
    var pad: seq<string> := seq(n, _ => "");
    if n > 0 {
      PadEmptyInOrder(n - 1, s);
      assert pad[1..] == seq(n - 1, _ => "");
      assert OccursAt(s, pad[0], 0);
      assert s[0 + |pad[0]|..] == s;
    }
  }
}
