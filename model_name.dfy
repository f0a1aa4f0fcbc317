/** The model identifier of a manual, derived from its file name
    (`extract_model_name_simple`): the first `WM<digits><word characters>`
    token, case-insensitively, upper-cased; the file stem itself when there
    is none. */
module ModelName {
  import opened Strings
  import opened Options

  /** `WM\d+\w*`, ignoring case, matches `s[i..j]`: `WM` from `i`, digits
      from `i + 2` to `d`, word characters from `d` to `j`. */
  ghost predicate IsModelToken(s: string, i: nat, j: nat) {
    i + 3 <= j <= |s| &&
    (s[i] == 'W' || s[i] == 'w') && (s[i + 1] == 'M' || s[i + 1] == 'm') &&
    exists d: nat | i + 3 <= d <= j :: AllIn(s, i + 2, d, Digit) && AllIn(s, d, j, Word)
  }

  /** The match `re.search` reports: the leftmost start, and from that start
      the longest match, since `\d+` and `\w*` are greedy and never need to
      give characters back. */
  ghost predicate IsSearchMatch(s: string, i: nat, j: nat) {
    IsModelToken(s, i, j) &&
    (forall i': nat, j': nat | i' < i :: !IsModelToken(s, i', j')) &&
    (forall j': nat | j < j' :: !IsModelToken(s, i, j'))
  }

  /** A token can start at `i`: `W` or `w`, `M` or `m`, then a digit. */
  predicate TokenStartsAt(s: string, i: nat) {
    i + 3 <= |s| && (s[i] == 'W' || s[i] == 'w') && (s[i + 1] == 'M' || s[i + 1] == 'm') && In(s[i + 2], Digit)
  }

  /** The first position from `from` on where a token can start. */
  function FindTokenStart(s: string, from: nat): (r: Option<nat>)
    ensures r.Some? ==> from <= r.value && TokenStartsAt(s, r.value)
    ensures forall i: nat | from <= i && (r.None? || i < r.value) :: !TokenStartsAt(s, i)
    decreases |s| - from
  {
    if from + 3 > |s| then None
    else if TokenStartsAt(s, from) then Some(from)
    else FindTokenStart(s, from + 1)
  }

  /** A token that starts at `i` ends where the run of word characters from
      `i + 2` ends, and at no other place further on. */
  lemma TokenExtent(s: string, i: nat)
    requires TokenStartsAt(s, i)
    ensures IsModelToken(s, i, RunEnd(s, i + 2, Word))
    ensures forall j: nat :: IsModelToken(s, i, j) ==> j <= RunEnd(s, i + 2, Word)
  {
    var e := RunEnd(s, i + 2, Word);
    assert AllIn(s, i + 2, i + 3, Digit);
    assert In(s[i + 2], Word);
    assert AllIn(s, i + 3, e, Word);
    forall j: nat | IsModelToken(s, i, j) ensures j <= e {
      var d: nat :| i + 3 <= d <= j && AllIn(s, i + 2, d, Digit) && AllIn(s, d, j, Word);
      assert AllIn(s, i + 2, j, Word);
    }
  }

  lemma TokenNeedsStart(s: string, i: nat, j: nat)
    requires IsModelToken(s, i, j)
    ensures TokenStartsAt(s, i)
  {
    var d: nat :| i + 3 <= d <= j && AllIn(s, i + 2, d, Digit) && AllIn(s, d, j, Word);
    assert In(s[i + 2], Digit);
  }

  /** `extract_model_name_simple` on the file stem. When the stem holds a
      token, the result is the token `re.search` finds, upper-cased;
      otherwise it is the stem unchanged. Either way a non-empty stem gives
      a non-empty model name. */
  function ModelName(stem: string): (r: string)
    ensures (exists i: nat, j: nat :: IsModelToken(stem, i, j)) ==>
              exists i: nat, j: nat :: IsSearchMatch(stem, i, j) && r == Upper(stem[i..j])
    ensures (forall i: nat, j: nat :: !IsModelToken(stem, i, j)) ==> r == stem
    ensures |stem| > 0 ==> |r| > 0
  {
    match FindTokenStart(stem, 0)
    case None =>
      NoToken(stem);
      stem
    case Some(i) =>
      var j := RunEnd(stem, i + 2, Word);
      LeftmostToken(stem, i);
      Upper(stem[i..j])
  }

  lemma NoToken(s: string)
    requires FindTokenStart(s, 0).None?
    ensures forall i: nat, j: nat :: !IsModelToken(s, i, j)
  {
    forall i: nat, j: nat | IsModelToken(s, i, j) ensures false {
      TokenNeedsStart(s, i, j);
    }
  }

  lemma LeftmostToken(s: string, i: nat)
    requires FindTokenStart(s, 0) == Some(i)
    ensures IsSearchMatch(s, i, RunEnd(s, i + 2, Word))
  {
    TokenExtent(s, i);
    forall i': nat, j': nat | i' < i ensures !IsModelToken(s, i', j') {
      if IsModelToken(s, i', j') {
        TokenNeedsStart(s, i', j');
      }
    }
  }
}
