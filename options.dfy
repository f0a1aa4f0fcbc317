/** An optional value, and the filter-map that keeps the present ones.
    Every extractor of the processor walks its input lines, derives at most
    one record from each, and keeps the records in line order: that is
    `Somes` over a sequence of per-line options. */
module Options {

  datatype Option<T> = None | Some(value: T)

  /** The present values of `xs`, in order. Defined from the end, the way
      an append loop builds it. */
  function Somes<T>(xs: seq<Option<T>>): (r: seq<T>)
    ensures |r| <= |xs|
  {
    if xs == [] then []
    else Somes(xs[..|xs| - 1]) + (if xs[|xs| - 1].Some? then [xs[|xs| - 1].value] else [])
  }

  lemma {:induction false} SomesAppend<T>(xs: seq<Option<T>>, ys: seq<Option<T>>)
    ensures Somes(xs + ys) == Somes(xs) + Somes(ys)
    decreases |ys|
  {
    if ys == [] {
      assert xs + ys == xs;
    } else {
      var last := ys[|ys| - 1];
      assert (xs + ys)[..|xs + ys| - 1] == xs + ys[..|ys| - 1];
      SomesAppend(xs, ys[..|ys| - 1]);
    }
  }

  /** Where each present value comes from: a strictly increasing list of
      positions in `xs`, one per value, that misses no present entry. */
  lemma {:induction false} SomesOrigins<T>(xs: seq<Option<T>>) returns (idx: seq<nat>)
    ensures |idx| == |Somes(xs)|
    ensures forall i | 0 <= i < |idx| :: idx[i] < |xs| && xs[idx[i]] == Some(Somes(xs)[i])
    ensures forall i, j | 0 <= i < j < |idx| :: idx[i] < idx[j]
    ensures forall j | 0 <= j < |xs| && xs[j].Some? :: j in idx
  {
    if xs == [] {
      idx := [];
    } else {
      var n := |xs| - 1;
      var front := xs[..n];
      var pre := SomesOrigins(front);
      forall i | 0 <= i < |pre| ensures front[pre[i]] == xs[pre[i]] {
      }
      forall j | 0 <= j < n ensures front[j] == xs[j] {
      }
      if xs[n].Some? {
        idx := pre + [n];
        assert Somes(xs) == Somes(front) + [xs[n].value];
        forall i | 0 <= i < |idx| ensures idx[i] < |xs| && xs[idx[i]] == Some(Somes(xs)[i]) {
          if i < |pre| {
            assert idx[i] == pre[i];
          }
        }
      } else {
        idx := pre;
        assert Somes(xs) == Somes(front);
      }
    }
  }

  /** `f` applied to every element of `xs`. */
  function Map<A, B>(xs: seq<A>, f: A -> B): (r: seq<B>)
    ensures |r| == |xs|
    ensures forall k | 0 <= k < |xs| :: r[k] == f(xs[k])
  {
    seq(|xs|, k requires 0 <= k < |xs| => f(xs[k]))
  }

  /** Mapping one more element of the input appends its image. */
  lemma MapSnoc<A, B>(xs: seq<A>, i: nat, f: A -> B)
    requires i < |xs|
    ensures Map(xs[..i + 1], f) == Map(xs[..i], f) + [f(xs[i])]
  {
    assert Map(xs[..i + 1], f)[..i] == Map(xs[..i], f);
  }

  /** One more element of the input adds its value, when it has one, to the
      end of the filter-map: the step of an append loop. */
  lemma FilterMapStep<A, B>(xs: seq<A>, i: nat, f: A -> Option<B>)
    requires i < |xs|
    ensures Somes(Map(xs[..i + 1], f)) == Somes(Map(xs[..i], f)) + (if f(xs[i]).Some? then [f(xs[i]).value] else [])
  {
    assert Map(xs[..i + 1], f)[..i] == Map(xs[..i], f);
  }

  /** A property every present entry has, every kept value has. */
  lemma SomesEvery<T>(xs: seq<Option<T>>, P: T -> bool)
    requires forall k | 0 <= k < |xs| && xs[k].Some? :: P(xs[k].value)
    ensures forall i | 0 <= i < |Somes(xs)| :: P(Somes(xs)[i])
  {
    var idx := SomesOrigins(xs);
  }

  /** The items `f` gives for each element of `xs`, one element after the
      other. */
  function Flatten<A, B>(xs: seq<A>, f: A -> seq<B>): seq<B> {
    if xs == [] then [] else f(xs[0]) + Flatten(xs[1..], f)
  }

  /** Flattening one more element at the end appends its items. */
  lemma {:induction false} FlattenSnoc<A, B>(xs: seq<A>, x: A, f: A -> seq<B>)
    ensures Flatten(xs + [x], f) == Flatten(xs, f) + f(x)
  {
    if xs == [] {
      assert xs + [x] == [x];
    } else {
      var q := xs + [x];
      assert q[0] == xs[0] && q[1..] == xs[1..] + [x];
      FlattenSnoc(xs[1..], x, f);
      assert f(xs[0]) + (Flatten(xs[1..], f) + f(x)) == (f(xs[0]) + Flatten(xs[1..], f)) + f(x);
    }
  }

  /** Flattening one more element of a prefix: the step of an append loop. */
  lemma FlattenPrefixStep<A, B>(xs: seq<A>, i: nat, f: A -> seq<B>)
    requires i < |xs|
    ensures Flatten(xs[..i + 1], f) == Flatten(xs[..i], f) + f(xs[i])
  {
    assert xs[..i + 1] == xs[..i] + [xs[i]];
    FlattenSnoc(xs[..i], xs[i], f);
  }

  /** When `f` gives at most one item per element, flattening gives at most
      as many items as there are elements, and each of them is an item `f`
      gives for some element. */
  lemma {:induction false} FlattenEvery<A, B>(xs: seq<A>, f: A -> seq<B>, P: B -> bool)
    requires forall k | 0 <= k < |xs| :: |f(xs[k])| <= 1 && forall j | 0 <= j < |f(xs[k])| :: P(f(xs[k])[j])
    ensures |Flatten(xs, f)| <= |xs|
    ensures forall j | 0 <= j < |Flatten(xs, f)| :: P(Flatten(xs, f)[j])
  {
    if xs != [] {
      assert forall k | 0 <= k < |xs[1..]| :: xs[1..][k] == xs[k + 1];
      FlattenEvery(xs[1..], f, P);
      var h := f(xs[0]);
      var t := Flatten(xs[1..], f);
      assert |h| <= 1 && forall j | 0 <= j < |h| :: P(h[j]);
      assert forall j | 0 <= j < |h + t| :: (h + t)[j] == if j < |h| then h[j] else t[j - |h|];
    }
  }
}
