/**
 * Exact real arithmetic over the tables: sums of a per-key quantity over a
 * list of keys, the first-occurrence de-duplication that `unique()` and
 * `drop_duplicates` perform, and the unweighted mean of the reduction step.
 */
module Sums {
  import opened Order

  /** No element occurs twice. */
  ghost predicate NoDuplicates<K>(s: seq<K>)
  {
    forall i, j :: 0 <= i < j < |s| ==> s[i] != s[j]
  }

  /** The distinct elements of `s`, each at the place of its first occurrence. */
  function Distinct<K(==)>(s: seq<K>): (r: seq<K>)
    ensures NoDuplicates(r)
    ensures forall i :: 0 <= i < |s| ==> s[i] in r
    ensures forall i :: 0 <= i < |r| ==> r[i] in s
  {
    if s == [] then []
    else
      var prefix := Distinct(s[..|s| - 1]);
      var last := s[|s| - 1];
      assert s == s[..|s| - 1] + [last];
      if last in s[..|s| - 1] then prefix else prefix + [last]
  }

  lemma {:induction false} DistinctOfRepeat<K>(s: seq<K>, x: K)
    requires x in s
    ensures Distinct(s + [x]) == Distinct(s)
  {
    assert (s + [x])[..|s|] == s;
  }

  /** The sum of `f` over the keys `ks`, in order. */
  function SumOver<K>(ks: seq<K>, f: K -> real): real
  {
    if ks == [] then 0.0 else f(ks[0]) + SumOver(ks[1..], f)
  }

  lemma {:induction false} SumOverAppend<K>(a: seq<K>, b: seq<K>, f: K -> real)
    ensures SumOver(a + b, f) == SumOver(a, f) + SumOver(b, f)
  {
    if a == [] {
      assert a + b == b;
    } else {
      assert (a + b)[1..] == a[1..] + b;
      SumOverAppend(a[1..], b, f);
    }
  }

  /** Extending the keys by one adds that key's value. */
  lemma {:induction false} SumOverStep<K>(ks: seq<K>, k: K, f: K -> real)
    ensures SumOver(ks + [k], f) == SumOver(ks, f) + f(k)
  {
    SumOverAppend(ks, [k], f);
    assert SumOver([k], f) == f(k) + SumOver([k][1..], f);
  }

  lemma {:induction false} SumOverNonNegative<K>(ks: seq<K>, f: K -> real)
    requires forall k :: k in ks ==> f(k) >= 0.0
    ensures SumOver(ks, f) >= 0.0
  {
    if ks != [] {
      SumOverNonNegative(ks[1..], f);
    }
  }

  /** Summing pointwise: if f + g stays below h on every key, so do the sums. */
  lemma {:induction false} SumOverPairBelow<K>(ks: seq<K>, f: K -> real, g: K -> real, h: K -> real)
    requires forall k :: k in ks ==> f(k) + g(k) <= h(k)
    ensures SumOver(ks, f) + SumOver(ks, g) <= SumOver(ks, h)
  {
    if ks != [] {
      SumOverPairBelow(ks[1..], f, g, h);
    }
  }

  lemma {:induction false} SumOverBelow<K>(ks: seq<K>, f: K -> real, h: K -> real)
    requires forall k :: k in ks ==> f(k) <= h(k)
    ensures SumOver(ks, f) <= SumOver(ks, h)
  {
    if ks != [] {
      SumOverBelow(ks[1..], f, h);
    }
  }

  lemma {:induction false} SumOverSame<K>(ks: seq<K>, f: K -> real, g: K -> real)
    requires forall k :: k in ks ==> f(k) == g(k)
    ensures SumOver(ks, f) == SumOver(ks, g)
  {
    SumOverBelow(ks, f, g);
    SumOverBelow(ks, g, f);
  }

  /** Taking out the key at index i. */
  lemma {:induction false} SumOverRemove<K>(ks: seq<K>, i: nat, f: K -> real)
    requires i < |ks|
    ensures SumOver(ks, f) == f(ks[i]) + SumOver(ks[..i] + ks[i + 1..], f)
  {
    var tail := [ks[i]] + ks[i + 1..];
    calc {
      SumOver(ks, f);
      { assert ks == ks[..i] + tail; }
      SumOver(ks[..i] + tail, f);
      { SumOverAppend(ks[..i], tail, f); }
      SumOver(ks[..i], f) + SumOver(tail, f);
      { assert tail[1..] == ks[i + 1..]; }
      SumOver(ks[..i], f) + (f(ks[i]) + SumOver(ks[i + 1..], f));
      { SumOverAppend(ks[..i], ks[i + 1..], f); }
      f(ks[i]) + SumOver(ks[..i] + ks[i + 1..], f);
    }
  }

  lemma {:induction false} RemoveKeepsOthers<K>(ks: seq<K>, i: nat)
    requires i < |ks| && NoDuplicates(ks)
    ensures NoDuplicates(ks[..i] + ks[i + 1..])
    ensures forall y :: y in ks[..i] + ks[i + 1..] <==> y in ks && y != ks[i]
  {
    var rest := ks[..i] + ks[i + 1..];
    forall y
      ensures y in rest <==> y in ks && y != ks[i]
    {
      if y in ks && y != ks[i] {
        var j :| 0 <= j < |ks| && ks[j] == y;
        if j < i { assert rest[j] == y; } else { assert rest[j - 1] == y; }
      }
    }
  }

  /**
   * A sum of non-negative terms over a duplicate-free list of keys is at most
   * the sum over any duplicate-free list that contains them all.
   */
  lemma {:induction false} SumOverSubset<K>(xs: seq<K>, ys: seq<K>, f: K -> real)
    requires NoDuplicates(xs) && NoDuplicates(ys)
    requires forall x :: x in xs ==> x in ys
    requires forall y :: y in ys ==> f(y) >= 0.0
    ensures SumOver(xs, f) <= SumOver(ys, f)
    decreases |xs|
  {
    if xs == [] {
      SumOverNonNegative(ys, f);
    } else {
      assert xs[0] in ys;
      var i :| 0 <= i < |ys| && ys[i] == xs[0];
      var rest := ys[..i] + ys[i + 1..];
      SumOverRemove(ys, i, f);
      RemoveKeepsOthers(ys, i);
      forall x | x in xs[1..]
        ensures x in rest
      {
        var j :| 1 <= j < |xs| && xs[j] == x;
        assert xs[j] in xs;
        assert x != ys[i];
      }
      SumOverSubset(xs[1..], rest, f);
    }
  }

  /**
   * The sum over the distinct keys does not depend on the order in which they
   * are listed.
   */
  lemma {:induction false} SumOverPermutation<K>(xs: seq<K>, ys: seq<K>, f: K -> real)
    requires NoDuplicates(xs) && NoDuplicates(ys)
    requires forall x :: x in xs <==> x in ys
    ensures SumOver(xs, f) == SumOver(ys, f)
    decreases |xs|
  {
    if xs == [] {
      assert forall i :: 0 <= i < |ys| ==> ys[i] !in xs;
    } else {
      assert xs[0] in ys;
      var i :| 0 <= i < |ys| && ys[i] == xs[0];
      var rest := ys[..i] + ys[i + 1..];
      SumOverRemove(ys, i, f);
      RemoveKeepsOthers(ys, i);
      forall x
        ensures x in xs[1..] <==> x in rest
      {
        if x in xs[1..] {
          var j :| 1 <= j < |xs| && xs[j] == x;
          assert xs[j] in xs;
          assert x != ys[i];
        }
        if x in rest {
          assert x in xs && x != xs[0];
          var j :| 0 <= j < |xs| && xs[j] == x;
          assert xs[1..][j - 1] == x;
        }
      }
      SumOverPermutation(xs[1..], rest, f);
    }
  }

  /** The sum of a column of reals. */
  function Sum(xs: seq<real>): real
  {
    if xs == [] then 0.0 else xs[0] + Sum(xs[1..])
  }

  /** pandas' `mean()` of a non-empty column. */
  function Mean(xs: seq<real>): real
    requires |xs| > 0
  {
    Sum(xs) / |xs| as real
  }

  lemma {:induction false} SumWithin(xs: seq<real>, lo: real, hi: real)
    requires forall i :: 0 <= i < |xs| ==> lo <= xs[i] <= hi
    ensures |xs| as real * lo <= Sum(xs) <= |xs| as real * hi
  {
    if xs != [] {
      SumWithin(xs[1..], lo, hi);
    }
  }

  /** A mean lies within any bounds that hold for every entry. */
  lemma {:induction false} MeanWithin(xs: seq<real>, lo: real, hi: real)
    requires |xs| > 0
    requires forall i :: 0 <= i < |xs| ==> lo <= xs[i] <= hi
    ensures lo <= Mean(xs) <= hi
  {
    SumWithin(xs, lo, hi);
    QuotientWithin(Sum(xs), |xs| as real, lo, hi);
  }

  /** Dividing by a positive `n` keeps a value between `n * lo` and `n * hi` within [lo, hi]. */
  lemma {:induction false} QuotientWithin(s: real, n: real, lo: real, hi: real)
    requires n > 0.0 && n * lo <= s <= n * hi
    ensures lo <= s / n <= hi
  {
    var m := s / n;
    assert m * n == s;
    if m < lo {
      ScaleStrict(m, lo, n);
    }
    if hi < m {
      ScaleStrict(hi, m, n);
    }
  }

  /** Scaling by a positive factor keeps a strict order. */
  lemma {:induction false} ScaleStrict(a: real, b: real, c: real)
    requires a < b && c > 0.0
    ensures a * c < b * c
  {
    assert b * c - a * c == (b - a) * c;
  }

  /** A part of a positive whole is a fraction between 0 and 1. */
  lemma {:induction false} RatioWithinUnit(part: real, whole: real)
    requires 0.0 <= part <= whole && whole > 0.0
    ensures 0.0 <= part / whole <= 1.0
  {
    var q := part / whole;
    assert q * whole == part;
  }

  /**
   * Two shares of a positive count `n`, each scaled by a weight `w`: both are
   * non-negative, and together they are at most `w` when the parts add up to
   * at most `n`.
   */
  lemma {:induction false} SharesWithin(p: real, q: real, n: real, w: real)
    requires 0.0 <= p && 0.0 <= q && p + q <= n && n > 0.0 && w >= 0.0
    ensures 0.0 <= p / n * w && 0.0 <= q / n * w
    ensures p / n * w + q / n * w <= w
  {
    RatioWithinUnit(p, n);
    RatioWithinUnit(q, n);
    RatioWithinUnit(p + q, n);
    assert p / n + q / n == (p + q) / n;
    assert p / n * w + q / n * w == (p + q) / n * w;
    assert (p + q) / n * w <= 1.0 * w;
  }

  /** Two parts of a positive whole are fractions whose sum is at most 1. */
  lemma {:induction false} RatiosWithinUnit(p: real, q: real, whole: real)
    requires 0.0 <= p && 0.0 <= q && p + q <= whole && whole > 0.0
    ensures 0.0 <= p / whole && 0.0 <= q / whole && p / whole + q / whole <= 1.0
  {
    RatioWithinUnit(p, whole);
    RatioWithinUnit(q, whole);
    RatioWithinUnit(p + q, whole);
    assert p / whole + q / whole == (p + q) / whole;
  }

  /** Strictly sorted keys are distinct. */
  lemma {:induction false} StrictlySortedDistinct(s: seq<string>)
    requires StrictlySorted(s)
    ensures NoDuplicates(s)
  {
    forall i, j | 0 <= i < j < |s| ensures s[i] != s[j] {
      LexLessIrreflexive(s[i]);
    }
  }
}
