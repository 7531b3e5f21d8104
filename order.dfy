/**
 * Orderings used by the scorer: Python's ordering of `str` values (for the
 * `sorted(...unique())` loops over topics, runs and question ids) and the
 * descending sort of the per-run tables.
 */
module Order {

  /**
   * Python's `<` on `str`: lexicographic by code point, a proper prefix
   * coming first.
   */
  predicate LexLess(a: string, b: string)
  {
    if a == [] then b != []
    else if b == [] then false
    else if a[0] != b[0] then a[0] < b[0]
    else LexLess(a[1..], b[1..])
  }

  lemma {:induction false} LexLessIrreflexive(a: string)
    ensures !LexLess(a, a)
  {
    if a != [] {
      LexLessIrreflexive(a[1..]);
    }
  }

  lemma {:induction false} LexLessTotal(a: string, b: string)
    ensures a == b || LexLess(a, b) || LexLess(b, a)
  {
    if a != [] && b != [] && a[0] == b[0] {
      LexLessTotal(a[1..], b[1..]);
      assert a == [a[0]] + a[1..];
      assert b == [b[0]] + b[1..];
    }
  }

  lemma {:induction false} LexLessTransitive(a: string, b: string, c: string)
    requires LexLess(a, b) && LexLess(b, c)
    ensures LexLess(a, c)
  {
    if a != [] && a[0] == b[0] && b[0] == c[0] {
      LexLessTransitive(a[1..], b[1..], c[1..]);
    }
  }

  /** Ordering of (topic, run) keys: by topic first, then by run. */
  predicate PairLess(topic1: string, run1: string, topic2: string, run2: string)
  {
    LexLess(topic1, topic2) || (topic1 == topic2 && LexLess(run1, run2))
  }

  /** Strictly increasing, hence also free of duplicates. */
  ghost predicate StrictlySorted(s: seq<string>)
  {
    forall i, j :: 0 <= i < j < |s| ==> LexLess(s[i], s[j])
  }

  lemma {:induction false} LessThanSorted(x: string, s: seq<string>)
    requires StrictlySorted(s) && s != [] && LexLess(x, s[0])
    ensures forall j :: 0 <= j < |s| ==> LexLess(x, s[j])
  {
    forall j | 0 < j < |s|
      ensures LexLess(x, s[j])
    {
      LexLessTransitive(x, s[0], s[j]);
    }
  }

  /** Inserts `x` at its place in a strictly sorted sequence, unless present. */
  function InsertKey(x: string, s: seq<string>): (r: seq<string>)
    requires StrictlySorted(s)
    ensures StrictlySorted(r)
    ensures forall y :: y in r <==> y == x || y in s
  {
    if s == [] then [x]
    else if x == s[0] then s
    else if LexLess(x, s[0]) then
      LessThanSorted(x, s);
      [x] + s
    else
      LexLessTotal(x, s[0]);
      var rest := InsertKey(x, s[1..]);
      assert forall i :: 0 <= i < |rest| ==> LexLess(s[0], rest[i]) by {
        forall i | 0 <= i < |rest| ensures LexLess(s[0], rest[i]) {
          assert rest[i] in rest;
        }
      }
      [s[0]] + rest
  }

  /**
   * `sorted(set(keys))`: the distinct keys in increasing order. Being strictly
   * sorted with exactly the elements of `keys`, the result is determined by
   * the set of keys alone (see SortedKeysUnique).
   */
  function SortedKeys(keys: seq<string>): (r: seq<string>)
    ensures StrictlySorted(r)
    ensures forall y :: y in r <==> y in keys
  {
    if keys == [] then [] else InsertKey(keys[0], SortedKeys(keys[1..]))
  }

  lemma {:induction false} SameElementsBothEmpty(s: seq<string>, t: seq<string>)
    requires forall y :: y in s <==> y in t
    ensures s == [] <==> t == []
  {
    if s != [] {
      assert s[0] in t;
    }
    if t != [] {
      assert t[0] in s;
    }
  }

  lemma {:induction false} SortedKeysUnique(s: seq<string>, t: seq<string>)
    requires StrictlySorted(s) && StrictlySorted(t)
    requires forall y :: y in s <==> y in t
    ensures s == t
  {
    SameElementsBothEmpty(s, t);
    if s != [] {
      assert s[0] in t && t[0] in s;
      if s[0] != t[0] {
        var j :| 0 <= j < |t| && t[j] == s[0];
        var k :| 0 <= k < |s| && s[k] == t[0];
        LexLessIrreflexive(s[0]);
        LexLessTransitive(s[0], t[0], s[0]);
      }
      forall y
        ensures y in s[1..] <==> y in t[1..]
      {
        if y in s[1..] {
          var j :| 1 <= j < |s| && s[j] == y;
          assert LexLess(s[0], y);
          LexLessIrreflexive(y);
          assert y in t;
          var k :| 0 <= k < |t| && t[k] == y;
          assert k != 0;
          assert t[1..][k - 1] == y;
        }
        if y in t[1..] {
          var j :| 1 <= j < |t| && t[j] == y;
          assert LexLess(t[0], y);
          LexLessIrreflexive(y);
          assert y in s;
          var k :| 0 <= k < |s| && s[k] == y;
          assert k != 0;
          assert s[1..][k - 1] == y;
        }
      }
      SortedKeysUnique(s[1..], t[1..]);
      assert s == [s[0]] + s[1..];
      assert t == [t[0]] + t[1..];
    }
  }

  /** Ordered by non-increasing `key`. */
  ghost predicate NonIncreasing<T>(s: seq<T>, key: T -> real)
  {
    forall i, j :: 0 <= i < j < |s| ==> key(s[i]) >= key(s[j])
  }

  function InsertByKey<T>(x: T, s: seq<T>, key: T -> real): (r: seq<T>)
    requires NonIncreasing(s, key)
    ensures NonIncreasing(r, key)
    ensures multiset(r) == multiset(s) + multiset{x}
  {
    if s == [] || key(x) >= key(s[0]) then
      HeadBoundsTail(s, key);
      ConsNonIncreasing(x, s, key);
      [x] + s
    else
      HeadBoundsTail(s, key);
      var rest := InsertByKey(x, s[1..], key);
      var others := s[1..] + [x];
      assert s == [s[0]] + s[1..];
      assert forall i :: 0 <= i < |others| ==> key(s[0]) >= key(others[i]) by {
        forall i | 0 <= i < |others| ensures key(s[0]) >= key(others[i]) {
          if i < |s| - 1 { assert others[i] == s[i + 1]; }
        }
      }
      KeyBoundsPermutation(key(s[0]), rest, others, key);
      ConsNonIncreasing(s[0], rest, key);
      [s[0]] + rest
  }

  /** A non-increasing sequence keeps that order without its head, which bounds all of it. */
  lemma {:induction false} HeadBoundsTail<T>(s: seq<T>, key: T -> real)
    requires NonIncreasing(s, key)
    ensures s != [] ==> NonIncreasing(s[1..], key)
    ensures s != [] ==> forall i :: 0 <= i < |s| ==> key(s[0]) >= key(s[i])
  {
    if s != [] {
      forall i, j | 0 <= i < j < |s[1..]| ensures key(s[1..][i]) >= key(s[1..][j]) {
        assert s[1..][i] == s[i + 1] && s[1..][j] == s[j + 1];
      }
    }
  }

  /** A head bounding a non-increasing tail makes a non-increasing sequence. */
  lemma {:induction false} ConsNonIncreasing<T>(h: T, s: seq<T>, key: T -> real)
    requires NonIncreasing(s, key)
    requires forall i :: 0 <= i < |s| ==> key(h) >= key(s[i])
    ensures NonIncreasing([h] + s, key)
  {
    var r := [h] + s;
    forall i, j | 0 <= i < j < |r| ensures key(r[i]) >= key(r[j]) {
      assert r[j] == s[j - 1];
      if i > 0 { assert r[i] == s[i - 1]; }
    }
  }

  /** A bound on every key of `xs` bounds every key of a permutation of `xs`. */
  lemma {:induction false} KeyBoundsPermutation<T>(bound: real, rest: seq<T>, xs: seq<T>, key: T -> real)
    requires multiset(rest) == multiset(xs)
    requires forall i :: 0 <= i < |xs| ==> bound >= key(xs[i])
    ensures forall i :: 0 <= i < |rest| ==> bound >= key(rest[i])
  {
    forall i | 0 <= i < |rest| ensures bound >= key(rest[i]) {
      assert rest[i] in multiset(xs);
      var j :| 0 <= j < |xs| && xs[j] == rest[i];
    }
  }

  /**
   * `sort_values(key, ascending=False)`: a permutation of `s` ordered by
   * non-increasing key. Only the order of the keys is promised; how equal keys
   * are arranged is left open, as pandas' default sort is not stable.
   */
  function SortDescending<T>(s: seq<T>, key: T -> real): (r: seq<T>)
    ensures NonIncreasing(r, key)
    ensures multiset(r) == multiset(s)
  {
    if s == [] then []
    else
      assert s == [s[0]] + s[1..];
      InsertByKey(s[0], SortDescending(s[1..], key), key)
  }

  /** Two sequences with the same multiset have the same length and the same members. */
  lemma {:induction false} PermutationMembers<T>(r: seq<T>, s: seq<T>)
    requires multiset(r) == multiset(s)
    ensures |r| == |s|
    ensures forall i :: 0 <= i < |r| ==> r[i] in s
    ensures forall i :: 0 <= i < |s| ==> s[i] in r
  {
    assert |r| == |multiset(r)| == |multiset(s)| == |s|;
    forall i | 0 <= i < |r| ensures r[i] in s {
      assert r[i] in multiset(r);
    }
    forall i | 0 <= i < |s| ensures s[i] in r {
      assert s[i] in multiset(s);
    }
  }
}
