/**
 * The two row-set operations every pandas step of the scorers is built from:
 * boolean-mask selection (`df[mask]`), which keeps the matching rows in table
 * order, each as often as it occurs; and the concatenation of the rows a
 * left merge produces for each left-hand row, in left-hand order.
 */
module Frames {

  /** `i` is the first index of `s` whose element satisfies `p`. */
  ghost predicate FirstMatch<T>(s: seq<T>, p: T -> bool, i: int)
  {
    0 <= i < |s| && p(s[i]) && forall j :: 0 <= j < i ==> !p(s[j])
  }

  /**
   * `s[mask]`: the elements of `s` that satisfy `p`, in order, and no other;
   * the first one is the first match of `s` (what `iloc[0]` reads).
   * FilterCount adds that each is kept as many times as it occurs in `s`.
   */
  function Filter<T(!new)>(s: seq<T>, p: T -> bool): (r: seq<T>)
    ensures forall x :: x in r <==> x in s && p(x)
    ensures forall i :: FirstMatch(s, p, i) ==> r != [] && r[0] == s[i]
  {
    if s == [] then []
    else
      var rest := Filter(s[1..], p);
      var r := (if p(s[0]) then [s[0]] else []) + rest;
      assert s == [s[0]] + s[1..];
      FilterFirst(s, p, rest, r);
      r
  }

  /** How many times `x` occurs in `s`. */
  function Occurrences<T(==)>(s: seq<T>, x: T): nat
  {
    if s == [] then 0 else (if s[0] == x then 1 else 0) + Occurrences(s[1..], x)
  }

  /** Selection keeps every selected element as often as it occurs, and drops the rest. */
  lemma {:induction false} FilterCount<T(!new)>(s: seq<T>, p: T -> bool, x: T)
    ensures Occurrences(Filter(s, p), x) == if p(x) then Occurrences(s, x) else 0
  {
    if s != [] {
      FilterCount(s[1..], p, x);
      var head := if p(s[0]) then [s[0]] else [];
      assert Filter(s, p) == head + Filter(s[1..], p);
      OccurrencesAppend(head, Filter(s[1..], p), x);
    }
  }

  lemma {:induction false} OccurrencesAppend<T>(a: seq<T>, b: seq<T>, x: T)
    ensures Occurrences(a + b, x) == Occurrences(a, x) + Occurrences(b, x)
  {
    if a != [] {
      assert (a + b)[1..] == a[1..] + b;
      OccurrencesAppend(a[1..], b, x);
    } else {
      assert a + b == b;
    }
  }

  /** FilterCount for every element at once. */
  lemma {:induction false} FilterCounts<T(!new)>(s: seq<T>, p: T -> bool)
    ensures forall x :: Occurrences(Filter(s, p), x) == if p(x) then Occurrences(s, x) else 0
  {
    forall x
      ensures Occurrences(Filter(s, p), x) == if p(x) then Occurrences(s, x) else 0
    {
      FilterCount(s, p, x);
    }
  }

  /** The first match of `s` heads the filtered `s` when the tail's first match heads `rest`. */
  lemma {:induction false} FilterFirst<T>(s: seq<T>, p: T -> bool, rest: seq<T>, r: seq<T>)
    requires s != [] && r == (if p(s[0]) then [s[0]] else []) + rest
    requires forall i :: FirstMatch(s[1..], p, i) ==> rest != [] && rest[0] == s[1..][i]
    ensures forall i :: FirstMatch(s, p, i) ==> r != [] && r[0] == s[i]
  {
    forall i | FirstMatch(s, p, i) ensures r != [] && r[0] == s[i] {
      if !p(s[0]) {
        assert i != 0;
        forall j | 0 <= j < i - 1 ensures !p(s[1..][j]) {
          assert s[1..][j] == s[j + 1];
        }
        assert FirstMatch(s[1..], p, i - 1);
      }
    }
  }

  /** Nothing is selected exactly when no element satisfies `p`. */
  lemma {:induction false} FilterEmpty<T(!new)>(s: seq<T>, p: T -> bool)
    ensures Filter(s, p) == [] <==> forall i :: 0 <= i < |s| ==> !p(s[i])
  {
    if Filter(s, p) != [] {
      assert Filter(s, p)[0] in s;
    }
    if exists i :: 0 <= i < |s| && p(s[i]) {
      var i :| 0 <= i < |s| && p(s[i]);
      assert s[i] in Filter(s, p);
    }
  }

  /** Selection distributes over concatenation. */
  lemma {:induction false} FilterAppend<T(!new)>(s: seq<T>, t: seq<T>, p: T -> bool)
    ensures Filter(s + t, p) == Filter(s, p) + Filter(t, p)
  {
    if s == [] {
      assert s + t == t;
    } else {
      assert (s + t)[0] == s[0];
      assert (s + t)[1..] == s[1..] + t;
      FilterAppend(s[1..], t, p);
    }
  }

  /** The rows `f` yields for each element of `s`, block after block, in the order of `s`. */
  function FlatMap<A, B>(s: seq<A>, f: A -> seq<B>): seq<B>
  {
    if s == [] then [] else f(s[0]) + FlatMap(s[1..], f)
  }

  /** `x` is among the rows `f` yields for some element of `s`. */
  ghost predicate InSomeBlock<A, B>(s: seq<A>, f: A -> seq<B>, x: B)
  {
    exists i :: 0 <= i < |s| && x in f(s[i])
  }

  /** The flattened rows are exactly the rows of the blocks. */
  lemma {:induction false} FlatMapMembers<A, B>(s: seq<A>, f: A -> seq<B>, x: B)
    ensures x in FlatMap(s, f) <==> InSomeBlock(s, f, x)
  {
    if s != [] {
      FlatMapMembers(s[1..], f, x);
      if x in FlatMap(s, f) && x !in f(s[0]) {
        var i :| 0 <= i < |s[1..]| && x in f(s[1..][i]);
        assert s[i + 1] == s[1..][i];
      }
      if InSomeBlock(s, f, x) {
        var i :| 0 <= i < |s| && x in f(s[i]);
        if i > 0 {
          assert s[1..][i - 1] == s[i];
        }
      }
    }
  }
}
