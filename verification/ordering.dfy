/** Python's ordering of `str` values (code point by code point, a proper
    prefix first) and `sorted` over strings. */
module Ordering {

  /** `a <= b` on Python strings. */
  predicate Le(a: string, b: string)
    decreases |a|
  {
    if |a| == 0 then true
    else if |b| == 0 then false
    else if a[0] != b[0] then a[0] < b[0]
    else Le(a[1..], b[1..])
  }

  /** `a < b` on Python strings. */
  predicate Lt(a: string, b: string)
  {
    Le(a, b) && a != b
  }

  lemma {:induction false} LeReflexive(a: string)
    ensures Le(a, a)
    decreases |a|
  {
    if |a| > 0 { LeReflexive(a[1..]); }
  }

  lemma {:induction false} LeTotal(a: string, b: string)
    ensures Le(a, b) || Le(b, a)
    decreases |a|
  {
    if |a| > 0 && |b| > 0 && a[0] == b[0] { LeTotal(a[1..], b[1..]); }
  }

  lemma {:induction false} LeAntisymmetric(a: string, b: string)
    requires Le(a, b) && Le(b, a)
    ensures a == b
    decreases |a|
  {
    if |a| > 0 {
      LeAntisymmetric(a[1..], b[1..]);
      assert a == [a[0]] + a[1..] && b == [b[0]] + b[1..];
    }
  }

  lemma {:induction false} LeTransitive(a: string, b: string, c: string)
    requires Le(a, b) && Le(b, c)
    ensures Le(a, c)
    decreases |a|
  {
    if |a| > 0 && a[0] == b[0] && b[0] == c[0] { LeTransitive(a[1..], b[1..], c[1..]); }
  }

  /** Non-decreasing, as `sorted` returns. */
  predicate Sorted(xs: seq<string>)
  {
    forall i, j :: 0 <= i < j < |xs| ==> Le(xs[i], xs[j])
  }

  /** Increasing, hence also free of duplicates. */
  predicate StrictlySorted(xs: seq<string>)
  {
    forall i, j :: 0 <= i < j < |xs| ==> Lt(xs[i], xs[j])
  }

  /** `y` is at most every element of `xs`. */
  predicate LowerBound(y: string, xs: seq<string>)
  {
    forall i :: 0 <= i < |xs| ==> Le(y, xs[i])
  }

  lemma SortedCons(y: string, xs: seq<string>)
    requires Sorted(xs) && LowerBound(y, xs)
    ensures Sorted([y] + xs)
  {
    var s := [y] + xs;
    forall i, j | 0 <= i < j < |s| ensures Le(s[i], s[j]) {
      if i > 0 { assert s[i] == xs[i - 1] && s[j] == xs[j - 1]; }
      else { assert s[j] == xs[j - 1]; }
    }
  }

  lemma LowerBoundTransfer(y: string, xs: seq<string>, ys: seq<string>)
    requires LowerBound(y, xs)
    requires forall z :: z in ys ==> z in xs
    ensures LowerBound(y, ys)
  {
    forall i | 0 <= i < |ys| ensures Le(y, ys[i]) {
      assert ys[i] in xs;
    }
  }

  /** One step of insertion sort. */
  function Insert(x: string, xs: seq<string>): (r: seq<string>)
    requires Sorted(xs)
    ensures multiset(r) == multiset(xs) + multiset{x}
    ensures Sorted(r)
  {
    if |xs| == 0 then [x]
    else if Le(x, xs[0]) then
      assert LowerBound(x, xs) by {
        forall i | 0 <= i < |xs| ensures Le(x, xs[i]) {
          if i > 0 { LeTransitive(x, xs[0], xs[i]); }
        }
      }
      SortedCons(x, xs);
      [x] + xs
    else
      LeTotal(x, xs[0]);
      var rest := Insert(x, xs[1..]);
      assert xs == [xs[0]] + xs[1..];
      assert LowerBound(xs[0], xs[1..] + [x]);
      assert forall z :: z in rest ==> z in multiset(xs[1..] + [x]);
      LowerBoundTransfer(xs[0], xs[1..] + [x], rest);
      SortedCons(xs[0], rest);
      [xs[0]] + rest
  }

  /** `sorted(xs)`: the same strings, as a multiset, in non-decreasing order. */
  function SortStrings(xs: seq<string>): (r: seq<string>)
    ensures multiset(r) == multiset(xs)
    ensures Sorted(r)
  {
    if |xs| == 0 then []
    else
      assert xs == [xs[0]] + xs[1..];
      Insert(xs[0], SortStrings(xs[1..]))
  }

  /** `y` is below every element of `xs`. */
  predicate StrictLowerBound(y: string, xs: seq<string>)
  {
    forall i :: 0 <= i < |xs| ==> Lt(y, xs[i])
  }

  lemma StrictlySortedCons(y: string, xs: seq<string>)
    requires StrictlySorted(xs) && StrictLowerBound(y, xs)
    ensures StrictlySorted([y] + xs)
  {
    var s := [y] + xs;
    forall i, j | 0 <= i < j < |s| ensures Lt(s[i], s[j]) {
      if i > 0 { assert s[i] == xs[i - 1] && s[j] == xs[j - 1]; }
      else { assert s[j] == xs[j - 1]; }
    }
  }

  lemma StrictLowerBoundTransfer(y: string, xs: seq<string>, ys: seq<string>)
    requires StrictLowerBound(y, xs)
    requires forall z :: z in ys ==> z in xs
    ensures StrictLowerBound(y, ys)
  {
    forall i | 0 <= i < |ys| ensures Lt(y, ys[i]) {
      assert ys[i] in xs;
    }
  }

  /** Below the head of an increasing sequence means below all of it. */
  lemma BelowHead(x: string, xs: seq<string>)
    requires StrictlySorted(xs) && |xs| > 0
    requires Lt(x, xs[0])
    ensures StrictLowerBound(x, xs)
  {
    forall i | 0 < i < |xs| ensures Lt(x, xs[i]) {
      LeTransitive(x, xs[0], xs[i]);
      if x == xs[i] { LeAntisymmetric(x, xs[0]); }
    }
  }

  /** One step of insertion that drops a string already present. */
  function InsertNew(x: string, xs: seq<string>): (r: seq<string>)
    requires StrictlySorted(xs)
    ensures forall z :: z in r <==> z == x || z in xs
    ensures StrictlySorted(r)
  {
    if |xs| == 0 then [x]
    else if x == xs[0] then xs
    else if Le(x, xs[0]) then
      BelowHead(x, xs);
      StrictlySortedCons(x, xs);
      [x] + xs
    else
      LeTotal(x, xs[0]);
      var rest := InsertNew(x, xs[1..]);
      assert xs == [xs[0]] + xs[1..];
      assert StrictLowerBound(xs[0], xs[1..] + [x]);
      StrictLowerBoundTransfer(xs[0], xs[1..] + [x], rest);
      StrictlySortedCons(xs[0], rest);
      [xs[0]] + rest
  }

  /** `sorted(set(xs))`: every distinct string of `xs` once, in increasing order. */
  function SortUnique(xs: seq<string>): (r: seq<string>)
    ensures forall z :: z in r <==> z in xs
    ensures StrictlySorted(r)
  {
    if |xs| == 0 then []
    else
      assert xs == [xs[0]] + xs[1..];
      InsertNew(xs[0], SortUnique(xs[1..]))
  }

  lemma HeadIn(b: seq<string>)
    requires |b| > 0
    ensures b[0] in b
  {
  }

  /** An increasing sequence is fixed by its elements: `sorted` of a set does
      not depend on the order in which the set was built. */
  lemma {:induction false} StrictlySortedUnique(a: seq<string>, b: seq<string>)
    requires StrictlySorted(a) && StrictlySorted(b)
    requires forall z :: z in a <==> z in b
    ensures a == b
    decreases |a|
  {
    if |a| == 0 {
      if |b| > 0 {
        HeadIn(b);
        assert false;
      }
    } else {
      assert |b| > 0 by { assert a[0] in b; }
      assert a[0] == b[0] by {
        assert a[0] in b && b[0] in a;
        var i :| 0 <= i < |b| && b[i] == a[0];
        var j :| 0 <= j < |a| && a[j] == b[0];
        if i > 0 && j > 0 {
          assert Lt(a[0], a[j]) && Lt(b[0], b[i]);
          LeAntisymmetric(a[0], b[0]);
        }
      }
      forall z ensures z in a[1..] <==> z in b[1..] {
        if z in a[1..] {
          var i :| 0 <= i < |a[1..]| && a[1..][i] == z;
          assert Lt(a[0], a[i + 1]);
          assert z in b;
        }
        if z in b[1..] {
          var i :| 0 <= i < |b[1..]| && b[1..][i] == z;
          assert Lt(b[0], b[i + 1]);
          assert z in a;
        }
      }
      StrictlySortedUnique(a[1..], b[1..]);
      assert a == [a[0]] + a[1..] && b == [b[0]] + b[1..];
    }
  }
}
