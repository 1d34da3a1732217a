/** Finite sums of reals over sequences, recursing on the last element so that they follow loops and runs. */
module Sums {
  function Sum<T>(s: seq<T>, f: T -> real): real {
    if s == [] then 0.0 else Sum(s[..|s| - 1], f) + f(s[|s| - 1])
  }

  ghost predicate Distinct<T>(s: seq<T>) {
    forall i, j :: 0 <= i < j < |s| ==> s[i] != s[j]
  }

  lemma SumAppend<T>(s: seq<T>, x: T, f: T -> real)
    ensures Sum(s + [x], f) == Sum(s, f) + f(x)
  {
    assert (s + [x])[..|s|] == s;
  }

  lemma {:induction false} SumCong<T>(s: seq<T>, f: T -> real, g: T -> real)
    requires forall x :: x in s ==> f(x) == g(x)
    ensures Sum(s, f) == Sum(s, g)
  {
    if s != [] {
      SumCong(s[..|s| - 1], f, g);
    }
  }

  lemma {:induction false} SumNonNegative<T>(s: seq<T>, f: T -> real)
    requires forall x :: x in s ==> f(x) >= 0.0
    ensures Sum(s, f) >= 0.0
  {
    if s != [] {
      SumNonNegative(s[..|s| - 1], f);
    }
  }

  /** Changing a summand at one place of a duplicate-free sequence moves the sum by that change. */
  lemma {:induction false} SumChangedOnce<T>(s: seq<T>, x: T, f: T -> real, g: T -> real)
    requires x in s
    requires Distinct(s)
    requires forall y :: y in s && y != x ==> f(y) == g(y)
    ensures Sum(s, g) == Sum(s, f) + g(x) - f(x)
  {
    var n := |s| - 1;
    if s[n] == x {
      assert forall i :: 0 <= i < n ==> s[i] != x;
      SumCong(s[..n], f, g);
    } else {
      SumChangedOnce(s[..n], x, f, g);
    }
  }
}
