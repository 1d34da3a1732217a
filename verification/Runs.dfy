/**
 * Runs of a deterministic machine over a finite sequence of events, and totals along a run.
 * Everything recurses on the last event, so a statement about a run is one about every prefix.
 */
module Runs {
  import opened RealMath
  import opened Sums

  /** The state after all of `es`. */
  function Run<S, E>(init: S, step: (S, E) -> S, es: seq<E>): S {
    if es == [] then init else step(Run(init, step, es[..|es| - 1]), es[|es| - 1])
  }

  /** Total of `v` over the steps of a run, each seen with the state it starts from. */
  function Total<S, E>(init: S, step: (S, E) -> S, es: seq<E>, v: (S, E) -> real): real {
    if es == [] then 0.0
    else
      var before := es[..|es| - 1];
      Total(init, step, before, v) + v(Run(init, step, before), es[|es| - 1])
  }

  /** If, in states an invariant allows, each step's `gain` is `a` plus the change of `worth`, so is every run's. */
  lemma {:induction false} Telescope<S(!new), E(!new)>(
    init: S, step: (S, E) -> S, es: seq<E>, inv: S -> bool, gain: (S, E) -> real, a: (S, E) -> real, worth: S -> real)
    requires inv(init)
    requires forall s, e :: inv(s) ==> inv(step(s, e)) && gain(s, e) == a(s, e) + worth(step(s, e)) - worth(s)
    ensures inv(Run(init, step, es))
    ensures Total(init, step, es, gain) == Total(init, step, es, a) + worth(Run(init, step, es)) - worth(init)
  {
    if es != [] {
      Telescope(init, step, es[..|es| - 1], inv, gain, a, worth);
    }
  }

  function Plus<S, E>(v: (S, E) -> real, w: (S, E) -> real): (S, E) -> real { (s, e) => v(s, e) + w(s, e) }

  function Scaled<S, E>(k: real, v: (S, E) -> real): (S, E) -> real { (s, e) => k * v(s, e) }

  lemma {:induction false} TotalPlus<S, E>(init: S, step: (S, E) -> S, es: seq<E>, v: (S, E) -> real, w: (S, E) -> real)
    ensures Total(init, step, es, Plus(v, w)) == Total(init, step, es, v) + Total(init, step, es, w)
  {
    if es != [] {
      TotalPlus(init, step, es[..|es| - 1], v, w);
    }
  }

  lemma {:induction false} TotalScaled<S, E>(init: S, step: (S, E) -> S, es: seq<E>, k: real, v: (S, E) -> real)
    ensures Total(init, step, es, Scaled(k, v)) == k * Total(init, step, es, v)
  {
    if es != [] {
      TotalScaled(init, step, es[..|es| - 1], k, v);
    }
  }

  /** If, in states an invariant allows, each step's value is `k * (f - c * q)`, so is the total of the totals. */
  lemma {:induction false} TotalLinear<S(!new), E(!new)>(
    init: S, step: (S, E) -> S, es: seq<E>, inv: S -> bool, v: (S, E) -> real,
    k: real, f: (S, E) -> real, c: real, q: (S, E) -> real)
    requires inv(init)
    requires forall s, e :: inv(s) ==> inv(step(s, e)) && IsLinear(v(s, e), k, f(s, e), c, q(s, e))
    ensures inv(Run(init, step, es))
    ensures IsLinear(Total(init, step, es, v), k, Total(init, step, es, f), c, Total(init, step, es, q))
  {
    if es != [] {
      var before, e := es[..|es| - 1], es[|es| - 1];
      var s := Run(init, step, before);
      TotalLinear(init, step, before, inv, v, k, f, c, q);
      LinearStep(Total(init, step, before, v), v(s, e), k, Total(init, step, before, f), f(s, e), c,
                 Total(init, step, before, q), q(s, e));
    }
  }

  /** A bound on each step's value is a bound on the total. */
  lemma {:induction false} TotalBounded<S, E>(
    init: S, step: (S, E) -> S, es: seq<E>, v: (S, E) -> real, c: (S, E) -> real)
    requires forall n :: 0 <= n < |es| ==>
               Abs(v(Run(init, step, es[..n]), es[n])) <= c(Run(init, step, es[..n]), es[n])
    ensures Abs(Total(init, step, es, v)) <= Total(init, step, es, c)
  {
    if es != [] {
      var before := es[..|es| - 1];
      assert forall n :: 0 <= n < |before| ==> before[..n] == es[..n];
      TotalBounded(init, step, before, v, c);
    }
  }

  /** Step `n`'s value is at most `k` times its count. */
  ghost predicate StepWithin<S, E>(
    init: S, step: (S, E) -> S, es: seq<E>, v: (S, E) -> real, k: real, c: (S, E) -> real, n: nat)
    requires n < |es|
  {
    var s := Run(init, step, es[..n]);
    Abs(v(s, es[n])) <= k * c(s, es[n])
  }

  ghost predicate TotalWithin<S, E>(
    init: S, step: (S, E) -> S, es: seq<E>, v: (S, E) -> real, k: real, c: (S, E) -> real)
  {
    Abs(Total(init, step, es, v)) <= k * Total(init, step, es, c)
  }

  /** Each step's value at most `k` times a count: the total is at most `k` times the total count. */
  lemma TotalBoundedBy<S, E>(
    init: S, step: (S, E) -> S, es: seq<E>, v: (S, E) -> real, k: real, c: (S, E) -> real)
    requires forall n :: 0 <= n < |es| ==> StepWithin(init, step, es, v, k, c, n)
    ensures TotalWithin(init, step, es, v, k, c)
  {
    forall n | 0 <= n < |es|
      ensures Abs(v(Run(init, step, es[..n]), es[n])) <= Scaled(k, c)(Run(init, step, es[..n]), es[n])
    {
      assert StepWithin(init, step, es, v, k, c, n);
    }
    TotalBounded(init, step, es, v, Scaled(k, c));
    TotalScaled(init, step, es, k, c);
  }

  /** Two values that agree on every step of a run have the same total. */
  lemma {:induction false} TotalCong<S, E>(
    init: S, step: (S, E) -> S, es: seq<E>, v: (S, E) -> real, w: (S, E) -> real)
    requires forall n :: 0 <= n < |es| ==> v(Run(init, step, es[..n]), es[n]) == w(Run(init, step, es[..n]), es[n])
    ensures Total(init, step, es, v) == Total(init, step, es, w)
  {
    if es != [] {
      var before := es[..|es| - 1];
      assert forall n :: 0 <= n < |before| ==> before[..n] == es[..n];
      TotalCong(init, step, before, v, w);
    }
  }

  lemma TotalZero<S, E>(init: S, step: (S, E) -> S, es: seq<E>, v: (S, E) -> real)
    requires forall n :: 0 <= n < |es| ==> v(Run(init, step, es[..n]), es[n]) == 0.0
    ensures Total(init, step, es, v) == 0.0
  {
    TotalZeroIff(init, step, es, v);
  }

  /** The total of a value that is never negative is zero exactly when every step's value is. */
  lemma {:induction false} TotalZeroIff<S, E>(init: S, step: (S, E) -> S, es: seq<E>, v: (S, E) -> real)
    requires forall n :: 0 <= n < |es| ==> v(Run(init, step, es[..n]), es[n]) >= 0.0
    ensures Total(init, step, es, v) >= 0.0
    ensures Total(init, step, es, v) == 0.0 <==>
            forall n :: 0 <= n < |es| ==> v(Run(init, step, es[..n]), es[n]) == 0.0
  {
    if es != [] {
      var before := es[..|es| - 1];
      assert forall n :: 0 <= n < |before| ==> before[..n] == es[..n];
      TotalZeroIff(init, step, before, v);
      assert forall n :: 0 <= n < |es| ==> n < |before| || es[..n] == before;
    }
  }

  /** A value that depends only on the event totals to its plain sum. */
  lemma {:induction false} TotalIsSum<S, E>(
    init: S, step: (S, E) -> S, es: seq<E>, v: (S, E) -> real, u: E -> real)
    requires forall n :: 0 <= n < |es| ==> v(Run(init, step, es[..n]), es[n]) == u(es[n])
    ensures Total(init, step, es, v) == Sum(es, u)
  {
    if es != [] {
      var before := es[..|es| - 1];
      assert forall n :: 0 <= n < |before| ==> before[..n] == es[..n];
      TotalIsSum(init, step, before, v, u);
      assert v(Run(init, step, es[..|es| - 1]), es[|es| - 1]) == u(es[|es| - 1]);
    }
  }

  /** Of the first `n` steps, one `did`, and it and all later ones `kept`. */
  ghost predicate Since(n: nat, did: int -> bool, kept: int -> bool) {
    exists w :: 0 <= w < n && did(w) && forall k :: w <= k < n ==> kept(k)
  }

  lemma SinceStep(n: nat, did: int -> bool, kept: int -> bool, did': int -> bool, kept': int -> bool)
    requires forall k :: 0 <= k < n ==> did(k) == did'(k) && kept(k) == kept'(k)
    ensures Since(n + 1, did', kept') <==> kept'(n) && (did'(n) || Since(n, did, kept))
  {
    if Since(n + 1, did', kept') {
      var w :| 0 <= w < n + 1 && did'(w) && forall k :: w <= k < n + 1 ==> kept'(k);
      assert w < n ==> did(w) && forall k :: w <= k < n ==> kept(k);
    }
    if kept'(n) && Since(n, did, kept) {
      var w :| 0 <= w < n && did(w) && forall k :: w <= k < n ==> kept(k);
      assert did'(w) && forall k :: w <= k < n + 1 ==> kept'(k);
    }
  }
}
