/** The one-pass maximum drawdown against its definition over all pairs of points. */
module Drawdown {
  /** The running return after the first `n` trades; `changes` are their fractional returns in exit order. */
  function Running(changes: seq<real>, n: nat): real
    requires n <= |changes|
  {
    if n == 0 then 0.0 else Running(changes, n - 1) + changes[n - 1]
  }

  /** The running return is `v` at point `i`, among the first `n`. */
  ghost predicate IsPoint(changes: seq<real>, n: nat, i: int, v: real)
    requires n <= |changes|
  {
    0 <= i <= n && Running(changes, i) == v
  }

  /** From point `i` to point `j` the running return falls by `d`. */
  ghost predicate IsFall(changes: seq<real>, n: nat, i: int, j: int, d: real)
    requires n <= |changes|
  {
    0 <= i <= j <= n && Running(changes, i) - Running(changes, j) == d
  }

  /** `d` is the largest fall of the running return from any point to a later one. */
  ghost predicate IsMaxDrawdown(changes: seq<real>, n: nat, d: real)
    requires n <= |changes|
  {
    && (forall i, j :: 0 <= i <= j <= n ==> Running(changes, i) - Running(changes, j) <= d)
    && (exists i, j :: IsFall(changes, n, i, j, d))
  }

  ghost predicate IsPeak(changes: seq<real>, n: nat, peak: real)
    requires n <= |changes|
  {
    && (forall i :: 0 <= i <= n ==> Running(changes, i) <= peak)
    && (exists i :: IsPoint(changes, n, i, peak))
  }

  /** Walks the closed trades in exit order, tracking the peak and the largest fall below it. */
  method MaxDrawdown(changes: seq<real>) returns (maxDrawdown: real)
    ensures IsMaxDrawdown(changes, |changes|, maxDrawdown)
    ensures maxDrawdown >= 0.0
  {
    var peak, runningReturn := 0.0, 0.0;
    maxDrawdown := 0.0;
    AtStart(changes);
    for n := 0 to |changes|
      invariant Tracks(changes, n, runningReturn, peak, maxDrawdown)
    {
      TrackStep(changes, n, runningReturn, peak, maxDrawdown);
      runningReturn := runningReturn + changes[n];
      if runningReturn > peak {
        peak := runningReturn;
      }
      var drawdown := peak - runningReturn;
      if drawdown > maxDrawdown {
        maxDrawdown := drawdown;
      }
    }
  }

  /** What the loop's three variables hold after `n` trades. */
  ghost predicate Tracks(changes: seq<real>, n: nat, running: real, peak: real, d: real)
    requires n <= |changes|
  {
    running == Running(changes, n) && IsPeak(changes, n, peak) && IsMaxDrawdown(changes, n, d) && d >= 0.0
  }

  lemma TrackStep(changes: seq<real>, n: nat, running: real, peak: real, d: real)
    requires n < |changes| && Tracks(changes, n, running, peak, d)
    ensures var running' := running + changes[n];
            var peak' := if running' > peak then running' else peak;
            var fall := peak' - running';
            Tracks(changes, n + 1, running', peak', if fall > d then fall else d)
  {
    PeakStep(changes, n, peak);
    var r := running + changes[n];
    assert r == Running(changes, n + 1);
    DrawdownStep(changes, n, if r > peak then r else peak, d);
  }

  lemma AtStart(changes: seq<real>)
    ensures Tracks(changes, 0, 0.0, 0.0, 0.0)
  {
    assert IsPoint(changes, 0, 0, 0.0) && IsFall(changes, 0, 0, 0, 0.0);
  }

  lemma PeakStep(changes: seq<real>, n: nat, peak: real)
    requires n < |changes| && IsPeak(changes, n, peak)
    ensures var r := Running(changes, n + 1); IsPeak(changes, n + 1, if r > peak then r else peak)
  {
    var i :| IsPoint(changes, n, i, peak);
    var r := Running(changes, n + 1);
    assert if r > peak then IsPoint(changes, n + 1, n + 1, r) else IsPoint(changes, n + 1, i, peak);
  }

  /** The largest fall up to a point is the largest before it, or the fall to it from the peak. */
  lemma DrawdownStep(changes: seq<real>, n: nat, peak: real, d: real)
    requires n < |changes| && IsPeak(changes, n + 1, peak) && IsMaxDrawdown(changes, n, d)
    ensures var fall := peak - Running(changes, n + 1); IsMaxDrawdown(changes, n + 1, if fall > d then fall else d)
  {
    var fall := peak - Running(changes, n + 1);
    var most := if fall > d then fall else d;
    FallsStayWithin(changes, n, peak, most);
    if fall > d {
      var k :| IsPoint(changes, n + 1, k, peak);
      assert IsFall(changes, n + 1, k, n + 1, most);
    } else {
      var i, j :| IsFall(changes, n, i, j, d);
      assert IsFall(changes, n + 1, i, j, most);
    }
  }

  lemma FallsStayWithin(changes: seq<real>, n: nat, peak: real, most: real)
    requires n < |changes| && peak - Running(changes, n + 1) <= most
    requires forall i :: 0 <= i <= n + 1 ==> Running(changes, i) <= peak
    requires forall i, j :: 0 <= i <= j <= n ==> Running(changes, i) - Running(changes, j) <= most
    ensures forall i, j :: 0 <= i <= j <= n + 1 ==> Running(changes, i) - Running(changes, j) <= most
  {
  }
}
