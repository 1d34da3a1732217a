/** Failure windows and the service mode. */
module Backoff {
  import opened Filters
  import Runs

  datatype Mode = Normal | Resyncing | InBackoff

  datatype Limits = Limits(window: real, trigger: int, duration: real)

  datatype Health = Health(failures: seq<real>, mode: Mode, until: real)

  const START := Health([], Normal, 0.0)

  /** Every step that reads or writes the failure list or the mode. */
  datatype Event =
    | Failure(t: real)
    | ResyncStart
    | ResyncDone
    | ResyncFailed(t: real)
    | Tick(t: real)

  function LaterThan(cutoff: real): real -> bool { t => t > cutoff }

  /** The entries after `cutoff`, in order. */
  function After(ts: seq<real>, cutoff: real): seq<real> { Filter(ts, LaterThan(cutoff)) }

  lemma AfterKeepsLater(ts: seq<real>, cutoff: real)
    ensures forall t :: multiset(After(ts, cutoff))[t] == if t > cutoff then multiset(ts)[t] else 0
  {
    forall t ensures multiset(After(ts, cutoff))[t] == if t > cutoff then multiset(ts)[t] else 0 {
      FilterKeepsAll(ts, LaterThan(cutoff), t);
    }
  }

  function RecordFailure(l: Limits, h: Health, now: real): Health {
    var recent := After(h.failures + [now], now - l.window);
    if |recent| >= l.trigger && h.mode != InBackoff then Health(recent, InBackoff, now + l.duration)
    else Health(recent, h.mode, h.until)
  }

  /** The mode part of a health tick. */
  function TickMode(h: Health, now: real): Mode {
    if h.until > now then InBackoff else if h.mode == InBackoff then Normal else h.mode
  }

  function Step(l: Limits, h: Health, e: Event): Health {
    match e
    case Failure(t) => RecordFailure(l, h, t)
    case ResyncStart => h.(mode := Resyncing)
    case ResyncDone => h.(mode := Normal)
    case ResyncFailed(t) => RecordFailure(l, h, t).(mode := Normal)
    case Tick(t) => h.(mode := TickMode(h, t))
  }

  function HealthAfter(l: Limits, es: seq<Event>): Health {
    Runs.Run(START, (h, e) => Step(l, h, e), es)
  }

  /** The event records a failure, reading the clock as it does. */
  predicate Fails(e: Event) { e.Failure? || e.ResyncFailed? }

  /**
   * Failures come in clock order, and no reading is before time zero. A tick reads the clock before it
   * waits for the store and changes the mode after, so its reading may be older than failures before it.
   */
  ghost predicate ClockOrdered(es: seq<Event>) {
    && (forall i :: 0 <= i < |es| && (Fails(es[i]) || es[i].Tick?) ==> es[i].t >= 0.0)
    && (forall i, j :: 0 <= i < j < |es| && Fails(es[i]) && Fails(es[j]) ==> es[i].t <= es[j].t)
  }

  /** The time of every failure of the run. */
  function FailureTimes(es: seq<Event>): seq<real> {
    if es == [] then []
    else
      var ts, e := FailureTimes(es[..|es| - 1]), es[|es| - 1];
      if Fails(e) then ts + [e.t] else ts
  }

  lemma {:induction false} FailureTimesAreEarlier(es: seq<Event>, t: real)
    requires forall i :: 0 <= i < |es| && Fails(es[i]) ==> es[i].t <= t
    ensures forall x :: x in FailureTimes(es) ==> x <= t
  {
    if es != [] {
      FailureTimesAreEarlier(es[..|es| - 1], t);
    }
  }

  /** The part of a history that the latest failure's pruning kept. */
  function Kept(all: seq<real>, window: real): seq<real> {
    if all == [] then [] else After(all, all[|all| - 1] - window)
  }

  /** Pruning the kept part at a later failure gives what pruning the whole history would. */
  lemma RestageWindow(all: seq<real>, window: real, now: real)
    requires all != [] ==> all[|all| - 1] <= now
    ensures After(Kept(all, window) + [now], now - window) == Kept(all + [now], window)
  {
    var keep := LaterThan(now - window);
    if all != [] {
      FilterStronger(all, LaterThan(all[|all| - 1] - window), keep);
    }
    SameAfterAppend(Kept(all, window), all, now, keep);
    KeptAppend(all, window, now);
  }

  lemma KeptAppend(all: seq<real>, window: real, now: real)
    ensures Kept(all + [now], window) == After(all + [now], now - window)
  {
    assert (all + [now])[|all|] == now;
  }

  lemma SameAfterAppend(a: seq<real>, b: seq<real>, x: real, keep: real -> bool)
    requires Filter(a, keep) == Filter(b, keep)
    ensures Filter(a + [x], keep) == Filter(b + [x], keep)
  {
    FilterAppend(a, x, keep);
    FilterAppend(b, x, keep);
  }

  /** The stored list is always what the full history holds inside the window of the latest failure. */
  lemma {:induction false} StoredFailuresAreWindowed(l: Limits, es: seq<Event>)
    requires ClockOrdered(es)
    ensures HealthAfter(l, es).failures == Kept(FailureTimes(es), l.window)
  {
    if es != [] {
      var before, e := es[..|es| - 1], es[|es| - 1];
      assert forall i :: 0 <= i < |before| ==> before[i] == es[i];
      StoredFailuresAreWindowed(l, before);
      FailuresAfterStep(l, HealthAfter(l, before), e);
      if Fails(e) {
        LatestIsEarlier(before, e.t);
        KeptStep(l, HealthAfter(l, before), FailureTimes(before), e);
      }
    }
  }

  lemma KeptStep(l: Limits, h: Health, all: seq<real>, e: Event)
    requires Fails(e)
    requires h.failures == Kept(all, l.window) && (all != [] ==> all[|all| - 1] <= e.t)
    ensures Step(l, h, e).failures == Kept(all + [e.t], l.window)
  {
    FailuresAfterStep(l, h, e);
    RestageWindow(all, l.window, e.t);
  }

  /** Only a failure touches the list. */
  lemma FailuresAfterStep(l: Limits, h: Health, e: Event)
    ensures Step(l, h, e).failures
            == if Fails(e) then After(h.failures + [e.t], e.t - l.window) else h.failures
  {
  }

  lemma LatestIsEarlier(before: seq<Event>, now: real)
    requires forall i :: 0 <= i < |before| && Fails(before[i]) ==> before[i].t <= now
    ensures var all := FailureTimes(before); all != [] ==> all[|all| - 1] <= now
  {
    FailureTimesAreEarlier(before, now);
    var all := FailureTimes(before);
    assert all != [] ==> all[|all| - 1] in all;
  }

  /**
   * A failure enters backoff exactly when the full history holds at least the trigger count inside the
   * window and the mode is not already backoff; backoff then lasts for the duration. The pruned list
   * holds exactly the failures of the whole history inside the window.
   */
  lemma BackoffEnteredIff(l: Limits, before: seq<Event>, now: real)
    requires ClockOrdered(before)
    requires forall i :: 0 <= i < |before| && Fails(before[i]) ==> before[i].t <= now
    ensures
      var h, h' := HealthAfter(l, before), RecordFailure(l, HealthAfter(l, before), now);
      var enters := |After(FailureTimes(before) + [now], now - l.window)| >= l.trigger && h.mode != InBackoff;
      && h'.failures == After(FailureTimes(before) + [now], now - l.window)
      && (forall t :: multiset(h'.failures)[t]
                      == if t > now - l.window then multiset(FailureTimes(before) + [now])[t] else 0)
      && h'.mode == (if enters then InBackoff else h.mode)
      && h'.until == (if enters then now + l.duration else h.until)
  {
    StoredFailuresAreWindowed(l, before);
    LatestIsEarlier(before, now);
    RestageWindow(FailureTimes(before), l.window, now);
    KeptAppend(FailureTimes(before), l.window, now);
    AfterKeepsLater(FailureTimes(before) + [now], now - l.window);
  }

  /** After a health tick the mode is backoff if and only if the backoff deadline lies beyond the tick. */
  lemma TickModeIff(l: Limits, es: seq<Event>)
    requires es != [] && es[|es| - 1].Tick?
    ensures HealthAfter(l, es).mode == InBackoff <==> HealthAfter(l, es).until > es[|es| - 1].t
  {
  }

  /** The event is a failure that enters backoff. */
  predicate EntersFrom(l: Limits, h: Health, e: Event) {
    Fails(e) && h.mode != InBackoff && |After(h.failures + [e.t], e.t - l.window)| >= l.trigger
  }

  predicate Enters(l: Limits, es: seq<Event>, k: nat)
    requires k < |es|
  {
    EntersFrom(l, HealthAfter(l, es[..k]), es[k])
  }

  /** Only an entry moves the deadline. */
  lemma DeadlineAfterStep(l: Limits, h: Health, e: Event)
    ensures Step(l, h, e).until == if EntersFrom(l, h, e) then e.t + l.duration else h.until
  {
  }

  lemma DeadlineStep(l: Limits, es: seq<Event>)
    requires es != []
    ensures var n := |es| - 1;
            HealthAfter(l, es).until
            == if Enters(l, es, n) then es[n].t + l.duration else HealthAfter(l, es[..n]).until
  {
    DeadlineAfterStep(l, HealthAfter(l, es[..|es| - 1]), es[|es| - 1]);
  }

  /** Conversely, a deadline after time zero was set by some entry. */
  lemma {:induction false} DeadlineHasEntry(l: Limits, es: seq<Event>)
    requires HealthAfter(l, es).until > 0.0
    ensures exists k :: 0 <= k < |es| && Enters(l, es, k) && HealthAfter(l, es).until == es[k].t + l.duration
  {
    var n := |es| - 1;
    DeadlineStep(l, es);
    if !Enters(l, es, n) {
      var before := es[..n];
      DeadlineHasEntry(l, before);
      var k :| 0 <= k < n && Enters(l, before, k) && HealthAfter(l, before).until == before[k].t + l.duration;
      EntersInPrefix(l, es, k);
    }
  }

  lemma EntersInPrefix(l: Limits, es: seq<Event>, k: nat)
    requires k < |es| - 1
    ensures Enters(l, es, k) <==> Enters(l, es[..|es| - 1], k)
  {
    assert es[..|es| - 1][..k] == es[..k];
  }

  /** The deadline covers the duration from every entry. */
  lemma {:induction false} DeadlineCovers(l: Limits, es: seq<Event>, k: nat)
    requires ClockOrdered(es) && k < |es| && Enters(l, es, k)
    ensures HealthAfter(l, es).until >= es[k].t + l.duration
  {
    var n := |es| - 1;
    DeadlineStep(l, es);
    if k < n {
      EntersInPrefix(l, es, k);
      DeadlineCovers(l, es[..n], k);
    }
  }

  /**
   * Once backoff is entered at time t, every health tick before t + duration leaves the mode at backoff,
   * whatever resyncs and failures happen in between.
   */
  lemma BackoffHolds(l: Limits, es: seq<Event>, k: nat)
    requires ClockOrdered(es) && k < |es| - 1 && Enters(l, es, k)
    requires es[|es| - 1].Tick? && es[|es| - 1].t < es[k].t + l.duration
    ensures HealthAfter(l, es).mode == InBackoff
  {
    DeadlineCovers(l, es, k);
    TickModeIff(l, es);
  }

  /** A tick finds backoff in force exactly when some entry is less than the duration ago. */
  lemma TickInBackoffIff(l: Limits, es: seq<Event>)
    requires ClockOrdered(es) && es != [] && es[|es| - 1].Tick?
    ensures HealthAfter(l, es).mode == InBackoff <==>
            exists k :: 0 <= k < |es| && Enters(l, es, k) && es[|es| - 1].t < es[k].t + l.duration
  {
    TickModeIff(l, es);
    if HealthAfter(l, es).mode == InBackoff {
      DeadlineHasEntry(l, es);
    }
    if k :| 0 <= k < |es| && Enters(l, es, k) && es[|es| - 1].t < es[k].t + l.duration {
      BackoffHolds(l, es, k);
    }
  }

  // ---------- The mode between ticks ----------

  /** Event `k` sets the mode to backoff: a plain failure that enters, or a tick before the deadline. */
  predicate Sets(l: Limits, es: seq<Event>, k: nat)
    requires k < |es|
  {
    SetsFrom(l, HealthAfter(l, es[..k]), es[k])
  }

  predicate SetsFrom(l: Limits, h: Health, e: Event) {
    (e.Failure? && EntersFrom(l, h, e)) || (e.Tick? && h.until > e.t)
  }

  /** A step of a resync: each of them overwrites the mode with another. */
  predicate Overwrites(e: Event) { e.ResyncStart? || e.ResyncDone? || e.ResyncFailed? }

  /** Event `k` takes the mode out of backoff: a step of a resync, or a tick at or after the deadline. */
  predicate Clears(l: Limits, es: seq<Event>, k: nat)
    requires k < |es|
  {
    ClearsFrom(HealthAfter(l, es[..k]), es[k])
  }

  predicate ClearsFrom(h: Health, e: Event) { Overwrites(e) || (e.Tick? && h.until <= e.t) }

  lemma ModeAfterStep(l: Limits, h: Health, e: Event)
    ensures Step(l, h, e).mode == InBackoff <==> !ClearsFrom(h, e) && (SetsFrom(l, h, e) || h.mode == InBackoff)
  {
  }

  /** Some event set the mode to backoff and no event since then took it out. */
  ghost predicate Latched(l: Limits, es: seq<Event>) {
    Runs.Since(|es|, k => 0 <= k < |es| && Sets(l, es, k), k => 0 <= k < |es| && !Clears(l, es, k))
  }

  /** Some event set the mode to backoff and no step of a resync came after it. */
  ghost predicate LatchedByResyncs(l: Limits, es: seq<Event>) {
    Runs.Since(|es|, k => 0 <= k < |es| && Sets(l, es, k), k => 0 <= k < |es| && !Overwrites(es[k]))
  }

  lemma LatchStep(l: Limits, es: seq<Event>)
    requires es != []
    ensures var n := |es| - 1;
            && (Latched(l, es) <==> !Clears(l, es, n) && (Sets(l, es, n) || Latched(l, es[..n])))
            && (LatchedByResyncs(l, es) <==> !Overwrites(es[n]) && (Sets(l, es, n) || LatchedByResyncs(l, es[..n])))
  {
    var n := |es| - 1;
    var before := es[..n];
    forall k | 0 <= k < n
      ensures Sets(l, before, k) == Sets(l, es, k) && Clears(l, before, k) == Clears(l, es, k)
      ensures Overwrites(before[k]) == Overwrites(es[k])
    {
      assert before[..k] == es[..k];
    }
    Runs.SinceStep(
      n,
      k => 0 <= k < |before| && Sets(l, before, k), k => 0 <= k < |before| && !Clears(l, before, k),
      k => 0 <= k < |es| && Sets(l, es, k), k => 0 <= k < |es| && !Clears(l, es, k));
    Runs.SinceStep(
      n,
      k => 0 <= k < |before| && Sets(l, before, k), k => 0 <= k < |before| && !Overwrites(before[k]),
      k => 0 <= k < |es| && Sets(l, es, k), k => 0 <= k < |es| && !Overwrites(es[k]));
  }

  /**
   * At any point of any run, whatever the clock does, the mode is backoff if and only if some event set it
   * and no later event was a step of a resync or a tick at or after the deadline.
   */
  lemma {:induction false} InBackoffIff(l: Limits, es: seq<Event>)
    ensures HealthAfter(l, es).mode == InBackoff <==> Latched(l, es)
  {
    if es != [] {
      var n := |es| - 1;
      InBackoffIff(l, es[..n]);
      LatchStep(l, es);
      ModeAfterStep(l, HealthAfter(l, es[..n]), es[n]);
    }
  }

  /**
   * While the deadline lies ahead of every tick so far, the mode is backoff if and only if no step of a
   * resync came after the latest event that set it.
   */
  lemma {:induction false} DeadlineAheadIff(l: Limits, es: seq<Event>, now: real)
    requires HealthAfter(l, es).until > now
    requires forall i :: 0 <= i < |es| && es[i].Tick? ==> es[i].t <= now
    ensures HealthAfter(l, es).mode == InBackoff <==> LatchedByResyncs(l, es)
  {
    if es != [] {
      var n := |es| - 1;
      var before := es[..n];
      LatchStep(l, es);
      DeadlineStep(l, es);
      ModeAfterStep(l, HealthAfter(l, before), es[n]);
      if !Overwrites(es[n]) && !Sets(l, es, n) {
        assert forall i :: 0 <= i < |before| ==> before[i] == es[i];
        DeadlineAheadIff(l, before, now);
      }
    }
  }

  /** A failure that enters backoff, then a resync: the deadline lies ahead and the mode is not backoff. */
  lemma ResyncHidesBackoff()
    ensures var h := HealthAfter(Limits(10.0, 1, 60.0), [Failure(5.0), ResyncStart]);
            h.until == 65.0 && h.mode != InBackoff
  {
    var l, es := Limits(10.0, 1, 60.0), [Failure(5.0), ResyncStart];
    assert es[..1] == [Failure(5.0)] && es[..1][..0] == [];
    FilterAppend([], 5.0, LaterThan(-5.0));
    assert [] + [5.0] == [5.0];
    assert HealthAfter(l, es[..1][..0]) == START;
    assert HealthAfter(l, es[..1]) == Health([5.0], InBackoff, 65.0);
  }

  /** Event `k` takes the mode out of resyncing: the resync's end, an entry, or a tick before the deadline. */
  predicate Interrupts(l: Limits, es: seq<Event>, k: nat)
    requires k < |es|
  {
    InterruptsFrom(l, HealthAfter(l, es[..k]), es[k])
  }

  predicate InterruptsFrom(l: Limits, h: Health, e: Event) {
    || e.ResyncDone? || e.ResyncFailed?
    || (e.Failure? && EntersFrom(l, h, e))
    || (e.Tick? && e.t < h.until)
  }

  /** A resync started and nothing has interrupted it since. */
  ghost predicate UnderWay(l: Limits, es: seq<Event>) {
    Runs.Since(|es|, k => 0 <= k < |es| && es[k].ResyncStart?, k => 0 <= k < |es| && !Interrupts(l, es, k))
  }

  lemma UnderWayStep(l: Limits, es: seq<Event>)
    requires es != []
    ensures var n := |es| - 1;
            UnderWay(l, es) <==> !Interrupts(l, es, n) && (es[n].ResyncStart? || UnderWay(l, es[..n]))
  {
    var n := |es| - 1;
    var before := es[..n];
    forall k | 0 <= k < n
      ensures Interrupts(l, before, k) == Interrupts(l, es, k) && before[k] == es[k]
    {
      assert before[..k] == es[..k];
    }
    Runs.SinceStep(
      n,
      k => 0 <= k < |before| && before[k].ResyncStart?, k => 0 <= k < |before| && !Interrupts(l, before, k),
      k => 0 <= k < |es| && es[k].ResyncStart?, k => 0 <= k < |es| && !Interrupts(l, es, k));
  }

  /**
   * At any point of any run the mode is resyncing if and only if some resync started and, since then, none
   * ended, no failure entered backoff and no tick came before the deadline. With the condition for backoff
   * this decides all three modes.
   */
  lemma {:induction false} ResyncingIff(l: Limits, es: seq<Event>)
    ensures HealthAfter(l, es).mode == Resyncing <==> UnderWay(l, es)
  {
    if es != [] {
      var n := |es| - 1;
      ResyncingIff(l, es[..n]);
      UnderWayStep(l, es);
      ResyncingAfterStep(l, HealthAfter(l, es[..n]), es[n]);
    }
  }

  lemma ResyncingAfterStep(l: Limits, h: Health, e: Event)
    ensures Step(l, h, e).mode == Resyncing
            <==> !InterruptsFrom(l, h, e) && (e.ResyncStart? || h.mode == Resyncing)
  {
  }
}
