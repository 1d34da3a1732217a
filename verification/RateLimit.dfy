/**
 * The sliding-window rate limiter: per key, the times of admitted requests, pruned on each request and
 * stored again only when the request is admitted. Times are milliseconds.
 */
module RateLimit {
  import opened Filters

  datatype Policy = Policy(windowMs: nat, maxRequests: nat)

  datatype Decision = Admitted | Refused(retryAfter: int)

  function LaterThan(cutoff: int): int -> bool { t => t > cutoff }

  /** The entries after `cutoff`, in order. */
  function Recent(ts: seq<int>, cutoff: int): seq<int> { Filter(ts, LaterThan(cutoff)) }

  /** Rounds a number of milliseconds up to whole seconds. */
  function CeilSeconds(ms: int): int { (ms + 999) / 1000 }

  /** The decision, given the admissions still in the window. */
  function DecideOn(p: Policy, recent: seq<int>, now: int): Decision {
    if |recent| < p.maxRequests then Admitted
    else Refused(CeilSeconds(if recent != [] then recent[0] + p.windowMs - now else p.windowMs))
  }

  function Decide(p: Policy, stored: seq<int>, now: int): Decision {
    DecideOn(p, Recent(stored, now - p.windowMs), now)
  }

  /** The list stored after a request: a refusal stores nothing. */
  function StoredAfter(p: Policy, stored: seq<int>, now: int): seq<int> {
    if Decide(p, stored, now).Admitted? then Recent(stored, now - p.windowMs) + [now] else stored
  }

  class Limiter {
    const policy: Policy
    var store: map<string, seq<int>>

    constructor (policy: Policy)
      ensures this.policy == policy && store == map[]
    {
      this.policy, store := policy, map[];
    }

    function StoredFor(key: string): seq<int>
      reads this
    {
      if key in store then store[key] else []
    }

    /** Handles one request: prunes the key's list, refuses at the limit, and otherwise records it. */
    method Handle(key: string, now: int) returns (d: Decision)
      modifies this
      ensures d == Decide(policy, old(StoredFor(key)), now)
      ensures StoredFor(key) == StoredAfter(policy, old(StoredFor(key)), now)
      ensures forall other :: other != key ==> StoredFor(other) == old(StoredFor(other))
      ensures d.Refused? ==> store == old(store)
    {
      var windowStart := now - policy.windowMs;
      var userRequests := if key in store then store[key] else [];
      userRequests := Prune(userRequests, windowStart);
      if |userRequests| >= policy.maxRequests {
        var retryAfter := if |userRequests| > 0 then CeilSeconds(userRequests[0] + policy.windowMs - now)
                          else CeilSeconds(policy.windowMs);
        return Refused(retryAfter);
      }
      userRequests := userRequests + [now];
      store := store[key := userRequests];
      d := Admitted;
    }

    /** Keeps the entries after `cutoff`. */
    static method Prune(ts: seq<int>, cutoff: int) returns (kept: seq<int>)
      ensures kept == Recent(ts, cutoff)
      ensures forall t :: multiset(kept)[t] == if t > cutoff then multiset(ts)[t] else 0
    {
      kept := [];
      for n := 0 to |ts|
        invariant kept == Recent(ts[..n], cutoff)
      {
        assert ts[..n + 1] == ts[..n] + [ts[n]];
        FilterAppend(ts[..n], ts[n], LaterThan(cutoff));
        if ts[n] > cutoff {
          kept := kept + [ts[n]];
        }
      }
      assert ts[..|ts|] == ts;
      forall t ensures multiset(kept)[t] == if t > cutoff then multiset(ts)[t] else 0 {
        FilterKeepsAll(ts, LaterThan(cutoff), t);
      }
    }
  }

  // ---------- One key's requests over a whole run ----------

  /** The list stored for a key after requests at `ts`. */
  function StoredAt(p: Policy, ts: seq<int>): seq<int> {
    if ts == [] then [] else StoredAfter(p, StoredAt(p, ts[..|ts| - 1]), ts[|ts| - 1])
  }

  /** The decision on the last of the requests at `ts`. */
  function LastDecision(p: Policy, ts: seq<int>): Decision
    requires ts != []
  {
    Decide(p, StoredAt(p, ts[..|ts| - 1]), ts[|ts| - 1])
  }

  /** The full admission history. */
  function Admissions(p: Policy, ts: seq<int>): seq<int> {
    if ts == [] then []
    else
      var before := Admissions(p, ts[..|ts| - 1]);
      if LastDecision(p, ts).Admitted? then before + [ts[|ts| - 1]] else before
  }

  ghost predicate Ordered(ts: seq<int>) { forall i, j :: 0 <= i < j < |ts| ==> ts[i] <= ts[j] }

  lemma {:induction false} RecentIsOrdered(ts: seq<int>, cutoff: int)
    requires Ordered(ts)
    ensures Ordered(Recent(ts, cutoff))
  {
    if ts != [] {
      var before, last := ts[..|ts| - 1], ts[|ts| - 1];
      RecentIsOrdered(before, cutoff);
      FilterMembers(before, LaterThan(cutoff));
      var kept := Recent(before, cutoff);
      assert forall i :: 0 <= i < |kept| ==> kept[i] in kept;
      assert forall x :: x in before ==> x <= last;
    }
  }

  /** No entry lies after `now`. */
  ghost predicate Past(ts: seq<int>, now: int) { forall i :: 0 <= i < |ts| ==> ts[i] <= now }

  lemma {:induction false} HistoryIsPast(p: Policy, ts: seq<int>, now: int)
    requires Past(ts, now)
    ensures Past(Admissions(p, ts), now)
  {
    if ts != [] {
      HistoryIsPast(p, ts[..|ts| - 1], now);
    }
  }

  lemma {:induction false} HistoryIsOrdered(p: Policy, ts: seq<int>)
    requires Ordered(ts)
    ensures Ordered(Admissions(p, ts))
  {
    if ts != [] {
      var before, now := ts[..|ts| - 1], ts[|ts| - 1];
      HistoryIsOrdered(p, before);
      HistoryIsPast(p, before, now);
    }
  }

  /** `stored` holds no more than the maximum, and from `cutoff` on it is all that `history` holds. */
  ghost predicate Agrees(p: Policy, stored: seq<int>, history: seq<int>, cutoff: int) {
    |stored| <= p.maxRequests && Recent(stored, cutoff) == Recent(history, cutoff)
  }

  lemma AgreesStep(p: Policy, stored: seq<int>, history: seq<int>, now: int, cutoff: int)
    requires Agrees(p, stored, history, cutoff) && now - p.windowMs <= cutoff
    ensures var admitted := Decide(p, stored, now).Admitted?;
            Agrees(p, StoredAfter(p, stored, now), if admitted then history + [now] else history, cutoff)
  {
    if Decide(p, stored, now).Admitted? {
      var early := now - p.windowMs;
      FilterAppend(Recent(stored, early), now, LaterThan(cutoff));
      FilterStronger(stored, LaterThan(early), LaterThan(cutoff));
      FilterAppend(history, now, LaterThan(cutoff));
    }
  }

  /** Pruning the stored list now or later gives what pruning the full history would. */
  lemma {:induction false} StoredAgreesWithHistory(p: Policy, ts: seq<int>, cutoff: int)
    requires Ordered(ts) && (ts != [] ==> ts[|ts| - 1] - p.windowMs <= cutoff)
    ensures Agrees(p, StoredAt(p, ts), Admissions(p, ts), cutoff)
  {
    if ts != [] {
      var before, now := ts[..|ts| - 1], ts[|ts| - 1];
      assert before != [] ==> before[|before| - 1] == ts[|before| - 1] <= now;
      StoredAgreesWithHistory(p, before, cutoff);
      AgreesStep(p, StoredAt(p, before), Admissions(p, before), now, cutoff);
    }
  }

  /**
   * The decision on `stored` is what the full history decides: refused exactly when the window of the
   * history holds the maximum (it never holds more), with the delay of the oldest admission in it.
   */
  ghost predicate DecidedByHistory(p: Policy, stored: seq<int>, history: seq<int>, now: int) {
    var counted := Recent(history, now - p.windowMs);
    && |counted| <= p.maxRequests
    && (Decide(p, stored, now).Refused? <==> |counted| == p.maxRequests)
    && Decide(p, stored, now) == DecideOn(p, counted, now)
  }

  lemma AgreeingDecides(p: Policy, stored: seq<int>, history: seq<int>, now: int)
    requires Agrees(p, stored, history, now - p.windowMs)
    ensures DecidedByHistory(p, stored, history, now)
  {
    FilterNoLonger(stored, LaterThan(now - p.windowMs));
  }

  /** A request is refused exactly when the full admission history fills its window. */
  lemma RefusedIffHistoryFull(p: Policy, before: seq<int>, now: int)
    requires Ordered(before) && Past(before, now)
    ensures DecidedByHistory(p, StoredAt(p, before), Admissions(p, before), now)
  {
    StoredAgreesWithHistory(p, before, now - p.windowMs);
    AgreeingDecides(p, StoredAt(p, before), Admissions(p, before), now);
  }

  /** The admissions in [from, to). */
  function Span(ts: seq<int>, from: int, to: int): nat {
    if ts == [] then 0
    else Span(ts[..|ts| - 1], from, to) + if from <= ts[|ts| - 1] < to then 1 else 0
  }

  lemma {:induction false} SpanAtMostRecent(ts: seq<int>, from: int, to: int, cutoff: int)
    requires cutoff < from
    ensures Span(ts, from, to) <= |Recent(ts, cutoff)|
  {
    if ts != [] {
      var before, last := ts[..|ts| - 1], ts[|ts| - 1];
      SpanAtMostRecent(before, from, to, cutoff);
    }
  }

  /** Every half-open interval of the window's length holds at most maxRequests admissions. */
  lemma {:induction false} EveryWindowIsBounded(p: Policy, ts: seq<int>, from: int)
    requires Ordered(ts)
    ensures Span(Admissions(p, ts), from, from + p.windowMs) <= p.maxRequests
  {
    if ts != [] {
      var before, now := ts[..|ts| - 1], ts[|ts| - 1];
      EveryWindowIsBounded(p, before, from);
      if LastDecision(p, ts).Admitted? {
        var history := Admissions(p, before);
        assert (history + [now])[..|history|] == history;
        RefusedIffHistoryFull(p, before, now);
        assert |Recent(history, now - p.windowMs)| < p.maxRequests;
        if from <= now < from + p.windowMs {
          SpanAtMostRecent(history, from, from + p.windowMs, now - p.windowMs);
        }
      }
    }
  }

  /**
   * After a refusal at `now` on `stored`, a request at `later` is admitted exactly when the oldest
   * admission counted against the refusal has left the window; and the retryAfter answered is that delay
   * rounded up to whole seconds, so waiting that long is enough.
   */
  ghost predicate RetryIsExact(
    p: Policy, stored: seq<int>, history: seq<int>, now: int, storedLater: seq<int>, later: int)
    requires Decide(p, stored, now).Refused?
  {
    var counted := Recent(history, now - p.windowMs);
    counted != [] &&
    var wait := counted[0] + p.windowMs - now;
    var retryAfter := Decide(p, stored, now).retryAfter;
    && (Decide(p, storedLater, later).Admitted? <==> later >= now + wait)
    && 1000 * (retryAfter - 1) < wait <= 1000 * retryAfter
    && (later >= now + 1000 * retryAfter ==> Decide(p, storedLater, later).Admitted?)
  }

  /** With a positive maximum, and no admission in between, the retry delay is exact. */
  lemma RetryAfterIsExact(p: Policy, before: seq<int>, now: int, between: seq<int>, later: int)
    requires p.maxRequests >= 1
    requires Ordered(before + between) && Past(before, now)
    requires now <= later && Past(before + between, later)
    requires Decide(p, StoredAt(p, before), now).Refused?
    requires Admissions(p, before + between) == Admissions(p, before)
    ensures RetryIsExact(p, StoredAt(p, before), Admissions(p, before), now, StoredAt(p, before + between), later)
  {
    assert Ordered(before) by {
      assert forall i :: 0 <= i < |before| ==> (before + between)[i] == before[i];
    }
    RefusedIffHistoryFull(p, before, now);
    RefusedIffHistoryFull(p, before + between, later);
    HistoryIsOrdered(p, before);
    RetryFromHistory(p, StoredAt(p, before), Admissions(p, before), now, StoredAt(p, before + between), later);
  }

  lemma RetryFromHistory(
    p: Policy, stored: seq<int>, history: seq<int>, now: int, storedLater: seq<int>, later: int)
    requires p.maxRequests >= 1 && now <= later && Ordered(history)
    requires DecidedByHistory(p, stored, history, now) && DecidedByHistory(p, storedLater, history, later)
    requires Decide(p, stored, now).Refused?
    ensures RetryIsExact(p, stored, history, now, storedLater, later)
  {
    OldestDecides(history, now - p.windowMs, later - p.windowMs);
    RetryOn(p, Recent(history, now - p.windowMs), Recent(history, later - p.windowMs), now, later);
  }

  /** The retry delay, given what counts now and what still counts later. */
  lemma RetryOn(p: Policy, counted: seq<int>, still: seq<int>, now: int, later: int)
    requires 1 <= p.maxRequests == |counted| && |still| <= p.maxRequests
    requires |still| < |counted| <==> later - p.windowMs >= counted[0]
    ensures
      var wait := counted[0] + p.windowMs - now;
      var retryAfter := DecideOn(p, counted, now).retryAfter;
      && (DecideOn(p, still, later).Admitted? <==> later >= now + wait)
      && 1000 * (retryAfter - 1) < wait <= 1000 * retryAfter
  {
  }

  /** A later cutoff drops something from an ordered list exactly when it drops the first entry. */
  lemma OldestDecides(ts: seq<int>, early: int, late: int)
    requires Ordered(ts) && early <= late && Recent(ts, early) != []
    ensures |Recent(ts, late)| < |Recent(ts, early)| <==> late >= Recent(ts, early)[0]
    ensures |Recent(ts, late)| <= |Recent(ts, early)|
  {
    RecentIsOrdered(ts, early);
    FilterStronger(ts, LaterThan(early), LaterThan(late));
    FirstDecides(Recent(ts, early), late);
  }

  lemma FirstDecides(r: seq<int>, late: int)
    requires Ordered(r) && r != []
    ensures |Recent(r, late)| < |r| <==> late >= r[0]
    ensures |Recent(r, late)| <= |r|
  {
    FilterAllIff(r, LaterThan(late));
    assert r[0] in r && forall x :: x in r ==> r[0] <= x;
  }

  /** With a maximum of zero every request is refused, with the whole window, rounded up, as the delay. */
  lemma {:induction false} ZeroMaximumRefusesAll(p: Policy, ts: seq<int>)
    requires p.maxRequests == 0
    ensures StoredAt(p, ts) == []
    ensures ts != [] ==>
              && LastDecision(p, ts).Refused?
              && 1000 * (LastDecision(p, ts).retryAfter - 1) < p.windowMs <= 1000 * LastDecision(p, ts).retryAfter
  {
    if ts != [] {
      ZeroMaximumRefusesAll(p, ts[..|ts| - 1]);
    }
  }
}
