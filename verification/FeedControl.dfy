/** One symbol's feed: stale deltas, the crossed streak, and resync requests with their cooldown. */
module FeedControl {
  import opened Wrappers
  import opened OrderBook
  import Runs

  datatype Streak = Streak(count: nat, lastTs: real)

  datatype Config = Config(window: real, threshold: int, cooldown: real, maxAge: real, topN: nat)

  datatype Feed = Feed(book: Book, streak: Option<Streak>, lastResync: Option<real>)

  const START := Feed(EMPTY, None, None)

  /** An update, its age if the exchange stamped it, and the two clock readings taken while handling it. */
  datatype Event = Event(update: Update, ageSec: Option<real>, mergedAt: real, checkedAt: real)

  predicate Stale(c: Config, e: Event) {
    e.update.kind.Delta? && e.ageSec.Some? && c.maxAge > 0.0 && e.ageSec.value > c.maxAge
  }

  /** A crossing candidate whose best ask is zero: measuring its spread divides by zero, and the merge raises. */
  predicate Raises(candidate: Book) { Crossed(candidate) && Best(Ask, candidate.asks) == 0.0 }

  /** The merge raises if and only if zero is the lowest ask and some bid is above it. */
  lemma RaisesIff(candidate: Book)
    ensures Raises(candidate) <==> IsLowest(candidate.asks, 0.0) && exists p :: p in candidate.bids && p > 0.0
  {
    CrossedIff(candidate);
    if candidate.asks != map[] {
      BestIsExtreme(candidate.asks);
    }
  }

  /** The update reaches the end of the merge: it is not stale and does not make it raise. */
  predicate Handled(c: Config, f: Feed, e: Event) { !Stale(c, e) && !Raises(Apply(f.book, e.update)) }

  function CountAfter(c: Config, streak: Option<Streak>, now: real): nat {
    if streak.None? || now - streak.value.lastTs > c.window then 1 else streak.value.count + 1
  }

  /** The streak grows on a crossed candidate and is dropped on a one-sided one; a healthy one leaves it. */
  function StreakAfter(c: Config, streak: Option<Streak>, candidate: Book, now: real): Option<Streak> {
    if !TwoSided(candidate) then None
    else if Crossed(candidate) then Some(Streak(CountAfter(c, streak, now), now))
    else streak
  }

  /** The merge marks the symbol for a resync. */
  predicate MarksResync(c: Config, streak: Option<Streak>, candidate: Book, now: real) {
    Crossed(candidate) && CountAfter(c, streak, now) >= c.threshold
  }

  predicate CooledDown(c: Config, lastResync: Option<real>, now: real) {
    now - (if lastResync.Some? then lastResync.value else 0.0) >= c.cooldown
  }

  predicate Requests(c: Config, f: Feed, e: Event) {
    && Handled(c, f, e)
    && MarksResync(c, f.streak, Apply(f.book, e.update), e.mergedAt)
    && CooledDown(c, f.lastResync, e.checkedAt)
  }

  /** An update that is stale or makes the merge raise leaves the feed as it was. */
  function FeedAfter(c: Config, f: Feed, e: Event): Feed {
    if !Handled(c, f, e) then f
    else Feed(Merge(f.book, e.update),
              StreakAfter(c, f.streak, Apply(f.book, e.update), e.mergedAt),
              if Requests(c, f, e) then Some(e.checkedAt) else f.lastResync)
  }

  function FeedRun(c: Config, es: seq<Event>): Feed {
    Runs.Run(START, (f, e) => FeedAfter(c, f, e), es)
  }

  // ---------- The book of a feed ----------

  function UpdatesOf(c: Config, es: seq<Event>): seq<Update> {
    if es == [] then []
    else
      var us, e := UpdatesOf(c, es[..|es| - 1]), es[|es| - 1];
      if Stale(c, e) then us else us + [e.update]
  }

  /**
   * A feed's book is the merge of its updates that were not stale: stale deltas leave no trace, and an update
   * that makes the merge raise is one that crosses, which the merge would have dropped.
   */
  lemma {:induction false} BookOfFeed(c: Config, es: seq<Event>)
    ensures FeedRun(c, es).book == BookAfter(UpdatesOf(c, es))
  {
    if es != [] {
      var before, e := es[..|es| - 1], es[|es| - 1];
      BookOfFeed(c, before);
      var us := UpdatesOf(c, before);
      if !Stale(c, e) {
        assert (us + [e.update])[..|us|] == us;
        ReachableBooksAreGood(us);
        if Raises(Apply(BookAfter(us), e.update)) {
          CrossingUpdateIsHeld(BookAfter(us), e.update);
        }
      }
    }
  }

  // ---------- The crossed streak ----------

  function CandidateOf(c: Config, es: seq<Event>): Book
    requires es != []
  {
    Apply(FeedRun(c, es[..|es| - 1]).book, es[|es| - 1].update)
  }

  /** The last update of the run reaches the end of the merge. */
  predicate LastHandled(c: Config, es: seq<Event>)
    requires es != []
  {
    Handled(c, FeedRun(c, es[..|es| - 1]), es[|es| - 1])
  }

  /** The times of the crossed updates since the last one that left a side empty. */
  function CrossTimes(c: Config, es: seq<Event>): seq<real> {
    if es == [] then []
    else
      var before, e := CrossTimes(c, es[..|es| - 1]), es[|es| - 1];
      if !LastHandled(c, es) then before
      else if !TwoSided(CandidateOf(c, es)) then []
      else if Crossed(CandidateOf(c, es)) then before + [e.mergedAt]
      else before
  }

  /** The last `k` times have consecutive gaps within `window`. */
  ghost predicate GapsWithin(ts: seq<real>, k: nat, window: real) {
    k <= |ts| && forall i :: |ts| - k < i < |ts| ==> ts[i] - ts[i - 1] <= window
  }

  /** `k` is the length of the longest such run ending at the last time. */
  ghost predicate LongestRun(ts: seq<real>, k: nat, window: real) {
    1 <= k <= |ts| && GapsWithin(ts, k, window) && forall j :: k < j <= |ts| ==> !GapsWithin(ts, j, window)
  }

  lemma RunStep(ts: seq<real>, k: nat, window: real, t: real)
    requires LongestRun(ts, k, window)
    ensures LongestRun(ts + [t], if t - ts[|ts| - 1] > window then 1 else k + 1, window)
  {
    if t - ts[|ts| - 1] > window {
      BrokenByLast(ts, t, window);
    } else {
      GapsAppend(ts, k, window, t);
      forall j | k + 1 < j <= |ts| + 1 ensures !GapsWithin(ts + [t], j, window) {
        GapsAppend(ts, j - 1, window, t);
      }
    }
  }

  lemma BrokenByLast(ts: seq<real>, t: real, window: real)
    requires ts != [] && t - ts[|ts| - 1] > window
    ensures LongestRun(ts + [t], 1, window)
  {
    var ts' := ts + [t];
    assert ts'[|ts|] - ts'[|ts| - 1] > window;
  }

  /** Appending a time within the window lengthens a run by one. */
  lemma GapsAppend(ts: seq<real>, k: nat, window: real, t: real)
    requires 1 <= k <= |ts| && t - ts[|ts| - 1] <= window
    ensures GapsWithin(ts + [t], k + 1, window) <==> GapsWithin(ts, k, window)
  {
    var ts' := ts + [t];
    assert forall i :: 0 <= i < |ts| ==> ts'[i] == ts[i];
    if GapsWithin(ts', k + 1, window) {
      forall i | |ts| - k < i < |ts| ensures ts[i] - ts[i - 1] <= window {
        assert ts'[i] - ts'[i - 1] <= window;
      }
    }
  }

  /** There is a streak exactly when there are crossings; it counts their longest run and dates the last. */
  ghost predicate StreakMatches(c: Config, streak: Option<Streak>, ts: seq<real>) {
    && (streak.None? <==> ts == [])
    && (streak.Some? ==> LongestRun(ts, streak.value.count, c.window) && streak.value.lastTs == ts[|ts| - 1])
  }

  lemma CrossStep(c: Config, streak: Option<Streak>, ts: seq<real>, now: real)
    requires StreakMatches(c, streak, ts)
    ensures StreakMatches(c, Some(Streak(CountAfter(c, streak, now), now)), ts + [now])
  {
    if streak.Some? {
      RunStep(ts, streak.value.count, c.window, now);
    }
  }

  /**
   * The count is the length of the longest run of crossed updates ending now whose consecutive gaps
   * are within the window and which no one-sided merge interrupts. Updates that make the merge raise do
   * not count and do not interrupt.
   */
  lemma {:induction false} StreakIsLongestRun(c: Config, es: seq<Event>)
    ensures StreakMatches(c, FeedRun(c, es).streak, CrossTimes(c, es))
  {
    if es != [] {
      var before, e := es[..|es| - 1], es[|es| - 1];
      StreakIsLongestRun(c, before);
      CrossStep(c, FeedRun(c, before).streak, CrossTimes(c, before), e.mergedAt);
    }
  }

  /** A streak is dropped by a one-sided candidate, and by nothing else. */
  lemma StreakDroppedIff(c: Config, streak: Option<Streak>, candidate: Book, now: real)
    requires streak.Some?
    ensures StreakAfter(c, streak, candidate, now).None? <==> !TwoSided(candidate)
  {
  }

  /** A healthy update after a crossing one leaves the streak standing. */
  lemma HealthyUpdateKeepsStreak(c: Config)
    requires c.threshold > 1
    ensures
      var seed := Event(Update(Snapshot, [Level(100.0, 1.0)], [Level(101.0, 1.0)]), None, 1.0, 1.0);
      var crossing := Event(Update(Delta, [Level(102.0, 1.0)], []), None, 2.0, 2.0);
      var healthy := Event(Update(Delta, [Level(99.5, 1.0)], []), None, 3.0, 3.0);
      FeedRun(c, [seed, crossing, healthy]).streak == Some(Streak(1, 2.0))
  {
    var seed := Event(Update(Snapshot, [Level(100.0, 1.0)], [Level(101.0, 1.0)]), None, 1.0, 1.0);
    var crossing := Event(Update(Delta, [Level(102.0, 1.0)], []), None, 2.0, 2.0);
    var healthy := Event(Update(Delta, [Level(99.5, 1.0)], []), None, 3.0, 3.0);
    var es := [seed, crossing, healthy];
    assert es[..2] == [seed, crossing] && es[..2][..1] == [seed] && es[..2][..1][..0] == [];
    var book := Book(map[100.0 := 1.0], map[101.0 := 1.0]);
    OneLevel(map[], Level(100.0, 1.0));
    OneLevel(map[], Level(101.0, 1.0));
    OneLevel(book.bids, Level(102.0, 1.0));
    OneLevel(book.bids, Level(99.5, 1.0));
    assert Apply(EMPTY, seed.update) == book;
    BestIsUnique(Bid, book.bids, 100.0);
    BestIsUnique(Ask, book.asks, 101.0);
    PruneIdempotent(book);
    assert FeedRun(c, es[..2][..1][..0]) == START;
    assert FeedRun(c, es[..2][..1]) == Feed(book, None, None);
    var crossed := Apply(book, crossing.update);
    assert crossed == Book(map[100.0 := 1.0, 102.0 := 1.0], book.asks);
    BestIsUnique(Bid, crossed.bids, 102.0);
    CrossingUpdateIsHeld(book, crossing.update);
    assert FeedRun(c, es[..2]) == Feed(book, Some(Streak(1, 2.0)), None);
    var candidate := Apply(book, healthy.update);
    assert candidate == Book(map[100.0 := 1.0, 99.5 := 1.0], book.asks);
    BestIsUnique(Bid, candidate.bids, 100.0);
  }

  lemma OneLevel(m: Ladder, l: Level)
    requires l.size != 0.0
    ensures FromLevels([l]) == map[l.price := l.size] && WithLevels(m, [l]) == m[l.price := l.size]
  {
    assert [l][..0] == [];
  }

  // ---------- Resync requests ----------

  /** The times at which the feed asked for a resync. */
  function RequestTimes(c: Config, es: seq<Event>): seq<real> {
    if es == [] then []
    else
      var ts, e := RequestTimes(c, es[..|es| - 1]), es[|es| - 1];
      if Requests(c, FeedRun(c, es[..|es| - 1]), e) then ts + [e.checkedAt] else ts
  }

  lemma {:induction false} LastResyncIsLastRequest(c: Config, es: seq<Event>)
    ensures var ts := RequestTimes(c, es);
            FeedRun(c, es).lastResync == if ts == [] then None else Some(ts[|ts| - 1])
  {
    if es != [] {
      LastResyncIsLastRequest(c, es[..|es| - 1]);
    }
  }

  /** Any two resync requests of a symbol are at least the cooldown apart, and the first that far from time zero. */
  lemma {:induction false} RequestsAreSpaced(c: Config, es: seq<Event>)
    requires c.cooldown >= 0.0
    ensures forall i, j :: 0 <= i < j < |RequestTimes(c, es)| ==>
              RequestTimes(c, es)[j] - RequestTimes(c, es)[i] >= c.cooldown
    ensures RequestTimes(c, es) != [] ==> RequestTimes(c, es)[0] >= c.cooldown
  {
    if es != [] {
      RequestsAreSpaced(c, es[..|es| - 1]);
      LastResyncIsLastRequest(c, es[..|es| - 1]);
    }
  }

  /** The longest run of crossings ending now has reached `threshold`. */
  ghost predicate RunReaches(ts: seq<real>, window: real, threshold: int) {
    exists k: nat :: LongestRun(ts, k, window) && k >= threshold
  }

  lemma RunReachesIff(ts: seq<real>, k: nat, window: real, threshold: int)
    requires LongestRun(ts, k, window)
    ensures RunReaches(ts, window, threshold) <==> k >= threshold
  {
    if j: nat :| LongestRun(ts, j, window) && j >= threshold {
      assert j == k;
    }
  }

  /**
   * An update asks for a resync exactly when it is fresh and crossing with a best ask that is not zero, its
   * run of crossed updates has reached the threshold, and the last request is at least the cooldown ago.
   */
  lemma RequestIff(c: Config, es: seq<Event>)
    requires es != []
    ensures
      var e, asked := es[|es| - 1], RequestTimes(c, es[..|es| - 1]);
      RequestTimes(c, es) == asked + [e.checkedAt] <==>
      && (e.update.kind.Snapshot? || e.ageSec.None? || c.maxAge <= 0.0 || e.ageSec.value <= c.maxAge)
      && Crossed(CandidateOf(c, es)) && Best(Ask, CandidateOf(c, es).asks) != 0.0
      && RunReaches(CrossTimes(c, es), c.window, c.threshold)
      && e.checkedAt - (if asked == [] then 0.0 else asked[|asked| - 1]) >= c.cooldown
  {
    var before, e := es[..|es| - 1], es[|es| - 1];
    StreakIsLongestRun(c, es);
    LastResyncIsLastRequest(c, before);
    var streak := FeedRun(c, es).streak;
    if LastHandled(c, es) && Crossed(CandidateOf(c, es)) {
      RunReachesIff(CrossTimes(c, es), streak.value.count, c.window, c.threshold);
    }
  }
}
