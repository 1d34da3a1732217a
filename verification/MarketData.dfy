/**
 * The market data service's shared state and the steps that update it in place. Each method is the
 * stretch of code between two awaits, so it is one atomic step; clock readings and provider updates
 * are parameters.
 */
module MarketData {
  import opened Wrappers
  import opened OrderBook
  import opened FeedControl
  import Backoff
  import Canon

  datatype Tier = NormalTier | SoftTier | HardTier

  datatype Outcome =
    | StaleSkipped
    | Raised
    | ResyncRequested
    | CrossedSkipped
    | Published(bids: seq<Level>, asks: seq<Level>, canonUs: int)

  function TopN(c: Config, tier: Tier, compact: bool): nat {
    if compact || tier.HardTier? then c.topN else if tier.SoftTier? then 30 else 50
  }

  /** The two lists hold the best levels of each side, to the depth of the backlog tier, and are not crossed. */
  ghost predicate Shows(c: Config, tier: Tier, compact: bool, b: Book, bids: seq<Level>, asks: seq<Level>) {
    var depth := if compact || tier == HardTier then c.topN else match tier case NormalTier => 50 case _ => 30;
    && IsTop(Bid, b.bids, depth, bids)
    && IsTop(Ask, b.asks, depth, asks)
    && (bids != [] && asks != [] ==> bids[0].price <= asks[0].price)
  }

  lemma EmittedShows(c: Config, tier: Tier, compact: bool, b: Book)
    requires Good(b)
    ensures var topN := TopN(c, tier, compact);
            Shows(c, tier, compact, b, Emitted(Bid, b.bids, topN), Emitted(Ask, b.asks, topN))
  {
    var topN := TopN(c, tier, compact);
    EmittedMeaning(Bid, b.bids, topN, topN);
    EmittedMeaning(Ask, b.asks, topN, topN);
    EmittedIsUncrossed(b, topN);
  }

  class Service {
    const cfg: Config
    const limits: Backoff.Limits
    var bookState: map<string, Book>
    var crossedStreak: map<string, Streak>
    var resyncPending: map<string, real>
    var lastResyncTs: map<string, real>
    var lastEventUs: map<string, int>
    var backlogTier: Tier
    var failureTimestamps: seq<real>
    var mode: Backoff.Mode
    var backoffUntil: real

    /** All stored books are good, and no resync mark outlives the call that set it. */
    ghost predicate Valid()
      reads this
    {
      && (forall symbol :: symbol in bookState ==> Good(bookState[symbol]))
      && resyncPending == map[]
    }

    /** One symbol's part of the state. */
    function FeedOf(symbol: string): Feed
      reads this
    {
      Feed(BookOf(symbol), StreakOf(symbol), if symbol in lastResyncTs then Some(lastResyncTs[symbol]) else None)
    }

    function StreakOf(symbol: string): Option<Streak>
      reads this`crossedStreak
    {
      if symbol in crossedStreak then Some(crossedStreak[symbol]) else None
    }

    function BookOf(symbol: string): Book
      reads this`bookState
    {
      if symbol in bookState then bookState[symbol] else EMPTY
    }

    /** The failure window, mode and deadline. */
    function HealthOf(): Backoff.Health
      reads this
    {
      Backoff.Health(failureTimestamps, mode, backoffUntil)
    }

    constructor (cfg: Config, limits: Backoff.Limits)
      ensures this.cfg == cfg && this.limits == limits
      ensures Valid() && HealthOf() == Backoff.START
      ensures failureTimestamps == [] && mode == Backoff.Normal && backoffUntil == 0.0
      ensures forall symbol :: FeedOf(symbol) == START
      ensures lastEventUs == map[]
    {
      this.cfg, this.limits := cfg, limits;
      bookState, crossedStreak, resyncPending, lastResyncTs, lastEventUs := map[], map[], map[], map[], map[];
      backlogTier := NormalTier;
      failureTimestamps, mode, backoffUntil := [], Backoff.Normal, 0.0;
    }

    /** The next canonical timestamp of a symbol, shared by its L1, L2 and trade feeds. */
    method NextCanonUs(symbol: string, recvUs: int) returns (canon: int)
      modifies this`lastEventUs
      ensures canon == Canon.Next(if symbol in old(lastEventUs) then Some(old(lastEventUs)[symbol]) else None, recvUs)
      ensures lastEventUs == old(lastEventUs)[symbol := canon]
    {
      if symbol !in lastEventUs || recvUs > lastEventUs[symbol] {
        canon := recvUs;
      } else {
        canon := lastEventUs[symbol] + 1;
      }
      lastEventUs := lastEventUs[symbol := canon];
    }

    /** Merges levels into a side, one by one. */
    static method MergeLevels(side: Ladder, levels: seq<Level>) returns (merged: Ladder)
      ensures merged == WithLevels(side, levels)
    {
      merged := side;
      for n := 0 to |levels|
        invariant merged == WithLevels(side, levels[..n])
      {
        assert levels[..n + 1][..n] == levels[..n];
        if levels[n].size == 0.0 {
          merged := merged - {levels[n].price};
        } else {
          merged := merged[levels[n].price := levels[n].size];
        }
      }
      assert levels[..|levels|] == levels;
    }

    static method ApplyUpdate(prev: Book, u: Update) returns (book: Book)
      ensures book == Apply(prev, u)
    {
      if u.kind.Snapshot? {
        book := Book(FromLevels(u.bids), FromLevels(u.asks));
      } else {
        var bidDict := MergeLevels(prev.bids, u.bids);
        var askDict := MergeLevels(prev.asks, u.asks);
        book := Book(bidDict, askDict);
      }
    }

    /**
     * Counts a crossed candidate, marking a resync at the threshold; drops the streak on a one-sided one.
     * A crossed candidate whose best ask is zero raises first, and changes nothing.
     */
    method TrackCross(symbol: string, candidate: Book, now: real) returns (raised: bool, crossed: bool)
      modifies this`crossedStreak, this`resyncPending
      ensures raised == Raises(candidate) && crossed == Crossed(candidate)
      ensures raised ==> crossedStreak == old(crossedStreak) && resyncPending == old(resyncPending)
      ensures !raised ==>
                && StreakOf(symbol) == StreakAfter(cfg, old(StreakOf(symbol)), candidate, now)
                && resyncPending == if MarksResync(cfg, old(StreakOf(symbol)), candidate, now)
                                    then old(resyncPending)[symbol := now] else old(resyncPending)
      ensures forall other :: other != symbol ==> StreakOf(other) == old(StreakOf(other))
    {
      raised, crossed := false, false;
      if candidate.bids != map[] && candidate.asks != map[] {
        var bestBid, bestAsk := Best(Bid, candidate.bids), Best(Ask, candidate.asks);
        if bestBid > bestAsk {
          crossed := true;
          if bestAsk == 0.0 {
            raised := true;
            return;
          }
          var lastInfo := if symbol in crossedStreak then crossedStreak[symbol] else Streak(0, 0.0);
          var crossedCount := if now - lastInfo.lastTs > cfg.window then 1 else lastInfo.count + 1;
          crossedStreak := crossedStreak[symbol := Streak(crossedCount, now)];
          if crossedCount >= cfg.threshold {
            resyncPending := resyncPending[symbol := now];
          }
        }
      } else {
        crossedStreak := crossedStreak - {symbol};
      }
    }

    /**
     * Merges an update into the symbol's book, keeps its crossed streak, and emits the sorted lists; or
     * raises, and changes nothing.
     */
    method MergeOrderbookState(symbol: string, u: Update, compact: bool, now: real)
      returns (lists: Option<(seq<Level>, seq<Level>)>)
      modifies this`bookState, this`crossedStreak, this`resyncPending
      ensures lists.None? <==> Raises(Apply(old(BookOf(symbol)), u))
      ensures lists.None? ==>
                && bookState == old(bookState)
                && crossedStreak == old(crossedStreak)
                && resyncPending == old(resyncPending)
      ensures lists.Some? ==>
                && bookState == old(bookState)[symbol := Merge(old(BookOf(symbol)), u)]
                && StreakOf(symbol) == StreakAfter(cfg, old(StreakOf(symbol)), Apply(old(BookOf(symbol)), u), now)
                && resyncPending == (if MarksResync(cfg, old(StreakOf(symbol)), Apply(old(BookOf(symbol)), u), now)
                                     then old(resyncPending)[symbol := now] else old(resyncPending))
                && lists.value.0 == Emitted(Bid, bookState[symbol].bids, TopN(cfg, backlogTier, compact))
                && lists.value.1 == Emitted(Ask, bookState[symbol].asks, TopN(cfg, backlogTier, compact))
      ensures forall other :: other != symbol ==> StreakOf(other) == old(StreakOf(other))
    {
      var prev := BookOf(symbol);
      var book := ApplyUpdate(prev, u);
      var raised, crossed := TrackCross(symbol, book, now);
      if raised {
        return None;
      }
      if crossed {
        book := Repair(prev);
      }
      bookState := bookState[symbol := Prune(book)];
      var topN := TopN(cfg, backlogTier, compact);
      lists := Some((Emitted(Bid, bookState[symbol].bids, topN), Emitted(Ask, bookState[symbol].asks, topN)));
    }

    /**
     * Handles one L2 update up to the point where it is published or dropped. The symbol's feed moves by
     * one step of the feed machine, no other symbol's feed moves, and the final crossed check never fires.
     */
    method PublishUpdate(symbol: string, e: Event, recvUs: int) returns (r: Outcome)
      requires Valid()
      modifies this`bookState, this`crossedStreak, this`resyncPending, this`lastResyncTs, this`lastEventUs
      ensures Valid()
      ensures FeedOf(symbol) == FeedAfter(cfg, old(FeedOf(symbol)), e)
      ensures forall other :: other != symbol ==> FeedOf(other) == old(FeedOf(other))
      ensures r.StaleSkipped? <==> Stale(cfg, e)
      ensures e.update.kind.Snapshot? || e.ageSec.None? || cfg.maxAge <= 0.0 || e.ageSec.value <= cfg.maxAge ==>
                !r.StaleSkipped? && (r.Raised? || MergedTo(old(BookOf(symbol)), e.update, BookOf(symbol)))
      ensures e.update.kind.Delta? && e.ageSec.Some? && 0.0 < cfg.maxAge < e.ageSec.value ==>
                r.StaleSkipped? && FeedOf(symbol) == old(FeedOf(symbol))
      ensures r.Raised? <==> !Stale(cfg, e) && Raises(Apply(old(BookOf(symbol)), e.update))
      ensures r.ResyncRequested? <==> Requests(cfg, old(FeedOf(symbol)), e)
      ensures !r.CrossedSkipped?
      ensures r.Published? ==>
                && r.bids == Emitted(Bid, FeedOf(symbol).book.bids, TopN(cfg, backlogTier, false))
                && r.asks == Emitted(Ask, FeedOf(symbol).book.asks, TopN(cfg, backlogTier, false))
                && Shows(cfg, backlogTier, false, FeedOf(symbol).book, r.bids, r.asks)
                && lastEventUs == old(lastEventUs)[symbol := r.canonUs]
                && r.canonUs == Canon.Next(
                     if symbol in old(lastEventUs) then Some(old(lastEventUs)[symbol]) else None, recvUs)
      ensures !r.Published? ==> lastEventUs == old(lastEventUs)
    {
      if e.update.kind.Delta? && e.ageSec.Some? && cfg.maxAge > 0.0 && e.ageSec.value > cfg.maxAge {
        return StaleSkipped;
      }
      BookOfIsGood(symbol);
      MergeMeaning(BookOf(symbol), e.update);
      var lists, requested := MergeFresh(symbol, e);
      if lists.None? {
        return Raised;
      }
      if requested {
        return ResyncRequested;
      }
      BookOfIsGood(symbol);
      EmittedShows(cfg, backlogTier, false, BookOf(symbol));
      var (mergedBids, mergedAsks) := lists.value;
      if mergedBids != [] && mergedAsks != [] {
        if mergedBids[0].price > mergedAsks[0].price {
          return CrossedSkipped;
        }
      }
      var canon := NextCanonUs(symbol, recvUs);
      r := Published(mergedBids, mergedAsks, canon);
    }

    /** The publish loop's turn for one update: one that raises is recorded as a failure at `failedAt`. */
    method PublishTurn(symbol: string, e: Event, recvUs: int, failedAt: real) returns (r: Outcome)
      requires Valid()
      modifies this
      ensures Valid()
      ensures FeedOf(symbol) == FeedAfter(cfg, old(FeedOf(symbol)), e)
      ensures forall other :: other != symbol ==> FeedOf(other) == old(FeedOf(other))
      ensures r.Raised? <==> !Stale(cfg, e) && Raises(Apply(old(BookOf(symbol)), e.update))
      ensures r.Raised? ==> FeedOf(symbol) == old(FeedOf(symbol)) && lastEventUs == old(lastEventUs)
      ensures HealthOf() == if r.Raised? then Backoff.RecordFailure(limits, old(HealthOf()), failedAt)
                            else old(HealthOf())
    {
      r := PublishUpdate(symbol, e, recvUs);
      if r.Raised? {
        RecordFailure(failedAt);
      }
    }

    /** Merges an update that is not stale, then takes the resync mark the merge may have set. */
    method MergeFresh(symbol: string, e: Event)
      returns (lists: Option<(seq<Level>, seq<Level>)>, requested: bool)
      requires Valid() && !Stale(cfg, e)
      modifies this`bookState, this`crossedStreak, this`resyncPending, this`lastResyncTs
      ensures Valid()
      ensures FeedOf(symbol) == FeedAfter(cfg, old(FeedOf(symbol)), e)
      ensures forall other :: other != symbol ==> FeedOf(other) == old(FeedOf(other))
      ensures lists.None? <==> Raises(Apply(old(BookOf(symbol)), e.update))
      ensures requested <==> Requests(cfg, old(FeedOf(symbol)), e)
      ensures lists.Some? ==>
                && lists.value.0 == Emitted(Bid, BookOf(symbol).bids, TopN(cfg, backlogTier, false))
                && lists.value.1 == Emitted(Ask, BookOf(symbol).asks, TopN(cfg, backlogTier, false))
    {
      BookOfIsGood(symbol);
      MergeIsGood(BookOf(symbol), e.update);
      lists := MergeOrderbookState(symbol, e.update, false, e.mergedAt);
      if lists.None? {
        return None, false;
      }
      requested := TakeResyncMark(symbol, e.checkedAt);
    }

    lemma BookOfIsGood(symbol: string)
      requires Valid()
      ensures Good(BookOf(symbol))
    {
    }

    /** Takes the symbol's resync mark, if any, and honours it once the cooldown has passed. */
    method TakeResyncMark(symbol: string, now: real) returns (requested: bool)
      modifies this`resyncPending, this`lastResyncTs
      ensures var last := if symbol in old(lastResyncTs) then old(lastResyncTs)[symbol] else 0.0;
              requested <==> symbol in old(resyncPending) && now - last >= cfg.cooldown
      ensures resyncPending == old(resyncPending) - {symbol}
      ensures lastResyncTs == if requested then old(lastResyncTs)[symbol := now] else old(lastResyncTs)
    {
      var marked := symbol in resyncPending;
      resyncPending := resyncPending - {symbol};
      if marked {
        var lastResync := if symbol in lastResyncTs then lastResyncTs[symbol] else 0.0;
        if now - lastResync >= cfg.cooldown {
          lastResyncTs := lastResyncTs[symbol := now];
          return true;
        }
      }
      return false;
    }

    /** Records a failure, prunes the window and enters backoff when the window holds enough of them. */
    method RecordFailure(now: real)
      modifies this`failureTimestamps, this`mode, this`backoffUntil
      ensures HealthOf() == Backoff.RecordFailure(limits, old(HealthOf()), now)
      ensures forall t :: multiset(failureTimestamps)[t]
                          == if t > now - limits.window then multiset(old(failureTimestamps) + [now])[t] else 0
      ensures var enters := |failureTimestamps| >= limits.trigger && old(mode) != Backoff.InBackoff;
              && mode == (if enters then Backoff.InBackoff else old(mode))
              && backoffUntil == (if enters then now + limits.duration else old(backoffUntil))
    {
      Backoff.AfterKeepsLater(failureTimestamps + [now], now - limits.window);
      failureTimestamps := failureTimestamps + [now];
      failureTimestamps := Backoff.After(failureTimestamps, now - limits.window);
      if |failureTimestamps| >= limits.trigger && mode != Backoff.InBackoff {
        mode := Backoff.InBackoff;
        backoffUntil := now + limits.duration;
      }
    }

    /** A resync begins, unless one is under way. */
    method ResyncStart() returns (started: bool)
      modifies this`mode
      ensures started <==> old(mode) != Backoff.Resyncing
      ensures HealthOf() == Backoff.Step(limits, old(HealthOf()), Backoff.ResyncStart)
      ensures mode == Backoff.Resyncing
    {
      if mode == Backoff.Resyncing {
        return false;
      }
      mode := Backoff.Resyncing;
      started := true;
    }

    /** A resync ends; one that failed at `failedAt` is recorded first. */
    method ResyncEnd(failedAt: Option<real>)
      modifies this`failureTimestamps, this`mode, this`backoffUntil
      ensures HealthOf() == Backoff.Step(limits, old(HealthOf()),
                                         if failedAt.Some? then Backoff.ResyncFailed(failedAt.value)
                                         else Backoff.ResyncDone)
      ensures mode == Backoff.Normal
    {
      if failedAt.Some? {
        RecordFailure(failedAt.value);
      }
      mode := Backoff.Normal;
    }

    /** The mode part of a health tick. */
    method HealthTick(now: real)
      modifies this`mode
      ensures HealthOf() == Backoff.Step(limits, old(HealthOf()), Backoff.Tick(now))
      ensures mode == if backoffUntil > now then Backoff.InBackoff
                      else if old(mode) == Backoff.InBackoff then Backoff.Normal else old(mode)
    {
      if backoffUntil > now {
        mode := Backoff.InBackoff;
      } else if mode == Backoff.InBackoff && backoffUntil <= now {
        mode := Backoff.Normal;
      }
    }
  }
}
