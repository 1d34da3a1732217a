/**
 * Symbol ownership locks: a lease per (account, environment, symbol). Each function of the program is
 * one transaction, so it is one atomic step at the instant `now`; times are microseconds.
 */
module SymbolLocks {
  import opened Wrappers

  const LEASE_MINUTES := 60
  const LEASE := LEASE_MINUTES * 60_000_000

  datatype Key = Key(account: string, environment: string, symbol: string)

  datatype Row = Row(
    owner: string, acquiredAt: int, heartbeatAt: int, expiresAt: Option<int>,
    lastConflictBot: Option<string>, lastConflictAt: Option<int>, conflictCount: nat)

  type Table = map<Key, Row>

  datatype Result = Result(symbol: string, acquired: bool, owner: Option<string>)

  // ---------- The effect of each query on the table ----------

  /** The upsert goes through: no row, the bot's own row, or a lease that has run out. */
  predicate Acquirable(t: Table, k: Key, bot: string, now: int) {
    k !in t || t[k].owner == bot || t[k].heartbeatAt < now - LEASE
  }

  function AcquireOne(t: Table, k: Key, bot: string, now: int): Table {
    if k !in t then t[k := Row(bot, now, now, None, None, None, 0)]
    else if Acquirable(t, k, bot, now) then t[k := t[k].(owner := bot, acquiredAt := now, heartbeatAt := now)]
    else t[k := t[k].(lastConflictBot := Some(bot), lastConflictAt := Some(now),
                      conflictCount := t[k].conflictCount + 1)]
  }

  function AcquireAll(t: Table, account: string, env: string, symbols: seq<string>, bot: string, now: int): Table {
    if symbols == [] then t
    else
      var n := |symbols| - 1;
      AcquireOne(AcquireAll(t, account, env, symbols[..n], bot, now), Key(account, env, symbols[n]), bot, now)
  }

  function ReleaseBot(t: Table, bot: string): Table { map k | k in t && t[k].owner != bot :: t[k] }

  function ReleaseSome(t: Table, bot: string, symbols: seq<string>): Table {
    map k | k in t && !(t[k].owner == bot && k.symbol in symbols) :: t[k]
  }

  function Renew(t: Table, bot: string, now: int): Table {
    map k | k in t :: if t[k].owner == bot then t[k].(heartbeatAt := now) else t[k]
  }

  predicate Expired(r: Row, now: int) {
    (r.expiresAt.Some? && r.expiresAt.value < now) || r.heartbeatAt < now - 2 * LEASE
  }

  function CleanUp(t: Table, now: int): Table { map k | k in t && !Expired(t[k], now) :: t[k] }

  /** What the pre-start check reports: the requested keys that another bot holds. */
  function Conflicts(t: Table, account: string, env: string, symbols: seq<string>, bot: string, now: int)
    : map<Key, string>
  {
    map k | k in t && k.account == account && k.environment == env && k.symbol in symbols
            && t[k].owner != bot && t[k].heartbeatAt > now - LEASE :: t[k].owner
  }

  /** Attempts by one bot at one instant do not change which keys it can acquire. */
  lemma {:induction false} AcquirableUnchanged(
    t: Table, account: string, env: string, symbols: seq<string>, bot: string, now: int, k: Key)
    ensures var t' := AcquireAll(t, account, env, symbols, bot, now);
            && (Acquirable(t', k, bot, now) <==> Acquirable(t, k, bot, now))
            && (!Acquirable(t, k, bot, now) ==>
                  t'[k].owner == t[k].owner && t'[k].heartbeatAt == t[k].heartbeatAt)
  {
    if symbols != [] {
      AcquirableUnchanged(t, account, env, symbols[..|symbols| - 1], bot, now, k);
    }
  }

  /**
   * What an attempt that names `k` `asked` times leaves in its row: nothing new, a fresh lock, a lock taken
   * over, or `asked` recorded conflicts. A lock can be taken over when it is the bot's own or its heartbeat
   * is more than an hour old.
   */
  ghost predicate AttemptedAt(t: Table, t': Table, k: Key, asked: nat, bot: string, now: int) {
    && (asked == 0 ==> (k in t' <==> k in t) && (k in t ==> t'[k] == t[k]))
    && (asked > 0 && k !in t ==> k in t' && t'[k] == Row(bot, now, now, None, None, None, 0))
    && (asked > 0 && k in t ==>
          k in t' && t'[k] ==
            if t[k].owner == bot || t[k].heartbeatAt < now - 3_600_000_000
            then t[k].(owner := bot, acquiredAt := now, heartbeatAt := now)
            else t[k].(lastConflictBot := Some(bot), lastConflictAt := Some(now),
                       conflictCount := t[k].conflictCount + asked))
  }

  /** How often an attempt on some symbols of an account names `k`. */
  ghost function Asked(account: string, env: string, symbols: seq<string>, k: Key): nat {
    if k.account == account && k.environment == env then multiset(symbols)[k.symbol] else 0
  }

  /** What an attempt leaves in the row of each key: a grant, a recorded conflict, or nothing. */
  lemma {:induction false} AcquireAllAt(
    t: Table, account: string, env: string, symbols: seq<string>, bot: string, now: int, k: Key)
    ensures AttemptedAt(t, AcquireAll(t, account, env, symbols, bot, now), k, Asked(account, env, symbols, k), bot, now)
  {
    if symbols != [] {
      var n := |symbols| - 1;
      AcquireAllAt(t, account, env, symbols[..n], bot, now, k);
      assert symbols == symbols[..n] + [symbols[n]];
    }
  }

  // ---------- The table, updated in place ----------

  class LockTable {
    var rows: Table

    constructor ()
      ensures rows == map[]
    {
      rows := map[];
    }

    /** Tries every symbol in order inside one transaction; a refusal is recorded and reported with its owner. */
    method AcquireMany(account: string, env: string, symbols: seq<string>, bot: string, now: int)
      returns (results: seq<Result>)
      modifies this
      ensures rows == AcquireAll(old(rows), account, env, symbols, bot, now)
      ensures |results| == |symbols|
      ensures forall i :: 0 <= i < |symbols| ==>
                var k := Key(account, env, symbols[i]);
                results[i] == if Acquirable(old(rows), k, bot, now) then Result(symbols[i], true, None)
                              else Result(symbols[i], false, Some(old(rows)[k].owner))
      ensures forall k :: AttemptedAt(old(rows), rows, k, Asked(account, env, symbols, k), bot, now)
    {
      results := [];
      for n := 0 to |symbols|
        invariant rows == AcquireAll(old(rows), account, env, symbols[..n], bot, now)
        invariant |results| == n
        invariant forall i :: 0 <= i < n ==>
                    var k := Key(account, env, symbols[i]);
                    results[i] == if Acquirable(old(rows), k, bot, now) then Result(symbols[i], true, None)
                                  else Result(symbols[i], false, Some(old(rows)[k].owner))
      {
        var k := Key(account, env, symbols[n]);
        AcquirableUnchanged(old(rows), account, env, symbols[..n], bot, now, k);
        assert symbols[..n + 1][..n] == symbols[..n];
        if k !in rows {
          rows := rows[k := Row(bot, now, now, None, None, None, 0)];
          results := results + [Result(symbols[n], true, None)];
        } else if rows[k].owner == bot || rows[k].heartbeatAt < now - LEASE {
          rows := rows[k := rows[k].(owner := bot, acquiredAt := now, heartbeatAt := now)];
          results := results + [Result(symbols[n], true, None)];
        } else {
          var owner := rows[k].owner;
          rows := rows[k := rows[k].(lastConflictBot := Some(bot), lastConflictAt := Some(now),
                                     conflictCount := rows[k].conflictCount + 1)];
          results := results + [Result(symbols[n], false, Some(owner))];
        }
      }
      assert symbols[..|symbols|] == symbols;
      forall k ensures AttemptedAt(old(rows), rows, k, Asked(account, env, symbols, k), bot, now) {
        AcquireAllAt(old(rows), account, env, symbols, bot, now, k);
      }
    }

    /** The pre-start check: the requested symbols that another bot holds, with their owners. */
    method GetConflicts(account: string, env: string, symbols: seq<string>, bot: string, now: int)
      returns (conflicts: map<Key, string>)
      ensures conflicts == Conflicts(rows, account, env, symbols, bot, now)
      ensures forall k :: k in conflicts <==>
                && k in rows
                && k.account == account && k.environment == env && k.symbol in symbols
                && rows[k].owner != bot && now - rows[k].heartbeatAt < 3_600_000_000
      ensures forall k :: k in conflicts ==> conflicts[k] == rows[k].owner
    {
      conflicts := map k | k in rows && k.account == account && k.environment == env && k.symbol in symbols
                           && rows[k].owner != bot && rows[k].heartbeatAt > now - LEASE :: rows[k].owner;
    }

    /** Deletes every lock of a bot. */
    method ReleaseByBot(bot: string)
      modifies this
      ensures rows == ReleaseBot(old(rows), bot)
      ensures forall k :: k in rows <==> k in old(rows) && old(rows)[k].owner != bot
      ensures forall k :: k in rows ==> rows[k] == old(rows)[k]
    {
      rows := map k | k in rows && rows[k].owner != bot :: rows[k];
    }

    /** Deletes a bot's locks on some symbols, on every account and environment. */
    method ReleaseSymbols(bot: string, symbols: seq<string>)
      modifies this
      ensures rows == ReleaseSome(old(rows), bot, symbols)
      ensures forall k :: k in rows <==> k in old(rows) && (old(rows)[k].owner != bot || k.symbol !in symbols)
      ensures forall k :: k in rows ==> rows[k] == old(rows)[k]
    {
      rows := map k | k in rows && !(rows[k].owner == bot && k.symbol in symbols) :: rows[k];
    }

    /** Renews every lock of a bot, and changes nothing else about any lock. */
    method Heartbeat(bot: string, now: int)
      modifies this
      ensures rows == Renew(old(rows), bot, now)
      ensures forall k :: k in rows <==> k in old(rows)
      ensures forall k :: k in rows && old(rows)[k].owner != bot ==> rows[k] == old(rows)[k]
      ensures forall k :: k in rows && old(rows)[k].owner == bot ==>
                && rows[k].heartbeatAt == now
                && rows[k].owner == bot && rows[k].acquiredAt == old(rows)[k].acquiredAt
                && rows[k].expiresAt == old(rows)[k].expiresAt
                && rows[k].lastConflictBot == old(rows)[k].lastConflictBot
                && rows[k].lastConflictAt == old(rows)[k].lastConflictAt
                && rows[k].conflictCount == old(rows)[k].conflictCount
    {
      rows := map k | k in rows :: if rows[k].owner == bot then rows[k].(heartbeatAt := now) else rows[k];
    }

    /** Deletes locks past their expiry, or not renewed for two leases. */
    method CleanupExpired(now: int)
      modifies this
      ensures rows == CleanUp(old(rows), now)
      ensures forall k :: k in rows <==>
                && k in old(rows)
                && now - old(rows)[k].heartbeatAt <= 7_200_000_000
                && (old(rows)[k].expiresAt.Some? ==> now <= old(rows)[k].expiresAt.value)
      ensures forall k :: k in rows ==> rows[k] == old(rows)[k]
    {
      rows := map k | k in rows && !Expired(rows[k], now) :: rows[k];
    }
  }

  // ---------- Runs ----------

  datatype Event =
    | Acquire(bot: string, account: string, env: string, symbols: seq<string>, now: int)
    | Beat(bot: string, now: int)
    | ReleaseAll(bot: string, now: int)
    | Release(bot: string, symbols: seq<string>, now: int)
    | Sweep(now: int)

  function Step(t: Table, e: Event): Table {
    match e
    case Acquire(bot, account, env, symbols, now) => AcquireAll(t, account, env, symbols, bot, now)
    case Beat(bot, now) => Renew(t, bot, now)
    case ReleaseAll(bot, _) => ReleaseBot(t, bot)
    case Release(bot, symbols, _) => ReleaseSome(t, bot, symbols)
    case Sweep(now) => CleanUp(t, now)
  }

  /** The table after `es`, from `t`. */
  function After(t: Table, es: seq<Event>): Table {
    if es == [] then t else Step(After(t, es[..|es| - 1]), es[|es| - 1])
  }

  ghost predicate ClockOrdered(es: seq<Event>) {
    forall i, j :: 0 <= i < j < |es| ==> es[i].now <= es[j].now
  }

  /** The step's answer tells `bot` that it acquired or renewed `k`. */
  predicate Touches(t: Table, e: Event, k: Key, bot: string) {
    match e
    case Acquire(b, account, env, symbols, now) =>
      b == bot && k.account == account && k.environment == env && k.symbol in symbols && Acquirable(t, k, bot, now)
    case Beat(b, _) => b == bot && k in t && t[k].owner == bot
    case _ => false
  }

  /** The step is `bot` asking to release `k`. */
  predicate Releases(e: Event, k: Key, bot: string) {
    (e.ReleaseAll? && e.bot == bot) || (e.Release? && e.bot == bot && k.symbol in e.symbols)
  }

  /** When `bot` last acquired or renewed `k`, if it has not released it since. */
  function LastTouch(es: seq<Event>, k: Key, bot: string): Option<int> {
    if es == [] then None
    else
      var before, e := es[..|es| - 1], es[|es| - 1];
      if Releases(e, k, bot) then None
      else if Touches(After(map[], before), e, k, bot) then Some(e.now)
      else LastTouch(before, k, bot)
  }

  /** `bot` acquired or renewed `k` within the last lease, and has not released it. */
  predicate Holds(es: seq<Event>, k: Key, bot: string, now: int) {
    var touched := LastTouch(es, k, bot);
    touched.Some? && touched.value >= now - LEASE
  }

  ghost predicate NoExpiry(t: Table) { forall k :: k in t ==> t[k].expiresAt == None }

  /** No step sets an expiry. */
  lemma StepKeepsNoExpiry(t: Table, e: Event)
    requires NoExpiry(t)
    ensures NoExpiry(Step(t, e))
  {
    if e.Acquire? {
      forall k | k in Step(t, e) ensures Step(t, e)[k].expiresAt == None {
        AcquireAllAt(t, e.account, e.env, e.symbols, e.bot, e.now, k);
      }
    }
  }

  lemma {:induction false} ReachableHasNoExpiry(es: seq<Event>)
    ensures NoExpiry(After(map[], es))
  {
    if es != [] {
      ReachableHasNoExpiry(es[..|es| - 1]);
      StepKeepsNoExpiry(After(map[], es[..|es| - 1]), es[|es| - 1]);
    }
  }

  /** What one step does to one row, in terms of who touched and released it. */
  lemma StepAt(t: Table, e: Event, k: Key)
    requires NoExpiry(t)
    ensures
      var t' := Step(t, e);
      && (forall bot :: Touches(t, e, k, bot) ==> k in t' && t'[k].owner == bot && t'[k].heartbeatAt == e.now)
      && (k in t' && !Touches(t, e, k, t'[k].owner) ==>
            k in t && t'[k].owner == t[k].owner && t'[k].heartbeatAt == t[k].heartbeatAt)
      && (k in t' ==> !Releases(e, k, t'[k].owner))
      && (k in t && k !in t' ==> Releases(e, k, t[k].owner) || (e.Sweep? && t[k].heartbeatAt < e.now - 2 * LEASE))
      && (k in t && e.Sweep? && t[k].heartbeatAt < e.now - 2 * LEASE ==> k !in t')
      && (k in t && k in t' && t'[k].owner != t[k].owner ==> t[k].heartbeatAt < e.now - LEASE)
  {
    if e.Acquire? {
      AcquireAllAt(t, e.account, e.env, e.symbols, e.bot, e.now, k);
    }
  }

  /** A stored row's heartbeat is when its owner last touched it. */
  lemma {:induction false} RowIsLastTouch(es: seq<Event>, k: Key)
    ensures var t := After(map[], es); k in t ==> LastTouch(es, k, t[k].owner) == Some(t[k].heartbeatAt)
  {
    if es != [] {
      RowIsLastTouch(es[..|es| - 1], k);
      ReachableHasNoExpiry(es[..|es| - 1]);
      StepAt(After(map[], es[..|es| - 1]), es[|es| - 1], k);
    }
  }

  /** A bot whose last touch is within the lease still has its row. */
  lemma {:induction false} RecentTouchIsStored(es: seq<Event>, k: Key, bot: string, now: int)
    requires ClockOrdered(es) && (es != [] ==> es[|es| - 1].now <= now)
    requires Holds(es, k, bot, now)
    ensures k in After(map[], es) && After(map[], es)[k].owner == bot
  {
    var before, e := es[..|es| - 1], es[|es| - 1];
    var t := After(map[], before);
    ReachableHasNoExpiry(before);
    StepAt(t, e, k);
    if !Touches(t, e, k, bot) {
      RecentTouchIsStored(before, k, bot, e.now);
      RowIsLastTouch(before, k);
    }
  }

  /** The table decides holding: a bot holds a lock exactly when the row is its own and within the lease. */
  lemma HoldsIffRow(es: seq<Event>, k: Key, bot: string, now: int)
    requires ClockOrdered(es) && (es != [] ==> es[|es| - 1].now <= now)
    ensures var t := After(map[], es);
            Holds(es, k, bot, now) <==> k in t && t[k].owner == bot && t[k].heartbeatAt >= now - LEASE
  {
    RowIsLastTouch(es, k);
    if Holds(es, k, bot, now) {
      RecentTouchIsStored(es, k, bot, now);
    }
  }

  /** Exclusivity over all runs: at most one bot holds a lock at any time. */
  lemma AtMostOneHolder(es: seq<Event>, k: Key, bot: string, other: string, now: int)
    requires ClockOrdered(es) && (es != [] ==> es[|es| - 1].now <= now)
    requires Holds(es, k, bot, now) && Holds(es, k, other, now)
    ensures bot == other
  {
    RecentTouchIsStored(es, k, bot, now);
    RecentTouchIsStored(es, k, other, now);
  }

  /** When `bot` last renewed its locks in `es`, having done so at `first` before. */
  function LastRenewal(es: seq<Event>, bot: string, first: int): int {
    if es == [] then first
    else if es[|es| - 1] == Beat(bot, es[|es| - 1].now) then es[|es| - 1].now
    else LastRenewal(es[..|es| - 1], bot, first)
  }

  /** Every event comes at most one lease after the bot's latest renewal, and none is its release of `k`. */
  ghost predicate KeptRenewed(es: seq<Event>, k: Key, bot: string, first: int) {
    forall i :: 0 <= i < |es| ==>
      es[i].now <= LastRenewal(es[..i], bot, first) + LEASE && !Releases(es[i], k, bot)
  }

  /** A bot that renews at gaps of at most a lease keeps each lock until it releases it. */
  lemma {:induction false} RenewedLockIsKept(t: Table, es: seq<Event>, k: Key, bot: string)
    requires NoExpiry(t) && k in t && t[k].owner == bot
    requires ClockOrdered(es) && (es != [] ==> t[k].heartbeatAt <= es[0].now)
    requires KeptRenewed(es, k, bot, t[k].heartbeatAt)
    ensures var t' := After(t, es);
            && NoExpiry(t') && k in t' && t'[k].owner == bot
            && t'[k].heartbeatAt >= LastRenewal(es, bot, t[k].heartbeatAt)
  {
    if es != [] {
      var n := |es| - 1;
      var before, e, first := es[..n], es[n], t[k].heartbeatAt;
      forall i | 0 <= i < n
        ensures before[i].now <= LastRenewal(before[..i], bot, first) + LEASE && !Releases(before[i], k, bot)
      {
        assert before[..i] == es[..i];
      }
      RenewedLockIsKept(t, before, k, bot);
      StepKeepsNoExpiry(After(t, before), e);
      StepAt(After(t, before), e, k);
      LastRenewalIsPast(before, bot, first, e.now);
      assert e.now <= LastRenewal(es[..n], bot, first) + LEASE && !Releases(es[n], k, bot);
    }
  }

  lemma {:induction false} LastRenewalIsPast(es: seq<Event>, bot: string, first: int, now: int)
    requires first <= now && forall i :: 0 <= i < |es| ==> es[i].now <= now
    ensures LastRenewal(es, bot, first) <= now
  {
    if es != [] {
      LastRenewalIsPast(es[..|es| - 1], bot, first, now);
    }
  }

  // ---------- Cleanup and the pre-start check ----------

  /**
   * Running the cleanup first changes neither which keys an attempt is granted, nor the owner it reports
   * when refused, nor what the pre-start check reports.
   */
  lemma CleanupIsInvisible(t: Table, account: string, env: string, symbols: seq<string>, bot: string, now: int)
    requires NoExpiry(t)
    ensures forall k :: Acquirable(CleanUp(t, now), k, bot, now) <==> Acquirable(t, k, bot, now)
    ensures forall k :: !Acquirable(t, k, bot, now) ==> CleanUp(t, now)[k] == t[k]
    ensures Conflicts(CleanUp(t, now), account, env, symbols, bot, now) == Conflicts(t, account, env, symbols, bot, now)
  {
  }

  /**
   * After an attempt, a requested key has the same owner, lease and expiry whether or not the cleanup ran
   * first; and a refused one has the same row altogether.
   */
  lemma CleanupThenAcquire(
    t: Table, account: string, env: string, symbols: seq<string>, bot: string, now: int, k: Key)
    requires NoExpiry(t)
    requires k.account == account && k.environment == env && k.symbol in symbols
    ensures
      var plain := AcquireAll(t, account, env, symbols, bot, now);
      var swept := AcquireAll(CleanUp(t, now), account, env, symbols, bot, now);
      && k in plain && k in swept
      && plain[k].owner == swept[k].owner && plain[k].acquiredAt == swept[k].acquiredAt
      && plain[k].heartbeatAt == swept[k].heartbeatAt && plain[k].expiresAt == swept[k].expiresAt
      && (!Acquirable(t, k, bot, now) ==> plain[k] == swept[k])
  {
    AcquireAllAt(t, account, env, symbols, bot, now, k);
    AcquireAllAt(CleanUp(t, now), account, env, symbols, bot, now, k);
  }

  /**
   * At one instant, a requested key is refused exactly when it is reported as a conflict, with the same
   * owner, or its heartbeat is exactly one lease old.
   */
  lemma RefusedIffReportedOrOnTheEdge(
    t: Table, account: string, env: string, symbols: seq<string>, bot: string, now: int, k: Key)
    requires k.account == account && k.environment == env && k.symbol in symbols
    ensures var reported := Conflicts(t, account, env, symbols, bot, now);
            && (!Acquirable(t, k, bot, now) <==>
                  k in reported || (k in t && t[k].owner != bot && t[k].heartbeatAt == now - 3_600_000_000))
            && (k in reported ==> reported[k] == t[k].owner)
  {
  }

  /** A heartbeat exactly one lease old: another bot is refused, and told of no conflict. */
  lemma EdgeIsRefusedButUnreported()
    ensures
      var k := Key("A", "live", "BTC");
      var t := map[k := Row("a", 0, 0, None, None, None, 0)];
      !Acquirable(t, k, "b", 3_600_000_000) && Conflicts(t, "A", "live", ["BTC"], "b", 3_600_000_000) == map[]
  {
    assert "a" != "b" by { assert "a"[0] != "b"[0]; }
  }

  /** One request for a held and a free symbol: the free one is granted although the held one is refused. */
  lemma PartOfRequestIsGranted()
    ensures
      var held, free := Key("A", "live", "BTC"), Key("A", "live", "ETH");
      var t := map[held := Row("a", 0, 0, None, None, None, 0)];
      var t' := AcquireAll(t, "A", "live", ["BTC", "ETH"], "b", 0);
      held in t' && free in t' && t'[held].owner == "a" && t'[free].owner == "b"
  {
    var symbols := ["BTC", "ETH"];
    var held, free := Key("A", "live", "BTC"), Key("A", "live", "ETH");
    var t := map[held := Row("a", 0, 0, None, None, None, 0)];
    assert "a"[0] != "b"[0] && "BTC"[0] != "ETH"[0];
    assert symbols[0] == "BTC" && symbols[1] == "ETH";
    AcquireAllAt(t, "A", "live", symbols, "b", 0, held);
    AcquireAllAt(t, "A", "live", symbols, "b", 0, free);
  }
}
