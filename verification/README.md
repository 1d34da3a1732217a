# Models of the trading platform's bookkeeping, feed and lease logic

A Dafny project that models the stateful cores of the platform and proves what they keep over whole
runs. `dafny verify dfyconfig.toml` checks it.

- **Position accounting** (`Fills`, `Ledger`, `Closes`, `EndToEnd`): executions are folded into one
  record per order; an average-cost position machine then replays each symbol's orders and books gross
  and net profit on every order that closes. The main results are conservation laws over arbitrary
  runs: gross profit is cash flow plus book value, fees are conserved, and, end to end, the profits
  found in the updates map are the cash flow of the raw executions.
- **Order book and feed** (`OrderBook`, `FeedControl`, `Canon`, `Backoff`, `MarketData`): merging of
  snapshots and deltas with a held last good book, pruning, crossed streaks, resync cooldown, canonical
  timestamps, failure windows and the backoff mode. The stored book is characterised exactly as the
  surviving part of a plain replay of the accepted updates.
- **Symbol leases** (`SymbolLocks`): acquire, heartbeat, release, cleanup and the pre-start check;
  exclusivity and retention over all runs.
- **Rate limiter** (`RateLimit`): the pruned per-address list decides as the full history would.
- **Smaller cores**: partial closes (`Positions`), one-pass drawdown (`Drawdown`), the paged pending
  scan (`PendingScan`) and symbol names (`SymbolNames`).

`Wrappers`, `RealMath`, `Sums`, `Filters`, `Groups` and `Runs` hold shared definitions. A run is a
sequence of events given to a step function; run functions recurse on the last event, so each theorem
about a run is one about every prefix of it. Code that updates state in place is a method or a class
method whose postcondition gives the whole new state as a function of the old one; the theorems are
about those functions. Prices, quantities, fees and clock readings in seconds are reals; microsecond
and millisecond stamps are integers.

## Findings

- Fees. The two clamps at zero discard a negative fee (a rebate). `Ledger.FeesConservedIff` shows that
  fees are conserved exactly when no clamp bites, and `Ledger.RebateIsLost` gives an input where one does.
  For a symbol that ends flat, net profit is then cash flow minus fees, and otherwise not
  (`Ledger.FlatNetIff`, and over the raw executions `EndToEnd.ProfitIsCashFlow`).
- Dust. A close that leaves less than 1e-12 drops the remainder (`Ledger.RemainderIsDropped`).
  `Ledger.DustIsSmall` bounds what that is worth; `Ledger.GridIsExact` shows nothing is dropped when
  quantities lie on a grid of at least 1e-12.
- Symbol names. `normalizeSymbol` replaces one slash only, so it is idempotent exactly on blank input
  and on input with at most one slash (`SymbolNames.NormalizeIdempotentIff`).
- Crossed streak. The comment at market-data-service/app.py:549 says the streak is cleared on healthy
  updates; the code clears it only when a side is empty. The docstring at lines 437-438 speaks of
  resetting a crossed book; the code holds the last good one. The model follows the code:
  `FeedControl.StreakDroppedIff` says when a streak is dropped, and `FeedControl.HealthyUpdateKeepsStreak`
  gives a feed whose healthy update leaves it standing.
- Book repair. The branch that repairs a crossed held book (lines 537-546) and the final crossed check
  (lines 755-779) are never taken: every stored book is good, with no assumption on prices.
- Zero ask. A crossing candidate whose best ask is zero makes line 490 divide by zero. The update then
  changes no book, streak, mark or stamp, and the publish loop records a failure (line 1082). The model
  has this outcome (`FeedControl.Raises`, `MarketData.Service.PublishUpdate`, `MarketData.Service.PublishTurn`).
- Resync mode. A resync overwrites the mode (lines 982, 994, 998) while the backoff deadline may still
  lie ahead, and the guard at line 961 then lets the next failure enter again and move the deadline.
  `Backoff.ResyncHidesBackoff` is a run of two events that ends so; lines 1046-1065 record a failure and
  start a resync at once. The exact conditions are `Backoff.InBackoffIff`, which decides the mode at every
  point of every run, and `Backoff.DeadlineAheadIff`, which does so while the deadline lies ahead of the ticks.
- Leases. `acquireMany` grants the free symbols of a request even when others are refused
  (`SymbolLocks.PartOfRequestIsGranted`). A heartbeat exactly one lease old is refused by `acquireMany` but
  not reported by `getConflicts` (`SymbolLocks.EdgeIsRefusedButUnreported`); nothing else is
  (`SymbolLocks.RefusedIffReportedOrOnTheEdge`).

## Model

| member | source | states |
|---|---|---|
| Fills.AggregateByOrder | scripts/override_exchange_trades.py:133-171 | the dictionary has one record per non-empty order id, in order of first appearance, each the fold of exactly that order's executions, with its average price; each record accounts for those executions field by field |
| Fills.PriceAll | scripts/override_exchange_trades.py:168-170 | the closing loop prices every record and changes nothing else |
| Fills.OrderTotals | scripts/override_exchange_trades.py:153-160 | amount, fee, exec PnL and notional of a record are the sums over the order's executions |
| Fills.OrderLabels | scripts/override_exchange_trades.py:141-167 | side and client id come from the first execution that has one; the timestamp is the latest present |
| Fills.RecordsMeaning | scripts/override_exchange_trades.py:133-171 | each record has its id, the sums over exactly the executions with that id, their first symbol, side and client id, their latest timestamp, and the price at which its amount is worth its notional (none for a zero amount); records come in order of first appearance |
| Groups.GroupingConserves | scripts/override_exchange_trades.py:134-160 | any per-execution quantity totals the same over orders as over executions that carry an order id |
| Groups.KeysInOrder | scripts/override_exchange_trades.py:134-152 | of two keys, the one listed first has an element before any element of the other |
| Ledger.IsBuyIff | scripts/override_exchange_trades.py:191-197 | a side buys exactly when it is spelt buy in any mixture of cases |
| Ledger.AcceptedIff | scripts/override_exchange_trades.py:192-196 | an order is replayed exactly when it has a positive quantity and a positive average price |
| Ledger.GrossStep | scripts/override_exchange_trades.py:195-240 | one order books the cash it brings plus the change of the position's book value, plus any dust dropped, in every case: open, add, partial, full, flip |
| Ledger.GrossIsCashPlusBookValue | scripts/override_exchange_trades.py:184-240 | after every prefix, total gross profit is total cash flow plus size times average price, plus dust |
| Ledger.SizeIsSignedSum | scripts/override_exchange_trades.py:187-240 | the position is the running signed sum up to dust, and size zero means no price and no fee is carried |
| Ledger.AverageWithinBuilders | scripts/override_exchange_trades.py:198-240 | the average price of an open position lies between the lowest and highest price that built it |
| Ledger.BuildersArePrices | scripts/override_exchange_trades.py:192-201 | every price that built the position is that of an accepted order of the run |
| Ledger.DustIsSmall | scripts/override_exchange_trades.py:226-231 | dust dropped over a run is at most 1e-12 per inexact snap, and worth at most 1e-12 times the highest price per inexact snap |
| Ledger.GridIsExact | scripts/override_exchange_trades.py:226-231 | with all quantities multiples of a step of at least 1e-12, no snap drops anything and the position stays on the grid |
| Ledger.EndsFlatIff | scripts/override_exchange_trades.py:226-231 | a close ends flat exactly when less than 1e-12 would remain, long or short |
| Ledger.RemainderIsDropped | scripts/override_exchange_trades.py:227-231 | a concrete run whose close leaves half of 1e-12 and ends flat, so that the position is not the signed sum |
| Ledger.ExactGross | scripts/override_exchange_trades.py:184-240 | with no dust, gross profit is exactly cash plus book value and the position exactly the signed sum |
| Ledger.CloseIsProRata | scripts/override_exchange_trades.py:211-224 | a close takes the smaller of the order and the position and is booked at the order's price; its exit fee is the order's fee in proportion to the quantity closed, its entry fee the carried fee in proportion to the part closed; net is gross less both |
| Ledger.PartialKeepsUnitCost | scripts/override_exchange_trades.py:226-240 | what a partial close leaves keeps its average price, and its fee per unit; a negative fee is forgotten |
| Ledger.FlipOpensAtUnitCost | scripts/override_exchange_trades.py:233-238 | a flip opens on the other side at the order's own price and fee per unit; a negative fee is forgotten |
| Ledger.FeeStep | scripts/override_exchange_trades.py:198-240 | in one step, fees charged plus the change of fees carried are the order's fee plus what a clamp adds less what a snap drops; the clamp adds nothing exactly when it does not bite |
| Ledger.FeesBalance | scripts/override_exchange_trades.py:198-240 | the same balance over every prefix of every run |
| Ledger.FeesConservedIff | scripts/override_exchange_trades.py:227-238 | with no dust, fees charged plus fees carried equal fees paid if and only if no clamp bites anywhere in the run, for fees of any sign |
| Ledger.RebateIsLost | scripts/override_exchange_trades.py:227 | a concrete run with a rebate on entry in which fees are not conserved |
| Ledger.NonNegativeFeesAreUnclamped | scripts/override_exchange_trades.py:227-238 | with non-negative fees no clamp ever bites |
| Ledger.FeesConserved | scripts/override_exchange_trades.py:198-240 | with non-negative fees and no dust, fees charged plus fees carried equal fees paid, across flips |
| Ledger.FlatGrossIsCash | scripts/override_exchange_trades.py:184-240 | a symbol that ends flat has gross profit equal to its cash flow |
| Ledger.FlatCostIff | scripts/override_exchange_trades.py:198-240 | a symbol that ends flat has been charged exactly its fees if and only if no clamp bites |
| Ledger.FlatNetIff | scripts/override_exchange_trades.py:184-240 | a symbol that ends flat has net profit equal to its cash flow minus all its fees if and only if no clamp bites, for fees of any sign |
| Ledger.FlatNetIsCashMinusFees | scripts/override_exchange_trades.py:198-240 | the case of non-negative fees, where the equality always holds |
| Closes.SortIsStable | scripts/override_exchange_trades.py:185-186 | the replay order is a permutation in time order in which equal times keep their order |
| Closes.ReplayIsInTime | scripts/override_exchange_trades.py:179-190 | the orders replayed for a symbol are exactly its orders, each as often as given, by execution time with a missing time as zero, and by arrival where times are equal |
| Closes.BucketBySymbol | scripts/override_exchange_trades.py:179-182 | orders are bucketed by symbol, keeping order, a missing symbol counting as the empty one |
| Closes.ApplyEntry | scripts/override_exchange_trades.py:191-240 | the loop body moves the position by one step of the machine and records the close it makes, if any |
| Closes.AddEntry | scripts/override_exchange_trades.py:204-209 | the adding branch leaves the machine's position, with its weighted average price |
| Closes.CloseEntry | scripts/override_exchange_trades.py:211-240 | the closing branch books the machine's update and leaves the machine's remaining position |
| Closes.ReplaySymbol | scripts/override_exchange_trades.py:187-240 | replaying a symbol adds exactly the updates of its run |
| Closes.DeriveCloseUpdates | scripts/override_exchange_trades.py:174-241 | the result is the updates of every symbol's time-ordered run; for distinct ids, each order has an update exactly when it closes the position that the symbol's earlier orders leave, and no other update exists |
| Closes.NoCloseIsLost | scripts/override_exchange_trades.py:183-241 | for orders with distinct ids, the final map has an update for exactly the orders that close, each the one its own run booked |
| Closes.UpdateFollowsTime | scripts/override_exchange_trades.py:183-224 | an order has an update exactly when it closes the position left by the orders of its symbol that were executed before it, or at its time and arrived before it; and the update is that close |
| Closes.UpdatesFollowTime | scripts/override_exchange_trades.py:183-224 | the same for all orders at once, and every update is some order's |
| EndToEnd.RunAgainstFills | scripts/override_exchange_trades.py:133-197 | cash, signed quantity and fees of a symbol's run are those of its raw executions, whatever the other symbols' executions are |
| EndToEnd.GridRunIsExact | scripts/override_exchange_trades.py:157-231 | when the executions of a symbol's orders lie on a grid, its run drops no dust |
| EndToEnd.UpdatesHoldRun | scripts/override_exchange_trades.py:183-224 | the gross and net profits read back from the map for a symbol's orders total what its run booked |
| EndToEnd.ProfitBalance | scripts/override_exchange_trades.py:133-241 | aggregate then derive, on executions uniform within the symbol's orders: gross profits in the map total the raw cash flow plus the book value still open, plus dust |
| EndToEnd.ProfitIsCashFlow | scripts/override_exchange_trades.py:133-241 | aggregate then derive: for a symbol whose executions net to zero, gross profits in the map total the raw cash flow; net profits total the cash flow minus the fees if and only if no clamp bites |
| EndToEnd.NonNegativeFillFees | scripts/override_exchange_trades.py:154-238 | executions without negative fees give a run in which no clamp bites |
| EndToEnd.DerivedFollowsTime | scripts/override_exchange_trades.py:133-241 | the updates derived from any executions follow the execution times of their orders |
| EndToEnd.DeriveFromExecutions | scripts/override_exchange_trades.py:414-415 | the two steps composed give the updates the theorems above are about |
| OrderBook.CrossedIff | market-data-service/app.py:484-488 | a book counts as crossed exactly when some bid is higher than some ask |
| OrderBook.LastSizeIsLast | market-data-service/app.py:453-480 | the size an update names for a price is that of its last entry for it, and there is none exactly when it has no such entry |
| OrderBook.ApplyAt | market-data-service/app.py:453-480 | an update decides each price it names by its last entry, size zero removing it in a delta but not in a snapshot; a snapshot drops every other price, a delta keeps it |
| OrderBook.InBandIff | market-data-service/app.py:556-570 | with highest bid bb and lowest ask ba, a bid p is within the band exactly when 100 (bb - p) <= bb + ba and an ask p exactly when 100 (p - ba) <= bb + ba, or 2 ba in place of bb + ba when bb is zero |
| OrderBook.PruneMeaning | market-data-service/app.py:556-570 | pruning keeps exactly those levels of a two-sided book, with their sizes, and leaves any other book alone |
| OrderBook.RepairMeaning | market-data-service/app.py:537-546 | the repair of a held book that is crossed would keep exactly the bids below and the asks above the midpoint |
| OrderBook.PruneKeepsBest | market-data-service/app.py:556-570 | pruning keeps both best prices, unless mid is negative, when it empties the book |
| OrderBook.PruneIdempotent | market-data-service/app.py:556-570 | pruning a good book changes nothing |
| OrderBook.MergeIsGood | market-data-service/app.py:482-573 | a merge into a good book gives a good book, and the repair of the held book changes nothing |
| OrderBook.CrossingUpdateIsHeld | market-data-service/app.py:484-573 | an update that would cross the book leaves the stored book exactly as it was |
| OrderBook.MergeMeaning | market-data-service/app.py:449-573 | an update of a good book leaves it as it was if some resulting bid would be above some resulting ask, and otherwise gives the result without the levels outside the band |
| OrderBook.ReachableBooksAreGood | market-data-service/app.py:449-573 | after any updates, the stored book has an empty side, or is uncrossed with every level in the band of its best price |
| OrderBook.ReachableBooksAreTight | market-data-service/app.py:449-573 | after any updates no stored bid is above a stored ask, and in a two-sided book every bid p has 100 (bb - p) <= bb + ba and every ask p has 100 (p - ba) <= bb + ba, or 2 ba in place of bb + ba when bb is zero |
| OrderBook.SurvivesStep | market-data-service/app.py:556-573 | survival of a level, one update at a time |
| OrderBook.StoredIsSurvivingReplay | market-data-service/app.py:453-573 | a price is stored if and only if plain replay of the accepted updates has it and it stayed in the band at every two-sided step since some write; and then with the replay's size |
| OrderBook.SortedMeaning | market-data-service/app.py:588-589 | the sorted list has exactly the side's levels, strictly best first |
| OrderBook.EmittedMeaning | market-data-service/app.py:575-591 | the emitted list is exactly the best min(top_n, size) levels, strictly ordered, and a smaller top_n gives a prefix |
| OrderBook.EmittedIsUncrossed | market-data-service/app.py:755-760 | the emitted lists of a good book are not crossed |
| FeedControl.RaisesIff | market-data-service/app.py:484-490 | the merge raises exactly when zero is the lowest ask and some bid is above it |
| FeedControl.BookOfFeed | market-data-service/app.py:697-724 | a feed's book is the merge of its updates without the stale deltas; an update that raises leaves the book as its merge would |
| FeedControl.StreakIsLongestRun | market-data-service/app.py:484-552 | the crossed count is the length of the longest run of crossings ending now with gaps within the window, uninterrupted by a one-sided merge; updates that raise at line 490 neither count nor interrupt |
| FeedControl.StreakDroppedIff | market-data-service/app.py:484-552 | a standing streak is dropped exactly by a one-sided candidate |
| FeedControl.HealthyUpdateKeepsStreak | market-data-service/app.py:484-552 | a concrete feed in which a healthy update after a crossing one leaves the streak standing |
| FeedControl.RequestIff | market-data-service/app.py:499-745 | a resync is requested exactly when the update is a snapshot, unstamped, unlimited in age or no older than the limit, does not raise and is crossing, that run has reached the threshold, and the last request is at least the cooldown ago |
| FeedControl.RequestsAreSpaced | market-data-service/app.py:726-745 | any two requests of one symbol are at least the cooldown apart |
| Canon.StampsAreLeast | market-data-service/app.py:419-428 | canonical stamps are the least strictly increasing integer sequence that dominates the receive times |
| Canon.StampIsMaximum | market-data-service/app.py:419-428 | stamp n is the maximum over i <= n of recv_i + (n - i) |
| Backoff.StoredFailuresAreWindowed | market-data-service/app.py:941-945 | the pruned list is what the full failure history holds inside the window of the latest failure, also when ticks carry older clock readings than the failures before them |
| Backoff.BackoffEnteredIff | market-data-service/app.py:939-963 | backoff is entered exactly when the full history holds the trigger count inside the window and the mode is not already backoff |
| Backoff.TickModeIff | market-data-service/app.py:1369-1375 | after a health tick the mode is backoff if and only if the deadline lies beyond the tick |
| Backoff.BackoffHolds | market-data-service/app.py:960-998 | from an entry on, every tick within the duration finds backoff, whatever resyncs happen in between |
| Backoff.TickInBackoffIff | market-data-service/app.py:960-1375 | a tick finds backoff exactly when some entry is less than the duration ago |
| Backoff.InBackoffIff | market-data-service/app.py:939-1375 | at every point of every run, on any clock, the mode is backoff if and only if some failure or tick set it and no later event was a step of a resync or a tick past the deadline |
| Backoff.ResyncingIff | market-data-service/app.py:939-1375 | at every point of every run the mode is resyncing if and only if some resync started and since then none ended, no failure entered backoff and no tick came before the deadline; with the row above this decides all three modes |
| Backoff.DeadlineAheadIff | market-data-service/app.py:960-998 | while the deadline lies ahead of every tick, the mode is backoff if and only if no step of a resync came after an event that set it |
| Backoff.ResyncHidesBackoff | market-data-service/app.py:979-982 | a concrete run after which the deadline lies ahead and the mode is not backoff |
| MarketData.EmittedShows | market-data-service/app.py:575-591 | the emitted lists are the best levels of each side, 50 deep, 30 under the soft tier, and to the configured depth when compact or under the hard tier, and are not crossed |
| MarketData.Service.constructor | market-data-service/app.py:1518-1546 | the initial state: no books, no streaks, no failures, mode normal |
| MarketData.Service.NextCanonUs | market-data-service/app.py:419-428 | returns and stores the symbol's next stamp |
| MarketData.Service.MergeLevels | market-data-service/app.py:462-480 | the loop that applies a delta's levels to one side |
| MarketData.Service.ApplyUpdate | market-data-service/app.py:449-480 | snapshot replacement and delta merge of both sides |
| MarketData.Service.TrackCross | market-data-service/app.py:482-552 | the streak and the resync mark after a candidate book, other symbols untouched; raises, changing nothing, exactly on a crossing candidate whose best ask is zero |
| MarketData.Service.MergeOrderbookState | market-data-service/app.py:430-591 | the new stored book (what that is, MergeMeaning says), streak, resync mark and emitted lists; or nothing changes and there are no lists, exactly when the merge raises |
| MarketData.Service.TakeResyncMark | market-data-service/app.py:726-745 | takes the mark and honours it once the cooldown has passed |
| MarketData.Service.MergeFresh | market-data-service/app.py:724-745 | merge and resync decision as one step of the symbol's feed, with no lists exactly when the merge raises |
| MarketData.Service.PublishUpdate | market-data-service/app.py:697-796 | every outcome of an L2 update: a snapshot, an unstamped update or a delta within the age limit is never skipped as stale, and unless it raises the book becomes the merge; a delta over a positive limit is skipped and leaves feed and stamp; raised exactly when fresh and crossing a best ask of zero, with no change; resync exactly when requested; never dropped as crossed; otherwise published with the stored book's uncrossed top levels to the tier's depth and the next stamp; other symbols untouched |
| MarketData.Service.PublishTurn | market-data-service/app.py:1031-1084 | an update of the publish loop that raises leaves feed and stamp and is recorded as a failure; any other leaves the health state |
| MarketData.Service.RecordFailure | market-data-service/app.py:939-963 | keeps every occurrence of every failure time later than the window's start and no other; enters backoff exactly at the trigger count outside backoff, and then moves the deadline |
| MarketData.Service.ResyncStart | market-data-service/app.py:979-982 | enters resyncing unless already there |
| MarketData.Service.ResyncEnd | market-data-service/app.py:993-998 | leaves resyncing, recording the failure first if there was one |
| MarketData.Service.HealthTick | market-data-service/app.py:1369-1375 | backoff while the deadline lies ahead; afterwards normal if it was backoff, and otherwise unchanged |
| SymbolLocks.LockTable.AcquireMany | deeptrader-backend/models/SymbolLock.js:20-87 | symbol by symbol, granted exactly when there is no row, the row is the bot's, or its heartbeat is more than an hour old at the start; a refusal reports the owner; every row of the new table is given, field by field |
| SymbolLocks.AcquireAllAt | deeptrader-backend/models/SymbolLock.js:28-67 | what an attempt leaves in each row: a grant, one recorded conflict per refused occurrence, or nothing |
| SymbolLocks.AcquirableUnchanged | deeptrader-backend/models/SymbolLock.js:28-76 | earlier symbols of a request do not change the fate of later ones |
| SymbolLocks.LockTable.GetConflicts | deeptrader-backend/models/SymbolLock.js:173-186 | exactly the requested symbols of that account and environment that another bot holds with a heartbeat less than an hour old, with their owners |
| SymbolLocks.LockTable.ReleaseByBot | deeptrader-backend/models/SymbolLock.js:100-106 | deletes exactly the bot's rows |
| SymbolLocks.LockTable.ReleaseSymbols | deeptrader-backend/models/SymbolLock.js:111-119 | deletes exactly the bot's rows on the given symbols |
| SymbolLocks.LockTable.Heartbeat | deeptrader-backend/models/SymbolLock.js:191-200 | renews exactly the bot's rows, keeping their acquisition time, expiry and conflict fields |
| SymbolLocks.LockTable.CleanupExpired | deeptrader-backend/models/SymbolLock.js:205-213 | deletes exactly the rows past expiry or more than two hours without a heartbeat |
| SymbolLocks.StepAt | deeptrader-backend/models/SymbolLock.js:28-213 | what any one step can do to one row, in terms of who touched and who released it |
| SymbolLocks.ReachableHasNoExpiry | deeptrader-backend/models/SymbolLock.js:31-46 | no step sets an expiry, so no reachable row has one |
| SymbolLocks.RowIsLastTouch | deeptrader-backend/models/SymbolLock.js:28-213 | a row's heartbeat is when its owner last acquired or renewed it |
| SymbolLocks.HoldsIffRow | deeptrader-backend/models/SymbolLock.js:28-213 | a bot has acquired or renewed a lock within the last lease without releasing it if and only if the row is its own and within the lease |
| SymbolLocks.AtMostOneHolder | deeptrader-backend/models/SymbolLock.js:28-213 | at any time in any run, at most one bot holds a lock |
| SymbolLocks.RenewedLockIsKept | deeptrader-backend/models/SymbolLock.js:39-213 | a bot that renews at gaps of at most a lease keeps each lock until it releases it |
| SymbolLocks.CleanupIsInvisible | deeptrader-backend/models/SymbolLock.js:35-213 | running the cleanup first changes neither grants, nor reported owners, nor reported conflicts |
| SymbolLocks.CleanupThenAcquire | deeptrader-backend/models/SymbolLock.js:28-213 | nor who holds which requested lock, and since when, after the attempt |
| SymbolLocks.RefusedIffReportedOrOnTheEdge | deeptrader-backend/models/SymbolLock.js:35-182 | at one instant a requested symbol is refused exactly when it is reported as a conflict or its heartbeat is exactly one lease old |
| SymbolLocks.EdgeIsRefusedButUnreported | deeptrader-backend/models/SymbolLock.js:35-182 | a concrete row exactly one lease old that is refused and not reported |
| SymbolLocks.PartOfRequestIsGranted | deeptrader-backend/models/SymbolLock.js:28-87 | a concrete request of which the free symbol is granted and the held one refused |
| RateLimit.Limiter.Handle | deeptrader-backend/middleware/auth.js:110-144 | decides on the pruned list, stores it with the request when admitted, changes nothing at all when refused, leaves other keys alone |
| RateLimit.Limiter.Prune | deeptrader-backend/middleware/auth.js:123-124 | keeps every occurrence of every entry after the window's start and nothing else, in order |
| RateLimit.StoredAgreesWithHistory | deeptrader-backend/middleware/auth.js:120-141 | the stored list prunes to what the full admission history prunes to, and never exceeds the maximum |
| RateLimit.RefusedIffHistoryFull | deeptrader-backend/middleware/auth.js:124-136 | a request is refused exactly when the full admission history fills its window |
| RateLimit.EveryWindowIsBounded | deeptrader-backend/middleware/auth.js:117-141 | every half-open interval of the window's length holds at most maxRequests admissions |
| RateLimit.RetryAfterIsExact | deeptrader-backend/middleware/auth.js:127-136 | retryAfter is the whole-second ceiling of the exact delay after which the next request is admitted, and not before, while nothing else is admitted |
| RateLimit.ZeroMaximumRefusesAll | deeptrader-backend/middleware/auth.js:127-136 | with a maximum of zero every request is refused, and retryAfter is the whole-second ceiling of the window |
| Positions.Desk.Book | deeptrader-backend/models/Position.js:239-246 | adds to the portfolio's total, and to no other |
| Positions.Desk.UpdatePrice | deeptrader-backend/models/Position.js:143-191 | marks an open position with the price move since entry, signed by side, times its quantity, less its fees; a closed or missing one is left alone |
| Positions.Desk.Close | deeptrader-backend/models/Position.js:196-255 | closes an open position and books the price move since entry, signed by side, times its quantity, less its fees; otherwise an error and no change |
| Positions.Desk.PartialClose | deeptrader-backend/models/Position.js:260-318 | closes a part and books the signed price move times that part, with no fee, or the whole when the part is not smaller |
| Positions.QuantityIsConserved | deeptrader-backend/models/Position.js:273-300 | quantities closed plus the quantity remaining equal the opening quantity, after every prefix |
| Positions.BookedIsGrossLessFeesOnce | deeptrader-backend/models/Position.js:209-309 | amounts booked are the side-signed gross profits of the parts closed, less the fees once the position is closed |
| Positions.BookedIsPriceMove | deeptrader-backend/models/Position.js:209-309 | after every prefix a long has booked what the closed quantity fetched less what it cost at entry, a short the opposite, less the fees once closed |
| Positions.ClosedRunBooksEverything | deeptrader-backend/models/Position.js:196-318 | a run that ends closed has closed the opening quantity and booked, for a long, all proceeds less the entry cost and the fees once, and for a short the entry cost less all proceeds and the fees once |
| Positions.NothingAfterClose | deeptrader-backend/models/Position.js:197-205 | after the close nothing is booked or changed |
| Positions.ClosingKeepsWorth | deeptrader-backend/models/Position.js:143-309 | closing any part at a price moves profit to the portfolio without changing the position's worth at that price |
| Drawdown.MaxDrawdown | deeptrader-backend/models/Portfolio.js:364-378 | the one-pass loop returns the maximum over i <= j of P_i - P_j for the prefix sums P, P_0 = 0 |
| Drawdown.DrawdownStep | deeptrader-backend/models/Portfolio.js:374-377 | the largest fall up to a point is the largest before it or the fall to it from the peak |
| PendingScan.Scan | scripts/cleanup_stale_pending.py:131-158 | the paged scan ends after min(pending, max(1, max_scan)) entries with the stale ids of exactly those, in order |
| PendingScan.ReadPage | scripts/cleanup_stale_pending.py:143-158 | the inner loop reads at least one and at most all entries of the page, within the limit, and moves the cursor behind the last one read |
| PendingScan.StaleIdsMeaning | scripts/cleanup_stale_pending.py:155-156 | the ids found are exactly those idle long enough, strictly increasing, so none twice |
| PendingScan.PassedIsIndex | scripts/cleanup_stale_pending.py:135-154 | the exclusive cursor after an entry resumes exactly behind it |
| PendingScan.PageIsNext | scripts/cleanup_stale_pending.py:134-140 | a page is the next entries after the cursor, as many as asked for or as there are |
| PendingScan.Chunked | scripts/cleanup_stale_pending.py:25-27 | the chunks concatenate back to the list; all but the last have full size, none is empty |
| SymbolNames.ExchangeUndoesProfile | deeptrader-backend/routes/control.js:30-41 | BASE-QUOTE-SWAP becomes BASEQUOTE on every exchange but okx |
| SymbolNames.ProfileUndoesExchange | deeptrader-backend/models/UserTradeProfile.js:22-52 | BASEQUOTE becomes BASE-QUOTE-SWAP |
| SymbolNames.ForExchangeIdempotent | deeptrader-backend/routes/control.js:30-41 | the exchange normaliser is idempotent on all strings, for every exchange |
| SymbolNames.SpellingIsNormalized | deeptrader-backend/models/UserTradeProfile.js:27 | neither case nor surrounding blanks change the profile form |
| SymbolNames.PairIsNormalized | deeptrader-backend/models/UserTradeProfile.js:32-40 | BASE/QUOTE, BASE-QUOTE and BASE-QUOTE-SWAP all become BASE-QUOTE-SWAP, for any base and quote |
| SymbolNames.OtherNameIsNormalized | deeptrader-backend/models/UserTradeProfile.js:42-51 | a plain name without a listed quote behind a base becomes NAME-SWAP |
| SymbolNames.SpellingForExchange | deeptrader-backend/routes/control.js:34 | neither case nor what follows a colon changes the exchange form |
| SymbolNames.OkxForm | deeptrader-backend/routes/control.js:35-38 | on okx a pair becomes BASE-QUOTE-SWAP, one that has the suffix keeps it, and a name without a dash stays |
| SymbolNames.OtherExchangeForm | deeptrader-backend/routes/control.js:39 | elsewhere a pair with any separator, contract suffix and -SWAP becomes BASEQUOTE |
| SymbolNames.NormalizedShape | deeptrader-backend/models/UserTradeProfile.js:27-51 | a symbol that is not blank becomes upper-case, ends in -SWAP and has one slash fewer, if it had any |
| SymbolNames.NormalizeIdempotentIff | deeptrader-backend/models/UserTradeProfile.js:22-52 | the profile normaliser is idempotent if and only if the input is blank or has at most one slash |
| SymbolNames.TwoSlashesAreNotIdempotent | deeptrader-backend/models/UserTradeProfile.js:32 | a concrete symbol with two slashes on which it is not |

## Left out

- Floating-point rounding, NaN and infinities: prices, quantities, fees and seconds are real numbers.
- Redis, Postgres, WebSocket, HTTP, logging and configuration parsing: provider updates, clock readings, query rows and receive times are parameters.
- Database and transaction errors (`ROLLBACK` and the error answers): each query is modelled as one step that succeeds.
- EndToEnd.ProfitBalance: states the totals when the executions of each of the symbol's orders share side and symbol and have positive amounts and prices; orders the derivation skips carry cash flow that no close books. EndToEnd.ProfitIsCashFlow shares this.
- FeedControl.RequestsAreSpaced: needs a non-negative cooldown, but no assumption on the clock.
- MarketData.Service.PublishUpdate: models the L2 path up to the canonical stamp; the L1 tick, the published payload and the streams are not part of this model.
- MarketData.Service.MergeOrderbookState: takes the top-N setting as a natural number, where a negative setting would slice from the other end; the log throttles and counters are left out.
- MarketData.Service.PublishTurn: models the publish loop; an update that raises in the initial seeding or the periodic refresh is not recorded, and one inside a resync ends that resync as failed, which is MarketData.Service.ResyncEnd.
- MarketData.Service.ResyncStart: the awaits inside a resync are not modelled; start and end are separate steps that any other step may come between.
- SymbolLocks.LockTable.AcquireMany: row ids and the owner's display name, joined from another table, are left out.
- Positions.Desk.Close: the percentage columns and the portfolio's percentage are left out, since they divide by an entry price and a starting capital the code does not check.
- PendingScan.Scan: takes a pending list that does not change during the scan, ids as positions in id order, and a batch of at least 1; the number of ids the server acknowledges is left out.
- RateLimit.Limiter.Handle: one window and one maximum per store, as in the program's single use of it; how the key is taken from the request is left out.
- SymbolNames.NormalizeSymbol: case mapping and trimming are those of ASCII text; missing and non-string symbols, which are passed through, are left out.
- The rest of the portfolio metrics, position margin ratios, order overrides and inserts, and all other routes and scripts.
