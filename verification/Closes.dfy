/** Deriving the close updates of all symbols, and what the updates add up to. */
module Closes {
  import opened Wrappers
  import opened Sums
  import opened RealMath
  import opened Groups
  import opened Fills
  import opened Ledger

  // ---------- The stable sort by execution time ----------

  /** A missing time sorts as zero. */
  function Time(o: Order): real { if o.maxTs.Some? then o.maxTs.value else 0.0 }

  function Insert(s: seq<Order>, o: Order): seq<Order> {
    if s == [] || Time(s[|s| - 1]) <= Time(o) then s + [o]
    else Insert(s[..|s| - 1], o) + [s[|s| - 1]]
  }

  function SortByTime(s: seq<Order>): seq<Order> {
    if s == [] then [] else Insert(SortByTime(s[..|s| - 1]), s[|s| - 1])
  }

  ghost predicate Sorted(s: seq<Order>) { forall i, j :: 0 <= i < j < |s| ==> Time(s[i]) <= Time(s[j]) }

  function TimeOf(o: Order): Option<real> { Some(Time(o)) }

  lemma {:induction false} InsertPermutes(s: seq<Order>, o: Order)
    ensures multiset(Insert(s, o)) == multiset(s) + multiset{o}
  {
    if s != [] && Time(s[|s| - 1]) > Time(o) {
      InsertPermutes(s[..|s| - 1], o);
      assert s == s[..|s| - 1] + [s[|s| - 1]];
    }
  }

  ghost predicate NoneAfter(s: seq<Order>, t: real) { forall i :: 0 <= i < |s| ==> Time(s[i]) <= t }

  lemma {:induction false} InsertBounded(s: seq<Order>, o: Order, t: real)
    requires NoneAfter(s, t) && Time(o) <= t
    ensures NoneAfter(Insert(s, o), t)
  {
    if s != [] && Time(s[|s| - 1]) > Time(o) {
      InsertBounded(s[..|s| - 1], o, t);
    }
  }

  lemma {:induction false} InsertSorts(s: seq<Order>, o: Order)
    requires Sorted(s)
    ensures Sorted(Insert(s, o))
  {
    if s != [] && Time(s[|s| - 1]) > Time(o) {
      InsertSorts(s[..|s| - 1], o);
      InsertBounded(s[..|s| - 1], o, Time(s[|s| - 1]));
    }
  }

  lemma {:induction false} InsertKeepsTies(s: seq<Order>, o: Order, t: real)
    ensures Select(Insert(s, o), TimeOf, t) == Select(s + [o], TimeOf, t)
  {
    if s != [] && Time(s[|s| - 1]) > Time(o) {
      var n := |s| - 1;
      var before, last := s[..n], s[n];
      assert s == before + [last];
      InsertKeepsTies(before, o, t);
      GroupStep(Insert(before, o), last, TimeOf, t);
      GroupStep(before, o, TimeOf, t);
      GroupStep(before, last, TimeOf, t);
      GroupStep(s, o, TimeOf, t);
    }
  }

  /** Sorting gives a permutation in time order that keeps the order of equal times. */
  lemma {:induction false} SortIsStable(s: seq<Order>, t: real)
    ensures Sorted(SortByTime(s))
    ensures multiset(SortByTime(s)) == multiset(s)
    ensures Select(SortByTime(s), TimeOf, t) == Select(s, TimeOf, t)
  {
    if s != [] {
      var before, o := s[..|s| - 1], s[|s| - 1];
      SortIsStable(before, t);
      InsertPermutes(SortByTime(before), o);
      InsertSorts(SortByTime(before), o);
      InsertKeepsTies(SortByTime(before), o, t);
      GroupStep(before, o, TimeOf, t);
      GroupStep(SortByTime(before), o, TimeOf, t);
      assert s == before + [o];
    }
  }

  lemma {:induction false} SumInserted(s: seq<Order>, o: Order, v: Order -> real)
    ensures Sum(Insert(s, o), v) == Sum(s, v) + v(o)
  {
    if s == [] || Time(s[|s| - 1]) <= Time(o) {
      SumAppend(s, o, v);
    } else {
      SumInserted(s[..|s| - 1], o, v);
      SumAppend(Insert(s[..|s| - 1], o), s[|s| - 1], v);
    }
  }

  lemma {:induction false} SumSorted(s: seq<Order>, v: Order -> real)
    ensures Sum(SortByTime(s), v) == Sum(s, v)
  {
    if s != [] {
      SumSorted(s[..|s| - 1], v);
      SumInserted(SortByTime(s[..|s| - 1]), s[|s| - 1], v);
    }
  }

  // ---------- The updates ----------

  /** Every order has a symbol key; a missing symbol is the key "". */
  function SymbolOf(o: Order): Option<string> { Some(o.symbol) }

  /** The orders the position machine replays for one symbol. */
  function EntriesOf(orders: seq<Order>, symbol: string): seq<Order> {
    SortByTime(Select(orders, SymbolOf, symbol))
  }

  /** `m` with the update of `o`, if it closes any of `p`. */
  function CloseAdding(m: map<string, CloseUpdate>, p: Pos, o: Order): map<string, CloseUpdate> {
    if Ledger.Closes(p, o) then m[o.orderId := CloseOf(p, o)] else m
  }

  /** `m` with the updates of every closing order of the run `es`. */
  function WithCloses(m: map<string, CloseUpdate>, es: seq<Order>): map<string, CloseUpdate> {
    if es == [] then m
    else
      var before := es[..|es| - 1];
      CloseAdding(WithCloses(m, before), PosAfter(before), es[|es| - 1])
  }

  function UpdatesOver(orders: seq<Order>, symbols: seq<string>): map<string, CloseUpdate> {
    if symbols == [] then map[]
    else
      var n := |symbols| - 1;
      WithCloses(UpdatesOver(orders, symbols[..n]), EntriesOf(orders, symbols[n]))
  }

  /** One pass of the position machine's loop body. */
  method ApplyEntry(posSize: real, posAvg: real, posFee: real, entry: Order, updates: map<string, CloseUpdate>)
    returns (posSize': real, posAvg': real, posFee': real, updates': map<string, CloseUpdate>)
    ensures Pos(posSize', posAvg', posFee') == After(Pos(posSize, posAvg, posFee), entry)
    ensures updates' == CloseAdding(updates, Pos(posSize, posAvg, posFee), entry)
  {
    posSize', posAvg', posFee', updates' := posSize, posAvg, posFee, updates;
    var qty, price := entry.amount, if entry.avgPrice.Some? then entry.avgPrice.value else 0.0;
    if qty <= 0.0 || price <= 0.0 {
      return;
    }
    var signedQty := if Lower(entry.side) == "buy" then qty else -qty;
    if posSize == 0.0 {
      return signedQty, price, entry.fee, updates;
    }
    if (posSize > 0.0 && signedQty > 0.0) || (posSize < 0.0 && signedQty < 0.0) {
      posSize', posAvg', posFee' := AddEntry(posSize, posAvg, posFee, entry, signedQty, price);
      return;
    }
    var update;
    posSize', posAvg', posFee', update := CloseEntry(posSize, posAvg, posFee, entry, signedQty, price);
    updates' := updates[entry.orderId := update];
  }

  /** The adding part of the loop body: the average price moves towards the order's. */
  method AddEntry(posSize: real, posAvg: real, posFee: real, entry: Order, signedQty: real, price: real)
    returns (posSize': real, posAvg': real, posFee': real)
    requires Ledger.Accepted(entry) && SameDirection(Pos(posSize, posAvg, posFee), entry)
    requires signedQty == Signed(entry) && price == Price(entry)
    ensures Pos(posSize', posAvg', posFee') == After(Pos(posSize, posAvg, posFee), entry)
  {
    var qty := entry.amount;
    var newSize := posSize + signedQty;
    posAvg' := posAvg;
    if newSize != 0.0 {
      posAvg' := (Abs(posSize) * posAvg + qty * price) / Abs(newSize);
    }
    posSize', posFee' := newSize, posFee + entry.fee;
  }

  /** The closing part of the loop body: the update, then the position that remains. */
  method CloseEntry(posSize: real, posAvg: real, posFee: real, entry: Order, signedQty: real, price: real)
    returns (posSize': real, posAvg': real, posFee': real, update: CloseUpdate)
    requires Ledger.Closes(Pos(posSize, posAvg, posFee), entry)
    requires signedQty == Signed(entry) && price == Price(entry)
    ensures Pos(posSize', posAvg', posFee') == After(Pos(posSize, posAvg, posFee), entry)
    ensures update == CloseOf(Pos(posSize, posAvg, posFee), entry)
  {
    ghost var p := Pos(posSize, posAvg, posFee);
    var closeQty := Min(Abs(posSize), Abs(signedQty));
    var grossPnl := if posSize > 0.0 then (price - posAvg) * closeQty else (posAvg - price) * closeQty;
    var exitFee := entry.fee * (closeQty / Abs(signedQty));
    var entryFeeAlloc := posFee * (closeQty / Abs(posSize));
    assert grossPnl == Gross(p, entry) && exitFee == ExitFee(p, entry) && entryFeeAlloc == EntryFee(p, entry);
    var netPnl := grossPnl - exitFee - entryFeeAlloc;
    update := CloseUpdate(price, grossPnl, netPnl, netPnl);
    var remaining := posSize + signedQty;
    posSize', posAvg', posFee' := posSize, posAvg, Max(posFee - entryFeeAlloc, 0.0);
    if Abs(remaining) < DUST {
      posSize', posAvg', posFee' := 0.0, 0.0, 0.0;
    } else if Abs(signedQty) > Abs(posSize) {
      posSize', posAvg', posFee' := remaining, price, Max(entry.fee - exitFee, 0.0);
    } else {
      posSize' := remaining;
    }
  }

  /** Derives the close updates of every symbol. `orders` is the aggregation's values in insertion order. */
  method DeriveCloseUpdates(orders: seq<Order>) returns (updates: map<string, CloseUpdate>)
    ensures updates == UpdatesOver(orders, Keys(orders, SymbolOf))
    ensures DistinctIds(orders) ==> FollowsTime(orders, updates)
  {
    var symbols, bySymbol := BucketBySymbol(orders);
    updates := map[];
    for k := 0 to |symbols|
      invariant updates == UpdatesOver(orders, symbols[..k])
    {
      assert symbols[..k + 1][..k] == symbols[..k];
      updates := ReplaySymbol(SortByTime(bySymbol[symbols[k]]), updates);
    }
    assert symbols[..|symbols|] == symbols;
    if DistinctIds(orders) {
      UpdatesFollowTime(orders);
    }
  }

  method ReplaySymbol(entries: seq<Order>, updates: map<string, CloseUpdate>)
    returns (updates': map<string, CloseUpdate>)
    ensures updates' == WithCloses(updates, entries)
  {
    updates' := updates;
    var posSize, posAvg, posFee := 0.0, 0.0, 0.0;
    for i := 0 to |entries|
      invariant Pos(posSize, posAvg, posFee) == PosAfter(entries[..i])
      invariant updates' == WithCloses(updates, entries[..i])
    {
      assert entries[..i + 1][..i] == entries[..i];
      posSize, posAvg, posFee, updates' := ApplyEntry(posSize, posAvg, posFee, entries[i], updates');
    }
    assert entries[..|entries|] == entries;
  }

  ghost predicate Bucketed(orders: seq<Order>, bySymbol: map<string, seq<Order>>) {
    && (forall k :: k in bySymbol <==> k in Keys(orders, SymbolOf))
    && (forall k :: k in bySymbol ==> bySymbol[k] == Select(orders, SymbolOf, k))
  }

  method BucketBySymbol(orders: seq<Order>) returns (symbols: seq<string>, bySymbol: map<string, seq<Order>>)
    ensures symbols == Keys(orders, SymbolOf)
    ensures Bucketed(orders, bySymbol)
  {
    symbols, bySymbol := [], map[];
    for n := 0 to |orders|
      invariant symbols == Keys(orders[..n], SymbolOf)
      invariant Bucketed(orders[..n], bySymbol)
    {
      var entry := orders[n];
      BucketStep(orders[..n], entry, bySymbol);
      assert orders[..n + 1] == orders[..n] + [entry];
      if entry.symbol !in bySymbol {
        symbols := symbols + [entry.symbol];
        bySymbol := bySymbol[entry.symbol := []];
      }
      bySymbol := bySymbol[entry.symbol := bySymbol[entry.symbol] + [entry]];
    }
    assert orders[..|orders|] == orders;
  }

  lemma BucketStep(orders: seq<Order>, o: Order, bySymbol: map<string, seq<Order>>)
    requires Bucketed(orders, bySymbol)
    ensures Keys(orders + [o], SymbolOf) ==
            if o.symbol in bySymbol then Keys(orders, SymbolOf) else Keys(orders, SymbolOf) + [o.symbol]
    ensures var bucket := if o.symbol in bySymbol then bySymbol[o.symbol] else [];
            Bucketed(orders + [o], bySymbol[o.symbol := bucket + [o]])
  {
    Members(orders, SymbolOf, o.symbol);
    forall k
      ensures Select(orders + [o], SymbolOf, k)
              == if o.symbol == k then Select(orders, SymbolOf, k) + [o] else Select(orders, SymbolOf, k)
    {
      GroupStep(orders, o, SymbolOf, k);
    }
    GroupStep(orders, o, SymbolOf, o.symbol);
  }

  // ---------- The order-keyed updates lose no close ----------

  ghost predicate DistinctIds(s: seq<Order>) {
    forall i, j :: 0 <= i < j < |s| ==> s[i].orderId != s[j].orderId
  }

  /** `m` has an update for exactly the orders of `es` that close, and it is the one the machine booked. */
  ghost predicate Booked(m: map<string, CloseUpdate>, es: seq<Order>) {
    forall n :: 0 <= n < |es| ==> BookedAt(m, PosAfter(es[..n]), es[n])
  }

  ghost predicate BookedAt(m: map<string, CloseUpdate>, p: Pos, o: Order) {
    && (o.orderId in m <==> Ledger.Closes(p, o))
    && (Ledger.Closes(p, o) ==> m[o.orderId] == CloseOf(p, o))
  }

  lemma {:induction false} WithClosesFrame(m: map<string, CloseUpdate>, es: seq<Order>, id: string)
    requires forall o :: o in es ==> o.orderId != id
    ensures id in WithCloses(m, es) <==> id in m
    ensures id in m ==> WithCloses(m, es)[id] == m[id]
  {
    if es != [] {
      assert es[|es| - 1] in es && forall o :: o in es[..|es| - 1] ==> o in es;
      WithClosesFrame(m, es[..|es| - 1], id);
    }
  }

  lemma {:induction false} WithClosesBooks(m: map<string, CloseUpdate>, es: seq<Order>)
    requires DistinctIds(es) && forall o :: o in es ==> o.orderId !in m
    ensures Booked(WithCloses(m, es), es)
  {
    if es != [] {
      var before, o := es[..|es| - 1], es[|es| - 1];
      assert o in es && forall b :: b in before ==> b in es && b.orderId != o.orderId;
      WithClosesBooks(m, before);
      WithClosesFrame(m, before, o.orderId);
      CloseAdded(WithCloses(m, before), PosAfter(before), o);
      BookLast(WithCloses(m, before), CloseAdding(WithCloses(m, before), PosAfter(before), o), es);
    }
  }

  lemma CloseAdded(m: map<string, CloseUpdate>, p: Pos, o: Order)
    requires o.orderId !in m
    ensures BookedAt(CloseAdding(m, p, o), p, o)
    ensures forall id :: id != o.orderId ==>
              (id in m <==> id in CloseAdding(m, p, o)) && (id in m ==> m[id] == CloseAdding(m, p, o)[id])
  {
  }

  lemma BookLast(m: map<string, CloseUpdate>, m': map<string, CloseUpdate>, es: seq<Order>)
    requires es != [] && Booked(m, es[..|es| - 1])
    requires forall id :: id != es[|es| - 1].orderId ==> (id in m <==> id in m') && (id in m ==> m[id] == m'[id])
    requires forall b :: b in es[..|es| - 1] ==> b.orderId != es[|es| - 1].orderId
    requires BookedAt(m', PosAfter(es[..|es| - 1]), es[|es| - 1])
    ensures Booked(m', es)
  {
    var before := es[..|es| - 1];
    forall n | 0 <= n < |es| ensures BookedAt(m', PosAfter(es[..n]), es[n]) {
      if n < |before| {
        assert es[..n] == before[..n] && before[n] in before;
        assert BookedAt(m, PosAfter(before[..n]), before[n]);
      } else {
        assert es[..n] == before;
      }
    }
  }

  lemma {:induction false} InsertKeepsDistinct(s: seq<Order>, o: Order)
    requires DistinctIds(s) && forall b :: b in s ==> b.orderId != o.orderId
    ensures DistinctIds(Insert(s, o))
  {
    if s != [] && Time(s[|s| - 1]) > Time(o) {
      var before, last := s[..|s| - 1], s[|s| - 1];
      assert last in s && forall b :: b in before ==> b in s && b.orderId != last.orderId;
      InsertKeepsDistinct(before, o);
      InsertPermutes(before, o);
      var r := Insert(before, o);
      forall i | 0 <= i < |r| ensures r[i].orderId != last.orderId {
        assert r[i] in multiset(r);
        assert r[i] in before || r[i] == o;
      }
    }
  }

  lemma {:induction false} SortKeepsDistinct(s: seq<Order>)
    requires DistinctIds(s)
    ensures DistinctIds(SortByTime(s))
  {
    if s != [] {
      var before, o := s[..|s| - 1], s[|s| - 1];
      SortKeepsDistinct(before);
      SortIsStable(before, 0.0);
      forall b | b in SortByTime(before) ensures b.orderId != o.orderId {
        assert b in multiset(SortByTime(before));
        assert b in before;
      }
      InsertKeepsDistinct(SortByTime(before), o);
    }
  }

  lemma {:induction false} SelectKeepsDistinct(orders: seq<Order>, symbol: string)
    requires DistinctIds(orders)
    ensures DistinctIds(Select(orders, SymbolOf, symbol))
  {
    if orders != [] {
      var before, o := orders[..|orders| - 1], orders[|orders| - 1];
      SelectKeepsDistinct(before, symbol);
      Members(before, SymbolOf, symbol);
      assert forall b :: b in Select(before, SymbolOf, symbol) ==> b in before && b.orderId != o.orderId;
    }
  }

  lemma EntriesMembers(orders: seq<Order>, symbol: string)
    ensures forall o :: o in EntriesOf(orders, symbol) <==> o in orders && o.symbol == symbol
  {
    var selected := Select(orders, SymbolOf, symbol);
    Members(orders, SymbolOf, symbol);
    SortIsStable(selected, 0.0);
    assert forall o :: o in EntriesOf(orders, symbol) <==> o in multiset(SortByTime(selected));
    assert forall o :: o in selected <==> o in multiset(selected);
  }

  /** Updates come from orders of the symbols processed. */
  lemma {:induction false} UpdatesComeFrom(orders: seq<Order>, symbols: seq<string>, id: string)
    requires forall o :: o in orders && o.symbol in symbols ==> o.orderId != id
    ensures id !in UpdatesOver(orders, symbols)
  {
    if symbols != [] {
      var n := |symbols| - 1;
      UpdatesComeFrom(orders, symbols[..n], id);
      EntriesMembers(orders, symbols[n]);
      WithClosesFrame(UpdatesOver(orders, symbols[..n]), EntriesOf(orders, symbols[n]), id);
    }
  }

  /** No close is lost or overwritten: every symbol's closes are all in the final map. */
  lemma {:induction false} NoCloseIsLost(orders: seq<Order>, symbols: seq<string>, symbol: string)
    requires DistinctIds(orders) && Distinct(symbols) && symbol in symbols
    ensures Booked(UpdatesOver(orders, symbols), EntriesOf(orders, symbol))
  {
    var n := |symbols| - 1;
    var last, before := symbols[n], UpdatesOver(orders, symbols[..n]);
    var es := EntriesOf(orders, symbol);
    EntriesMembers(orders, last);
    EntriesMembers(orders, symbol);
    if symbol == last {
      SelectKeepsDistinct(orders, last);
      SortKeepsDistinct(Select(orders, SymbolOf, last));
      forall o | o in es ensures o.orderId !in before {
        UpdatesComeFrom(orders, symbols[..n], o.orderId);
      }
      WithClosesBooks(before, es);
    } else {
      NoCloseIsLost(orders, symbols[..n], symbol);
      forall k | 0 <= k < |es| ensures BookedAt(UpdatesOver(orders, symbols), PosAfter(es[..k]), es[k]) {
        assert BookedAt(before, PosAfter(es[..k]), es[k]);
        assert es[k] in es;
        WithClosesFrame(before, EntriesOf(orders, last), es[k].orderId);
      }
    }
  }

  // ---------- The replay is in time order ----------

  /** `a` comes before `b` in `s`. */
  ghost predicate Arrives<T>(s: seq<T>, a: T, b: T) {
    exists i, j :: 0 <= i < j < |s| && s[i] == a && s[j] == b
  }

  /** `a` replays before `b`: it was executed earlier, or at the same time and arrived first. */
  ghost predicate Precedes(s: seq<Order>, a: Order, b: Order) {
    var ta := if a.maxTs.None? then 0.0 else a.maxTs.value;
    var tb := if b.maxTs.None? then 0.0 else b.maxTs.value;
    ta < tb || (ta == tb && Arrives(s, a, b))
  }

  lemma ArrivesAppended<T>(s: seq<T>, x: T, a: T, b: T)
    requires Arrives(s, a, b) || (a in s && b == x)
    ensures Arrives(s + [x], a, b)
  {
    var s' := s + [x];
    if Arrives(s, a, b) {
      var i, j :| 0 <= i < j < |s| && s[i] == a && s[j] == b;
      assert s'[i] == a && s'[j] == b;
    } else {
      var i :| 0 <= i < |s| && s[i] == a;
      assert s'[i] == a && s'[|s|] == b;
    }
  }

  /** How an insertion places a pair: as it was, or the new order after what is not later and before what is. */
  ghost predicate Placed(s: seq<Order>, o: Order, a: Order, b: Order) {
    || Arrives(s, a, b)
    || (b == o && a in s && Time(a) <= Time(o))
    || (a == o && b in s && Time(b) > Time(o))
  }

  lemma {:induction false} InsertPlaces(s: seq<Order>, o: Order, m: nat, n: nat)
    requires Sorted(s) && m < n < |Insert(s, o)|
    ensures Placed(s, o, Insert(s, o)[m], Insert(s, o)[n])
  {
    if s != [] && Time(s[|s| - 1]) > Time(o) {
      var before, last := s[..|s| - 1], s[|s| - 1];
      var r := Insert(before, o);
      assert s == before + [last];
      InsertPermutes(before, o);
      if n < |r| {
        InsertPlaces(before, o, m, n);
        if Arrives(before, r[m], r[n]) {
          ArrivesAppended(before, last, r[m], r[n]);
        }
      } else {
        assert r[m] in multiset(r);
        if r[m] in before {
          ArrivesAppended(before, last, r[m], last);
        }
      }
    } else if n < |s| {
      assert s[m] == Insert(s, o)[m] && s[n] == Insert(s, o)[n];
    }
  }

  lemma {:induction false} SortPlaces(s: seq<Order>, m: nat, n: nat)
    requires m < n < |SortByTime(s)|
    ensures Precedes(s, SortByTime(s)[m], SortByTime(s)[n])
  {
    var before, o := s[..|s| - 1], s[|s| - 1];
    var was, r := SortByTime(before), SortByTime(s);
    var a, b := r[m], r[n];
    assert s == before + [o];
    SortIsStable(before, 0.0);
    InsertPlaces(was, o, m, n);
    if Arrives(was, a, b) {
      var i, j :| 0 <= i < j < |was| && was[i] == a && was[j] == b;
      SortPlaces(before, i, j);
      if Arrives(before, a, b) {
        ArrivesAppended(before, o, a, b);
      }
    } else if b == o && a in was {
      assert a in multiset(was);
      ArrivesAppended(before, o, a, b);
    }
  }

  lemma {:induction false} SelectKeepsOrder(orders: seq<Order>, symbol: string, a: Order, b: Order)
    requires Arrives(Select(orders, SymbolOf, symbol), a, b)
    ensures Arrives(orders, a, b)
  {
    var before, o := orders[..|orders| - 1], orders[|orders| - 1];
    var selected := Select(before, SymbolOf, symbol);
    assert orders == before + [o];
    if Arrives(selected, a, b) {
      SelectKeepsOrder(before, symbol, a, b);
    } else {
      Members(before, SymbolOf, symbol);
      var i, j :| 0 <= i < j < |Select(orders, SymbolOf, symbol)|
                  && Select(orders, SymbolOf, symbol)[i] == a && Select(orders, SymbolOf, symbol)[j] == b;
      assert selected[i] == a;
    }
    ArrivesAppended(before, o, a, b);
  }

  lemma {:induction false} SelectKeepsAll(orders: seq<Order>, symbol: string, o: Order)
    ensures multiset(Select(orders, SymbolOf, symbol))[o] == if o.symbol == symbol then multiset(orders)[o] else 0
  {
    if orders != [] {
      SelectKeepsAll(orders[..|orders| - 1], symbol, o);
      assert orders == orders[..|orders| - 1] + [orders[|orders| - 1]];
    }
  }

  /**
   * The orders replayed for a symbol are all of its orders and no others, each as often as it was given,
   * by execution time, and by arrival where times are equal; a missing time counts as zero.
   */
  lemma ReplayIsInTime(orders: seq<Order>, symbol: string)
    ensures var es := EntriesOf(orders, symbol);
            && (forall o :: multiset(es)[o] == if o.symbol == symbol then multiset(orders)[o] else 0)
            && (forall m, n :: 0 <= m < n < |es| ==> Precedes(orders, es[m], es[n]))
  {
    var selected, es := Select(orders, SymbolOf, symbol), EntriesOf(orders, symbol);
    SortIsStable(selected, 0.0);
    forall o: Order ensures multiset(es)[o] == if o.symbol == symbol then multiset(orders)[o] else 0 {
      SelectKeepsAll(orders, symbol, o);
    }
    forall m, n | 0 <= m < n < |es| ensures Precedes(orders, es[m], es[n]) {
      SortPlaces(selected, m, n);
      if Arrives(selected, es[m], es[n]) {
        SelectKeepsOrder(orders, symbol, es[m], es[n]);
      }
    }
  }

  /** `before` is the history of `o`: the orders of its symbol that precede it, each once, in order. */
  ghost predicate IsHistory(orders: seq<Order>, o: Order, before: seq<Order>) {
    && (forall b :: b in before <==> b in orders && b.symbol == o.symbol && Precedes(orders, b, o))
    && (forall m, n :: 0 <= m < n < |before| ==> Precedes(orders, before[m], before[n]))
    && DistinctIds(before)
  }

  /** `updates` has an update for `o` exactly when it closes the position its history leaves, and that one. */
  ghost predicate DecidedByHistory(orders: seq<Order>, updates: map<string, CloseUpdate>, o: Order) {
    exists before :: IsHistory(orders, o, before) && BookedAt(updates, PosAfter(before), o)
  }

  /** With distinct ids no two orders precede each other. */
  lemma PrecedesOneWay(orders: seq<Order>, a: Order, b: Order)
    requires DistinctIds(orders) && Precedes(orders, a, b)
    ensures !Precedes(orders, b, a)
  {
  }

  lemma PrefixIsHistory(orders: seq<Order>, symbol: string, n: nat)
    requires DistinctIds(orders) && n < |EntriesOf(orders, symbol)|
    ensures var es := EntriesOf(orders, symbol); IsHistory(orders, es[n], es[..n])
  {
    var es := EntriesOf(orders, symbol);
    ReplayIsInTime(orders, symbol);
    EntriesMembers(orders, symbol);
    SelectKeepsDistinct(orders, symbol);
    SortKeepsDistinct(Select(orders, SymbolOf, symbol));
    assert es[n] in es;
    forall b
      ensures b in es[..n] <==> b in orders && b.symbol == es[n].symbol && Precedes(orders, b, es[n])
    {
      if b in es[..n] {
        assert b in es;
      }
      if b in orders && b.symbol == symbol && Precedes(orders, b, es[n]) {
        var m :| 0 <= m < |es| && es[m] == b;
        PrecedesOneWay(orders, b, es[n]);
        assert m < n;
        assert es[..n][m] == b;
      }
    }
  }

  /** The map of all symbols has an update for exactly the orders that close what their earlier orders left. */
  lemma UpdateFollowsTime(orders: seq<Order>, o: Order)
    requires DistinctIds(orders) && o in orders
    ensures DecidedByHistory(orders, UpdatesOver(orders, Keys(orders, SymbolOf)), o)
  {
    var es, updates := EntriesOf(orders, o.symbol), UpdatesOver(orders, Keys(orders, SymbolOf));
    Members(orders, SymbolOf, o.symbol);
    KeysAreDistinct(orders, SymbolOf);
    EntriesMembers(orders, o.symbol);
    assert o in Select(orders, SymbolOf, o.symbol);
    NoCloseIsLost(orders, Keys(orders, SymbolOf), o.symbol);
    var n :| 0 <= n < |es| && es[n] == o;
    PrefixIsHistory(orders, o.symbol, n);
    assert BookedAt(updates, PosAfter(es[..n]), es[n]);
  }

  /** Every order is decided by its history, and every update is some order's. */
  ghost predicate FollowsTime(orders: seq<Order>, updates: map<string, CloseUpdate>) {
    && (forall o :: o in orders ==> DecidedByHistory(orders, updates, o))
    && (forall id :: id in updates ==> exists o :: o in orders && o.orderId == id)
  }

  lemma UpdatesFollowTime(orders: seq<Order>)
    requires DistinctIds(orders)
    ensures FollowsTime(orders, UpdatesOver(orders, Keys(orders, SymbolOf)))
  {
    var updates := UpdatesOver(orders, Keys(orders, SymbolOf));
    forall o | o in orders ensures DecidedByHistory(orders, updates, o) {
      UpdateFollowsTime(orders, o);
    }
    forall id | id in updates ensures exists o :: o in orders && o.orderId == id {
      if forall o :: o in orders ==> o.orderId != id {
        UpdatesComeFrom(orders, Keys(orders, SymbolOf), id);
      }
    }
  }
}
