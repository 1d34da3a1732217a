/** From raw executions to booked profit: aggregation followed by derivation, as the script runs them. */
module EndToEnd {
  import opened Wrappers
  import opened Sums
  import opened Groups
  import opened Fills
  import opened Ledger
  import opened Closes
  import Runs

  /** Two executions of one order, the first of them in `symbol`. */
  ghost predicate SameOrder(trades: seq<Fill>, symbol: string, f: Fill, g: Fill) {
    f in trades && g in trades && f.orderId == g.orderId && f.orderId != "" && f.symbol == symbol
  }

  /** Every order with an execution in `symbol` has all of them there, in one direction. */
  ghost predicate Uniform(trades: seq<Fill>, symbol: string) {
    forall f, g :: SameOrder(trades, symbol, f, g) ==> g.symbol == symbol && (IsBuy(f.side) <==> IsBuy(g.side))
  }

  ghost predicate PositiveFills(trades: seq<Fill>, symbol: string) {
    forall f :: f in trades && Counts(f, symbol) ==> f.amount > 0.0 && f.price > 0.0
  }

  ghost predicate FillsOnGrid(trades: seq<Fill>, symbol: string, g: real) {
    forall f, h :: SameOrder(trades, symbol, f, h) ==> OnGrid(h.amount, g)
  }

  /** An execution that belongs to an order of `symbol`. */
  predicate Counts(f: Fill, symbol: string) { f.orderId != "" && f.symbol == symbol }

  function FillCash(symbol: string): Fill -> real {
    (f: Fill) => if !Counts(f, symbol) then 0.0 else if IsBuy(f.side) then -f.amount * f.price else f.amount * f.price
  }

  function FillQty(symbol: string): Fill -> real {
    (f: Fill) => if !Counts(f, symbol) then 0.0 else if IsBuy(f.side) then f.amount else -f.amount
  }

  function FillFee(symbol: string): Fill -> real { (f: Fill) => if Counts(f, symbol) then f.fee else 0.0 }

  /** The value of an order as the position machine sees it, if it is one of `symbol`. */
  function OfSymbol(v: (Pos, Order) -> real, symbol: string): Order -> real {
    (o: Order) => if o.symbol == symbol then v(FLAT, o) else 0.0
  }

  // ---------- One order against its executions ----------

  ghost predicate OneOrder(fs: seq<Fill>, symbol: string, buy: bool) {
    && fs != []
    && (forall f :: f in fs ==> f.orderId != "" && f.symbol == symbol && (IsBuy(f.side) <==> buy))
    && (forall f :: f in fs ==> f.amount > 0.0 && f.price > 0.0)
  }

  lemma OneOrderPrefix(fs: seq<Fill>, symbol: string, buy: bool)
    requires OneOrder(fs, symbol, buy)
    ensures var f := fs[|fs| - 1]; OneOrder([f], symbol, buy) && f.amount * f.price > 0.0
    ensures |fs| > 1 ==> OneOrder(fs[..|fs| - 1], symbol, buy)
    ensures |fs| == 1 ==> fs[..|fs| - 1] == []
  {
    var f := fs[|fs| - 1];
    assert f in fs && forall g :: g in fs[..|fs| - 1] ==> g in fs;
  }

  lemma {:induction false} UniformOrder(fs: seq<Fill>, symbol: string, buy: bool)
    requires OneOrder(fs, symbol, buy)
    ensures OrderOf(fs).symbol == symbol && (IsBuy(OrderOf(fs).side) <==> buy)
    ensures OrderOf(fs).amount > 0.0 && OrderOf(fs).notional > 0.0
  {
    var f := fs[|fs| - 1];
    OneOrderPrefix(fs, symbol, buy);
    assert f in [f];
    if |fs| > 1 {
      var o := OrderOf(fs[..|fs| - 1]);
      UniformOrder(fs[..|fs| - 1], symbol, buy);
      AddedFill(o, f);
    } else {
      AddedFill(NewOrder(f), f);
    }
  }

  lemma AddedFill(o: Order, f: Fill)
    ensures AddFill(o, f).symbol == o.symbol
    ensures AddFill(o, f).amount == o.amount + f.amount && AddFill(o, f).notional == o.notional + f.amount * f.price
    ensures (IsBuy(o.side) <==> IsBuy(f.side)) ==> (IsBuy(AddFill(o, f).side) <==> IsBuy(f.side))
  {
  }

  lemma {:induction false} UniformSums(fs: seq<Fill>, symbol: string, buy: bool)
    requires OneOrder(fs, symbol, buy)
    ensures Sum(fs, FillCash(symbol)) == if buy then -OrderOf(fs).notional else OrderOf(fs).notional
    ensures Sum(fs, FillQty(symbol)) == if buy then OrderOf(fs).amount else -OrderOf(fs).amount
    ensures Sum(fs, FillFee(symbol)) == OrderOf(fs).fee
  {
    var f := fs[|fs| - 1];
    OneOrderPrefix(fs, symbol, buy);
    FillValues(f, symbol, buy);
    if |fs| > 1 {
      UniformSums(fs[..|fs| - 1], symbol, buy);
    }
  }

  /** The three values of one execution of an order. */
  lemma FillValues(f: Fill, symbol: string, buy: bool)
    requires OneOrder([f], symbol, buy)
    ensures FillCash(symbol)(f) == if buy then -(f.amount * f.price) else f.amount * f.price
    ensures FillQty(symbol)(f) == if buy then f.amount else -f.amount
    ensures FillFee(symbol)(f) == f.fee
  {
    assert f in [f];
    assert (-f.amount) * f.price == -(f.amount * f.price);
  }

  /** What the machine sees of an order with a positive quantity and notional. */
  lemma PricedOrder(o: Order)
    requires o.amount > 0.0 && o.notional > 0.0
    ensures Accepted(Priced(o))
    ensures Cash(FLAT, Priced(o)) == if IsBuy(o.side) then -o.notional else o.notional
    ensures SignedQty(FLAT, Priced(o)) == if IsBuy(o.side) then o.amount else -o.amount
    ensures OrderFee(FLAT, Priced(o)) == o.fee
  {
    var m := o.notional / o.amount;
    assert m * o.amount == o.notional;
    assert m > 0.0;
    assert (-o.amount) * m == -(o.amount * m);
  }

  // ---------- Sums over orders are sums over executions ----------

  lemma {:induction false} SumOfImage(ids: seq<string>, orders: seq<Order>, w: Order -> real, total: string -> real)
    requires |ids| == |orders|
    requires forall i :: 0 <= i < |ids| ==> w(orders[i]) == total(ids[i])
    ensures Sum(orders, w) == Sum(ids, total)
  {
    if ids != [] {
      var n := |ids| - 1;
      SumOfImage(ids[..n], orders[..n], w, total);
      assert w(orders[n]) == total(ids[n]);
    }
  }

  /** If each order's value is the sum over its executions, the symbol's orders sum to the symbol's executions. */
  lemma OrdersSumToFills(trades: seq<Fill>, w: Order -> real, v: Fill -> real)
    requires forall f :: f in trades && f.orderId == "" ==> v(f) == 0.0
    requires forall id :: id in OrderIds(trades) ==> w(Priced(OrderFor(trades, id))) == Sum(FillsOf(trades, id), v)
    ensures Sum(Aggregated(trades), w) == Sum(trades, v)
  {
    SumOfImage(OrderIds(trades), Aggregated(trades), w, GroupTotal(trades, IdOf, v));
    GroupingConserves(trades, IdOf, v);
  }

  /** Restricting to one symbol's orders drops only zeros. */
  lemma {:induction false} SumOfSelected(orders: seq<Order>, symbol: string, v: (Pos, Order) -> real)
    ensures Sum(Select(orders, SymbolOf, symbol), OfSymbol(v, symbol)) == Sum(orders, OfSymbol(v, symbol))
  {
    if orders != [] {
      var before, o := orders[..|orders| - 1], orders[|orders| - 1];
      SumOfSelected(before, symbol, v);
      SumAppend(Select(before, SymbolOf, symbol), o, OfSymbol(v, symbol));
    }
  }

  /** A value that ignores the position totals over the symbol's run to its sum over all orders. */
  lemma TallyIsOrderSum(orders: seq<Order>, symbol: string, v: (Pos, Order) -> real)
    requires forall p, q, o :: v(p, o) == v(q, o)
    ensures Tally(EntriesOf(orders, symbol), v) == Sum(orders, OfSymbol(v, symbol))
  {
    var es := EntriesOf(orders, symbol);
    EntriesMembers(orders, symbol);
    forall n | 0 <= n < |es|
      ensures v(PosAfter(es[..n]), es[n]) == OfSymbol(v, symbol)(es[n])
    {
      assert es[n] in es;
    }
    Runs.TotalIsSum(FLAT, After, es, v, OfSymbol(v, symbol));
    SumSorted(Select(orders, SymbolOf, symbol), OfSymbol(v, symbol));
    SumOfSelected(orders, symbol, v);
  }

  /** The executions of one order, seen as a whole. */
  lemma OrderAgainstFills(trades: seq<Fill>, id: string, symbol: string)
    requires Uniform(trades, symbol) && PositiveFills(trades, symbol) && id in OrderIds(trades)
    ensures OfSymbol(Cash, symbol)(Priced(OrderFor(trades, id))) == Sum(FillsOf(trades, id), FillCash(symbol))
    ensures OfSymbol(SignedQty, symbol)(Priced(OrderFor(trades, id))) == Sum(FillsOf(trades, id), FillQty(symbol))
    ensures OfSymbol(OrderFee, symbol)(Priced(OrderFor(trades, id))) == Sum(FillsOf(trades, id), FillFee(symbol))
  {
    var fs, o := FillsOf(trades, id), OrderFor(trades, id);
    Members(trades, IdOf, id);
    assert fs[0] in fs;
    var own, buy := fs[0].symbol, IsBuy(fs[0].side);
    assert o.symbol == own by { OrderTotals(fs); }
    if own == symbol {
      forall f | f in fs
        ensures f.symbol == symbol && (IsBuy(f.side) <==> buy) && f.amount > 0.0 && f.price > 0.0
      {
        assert SameOrder(trades, symbol, fs[0], f);
      }
      assert OneOrder(fs, own, buy);
      UniformOrder(fs, own, buy);
      PricedOrder(o);
      UniformSums(fs, own, buy);
    } else {
      forall f | f in fs ensures f.symbol != symbol {
        assert f.symbol == symbol ==> SameOrder(trades, symbol, f, fs[0]);
      }
      NoneCounts(fs, symbol);
    }
  }

  lemma {:induction false} NoneCounts(fs: seq<Fill>, symbol: string)
    requires forall f :: f in fs ==> f.symbol != symbol
    ensures Sum(fs, FillCash(symbol)) == 0.0
    ensures Sum(fs, FillQty(symbol)) == 0.0
    ensures Sum(fs, FillFee(symbol)) == 0.0
  {
    if fs != [] {
      assert fs[|fs| - 1] in fs && forall f :: f in fs[..|fs| - 1] ==> f in fs;
      NoneCounts(fs[..|fs| - 1], symbol);
    }
  }

  /** Cash, signed quantity and fees of a symbol's run are those of its raw executions. */
  lemma RunAgainstFills(trades: seq<Fill>, symbol: string)
    requires Uniform(trades, symbol) && PositiveFills(trades, symbol)
    ensures
      var es := EntriesOf(Aggregated(trades), symbol);
      && Tally(es, Cash) == Sum(trades, FillCash(symbol))
      && Tally(es, SignedQty) == Sum(trades, FillQty(symbol))
      && Tally(es, OrderFee) == Sum(trades, FillFee(symbol))
  {
    var orders := Aggregated(trades);
    TallyIsOrderSum(orders, symbol, Cash);
    TallyIsOrderSum(orders, symbol, SignedQty);
    TallyIsOrderSum(orders, symbol, OrderFee);
    forall id | id in OrderIds(trades)
      ensures OfSymbol(Cash, symbol)(Priced(OrderFor(trades, id))) == Sum(FillsOf(trades, id), FillCash(symbol))
      ensures OfSymbol(SignedQty, symbol)(Priced(OrderFor(trades, id))) == Sum(FillsOf(trades, id), FillQty(symbol))
      ensures OfSymbol(OrderFee, symbol)(Priced(OrderFor(trades, id))) == Sum(FillsOf(trades, id), FillFee(symbol))
    {
      OrderAgainstFills(trades, id, symbol);
    }
    OrdersSumToFills(trades, OfSymbol(Cash, symbol), FillCash(symbol));
    OrdersSumToFills(trades, OfSymbol(SignedQty, symbol), FillQty(symbol));
    OrdersSumToFills(trades, OfSymbol(OrderFee, symbol), FillFee(symbol));
  }

  // ---------- Quantities on a grid ----------

  lemma OnGridSum(x: real, y: real, g: real)
    requires OnGrid(x, g) && OnGrid(y, g)
    ensures OnGrid(x + y, g)
  {
    var i: int :| IsMultiple(x, g, i);
    var j: int :| IsMultiple(y, g, j);
    assert IsMultiple(x + y, g, i + j);
  }

  lemma {:induction false} OrderOnGrid(fs: seq<Fill>, g: real)
    requires fs != [] && forall f :: f in fs ==> OnGrid(f.amount, g)
    ensures OnGrid(OrderOf(fs).amount, g)
  {
    var n := |fs| - 1;
    assert fs[n] in fs && forall f :: f in fs[..n] ==> f in fs;
    if n > 0 {
      OrderOnGrid(fs[..n], g);
      OnGridSum(OrderOf(fs[..n]).amount, fs[n].amount, g);
    }
  }

  /** Executions on a grid give a run that throws no dust away. */
  lemma GridRunIsExact(trades: seq<Fill>, symbol: string, g: real)
    requires g >= DUST && FillsOnGrid(trades, symbol, g)
    ensures Exact(EntriesOf(Aggregated(trades), symbol))
  {
    var orders := Aggregated(trades);
    var es := EntriesOf(orders, symbol);
    EntriesMembers(orders, symbol);
    forall o | o in es ensures OnGrid(o.amount, g) {
      var i :| 0 <= i < |orders| && orders[i] == o;
      var fs := FillsOf(trades, OrderIds(trades)[i]);
      Members(trades, IdOf, OrderIds(trades)[i]);
      OrderTotals(fs);
      assert fs[0] in fs;
      forall f | f in fs ensures OnGrid(f.amount, g) {
        assert SameOrder(trades, symbol, fs[0], f);
      }
      OrderOnGrid(fs, g);
    }
    GridIsExact(es, g);
  }

  // ---------- The updates map against the executions ----------

  function GrossIn(updates: map<string, CloseUpdate>): Order -> real {
    (o: Order) => if o.orderId in updates then updates[o.orderId].gross else 0.0
  }

  function NetIn(updates: map<string, CloseUpdate>): Order -> real {
    (o: Order) => if o.orderId in updates then updates[o.orderId].net else 0.0
  }

  lemma AggregatedIdsAreDistinct(trades: seq<Fill>)
    ensures DistinctIds(Aggregated(trades))
  {
    var orders, ids := Aggregated(trades), OrderIds(trades);
    KeysAreDistinct(trades, IdOf);
    forall i | 0 <= i < |orders| ensures orders[i].orderId == ids[i] {
      Members(trades, IdOf, ids[i]);
      var fs := FillsOf(trades, ids[i]);
      OrderTotals(fs);
      assert fs[0] in fs;
    }
  }

  /** What the updates map holds for a symbol's orders is what the symbol's run booked. */
  lemma UpdatesHoldRun(orders: seq<Order>, symbol: string)
    requires DistinctIds(orders)
    ensures
      var updates := UpdatesOver(orders, Keys(orders, SymbolOf));
      && Sum(Select(orders, SymbolOf, symbol), GrossIn(updates)) == Tally(EntriesOf(orders, symbol), BookedGross)
      && Sum(Select(orders, SymbolOf, symbol), NetIn(updates)) == Tally(EntriesOf(orders, symbol), BookedNet)
  {
    var updates, es := UpdatesOver(orders, Keys(orders, SymbolOf)), EntriesOf(orders, symbol);
    Members(orders, SymbolOf, symbol);
    KeysAreDistinct(orders, SymbolOf);
    if symbol in Keys(orders, SymbolOf) {
      NoCloseIsLost(orders, Keys(orders, SymbolOf), symbol);
    } else {
      assert es == [];
    }
    forall n | 0 <= n < |es|
      ensures BookedGross(PosAfter(es[..n]), es[n]) == GrossIn(updates)(es[n])
      ensures BookedNet(PosAfter(es[..n]), es[n]) == NetIn(updates)(es[n])
    {
      assert BookedAt(updates, PosAfter(es[..n]), es[n]);
    }
    Runs.TotalIsSum(FLAT, After, es, BookedGross, GrossIn(updates));
    Runs.TotalIsSum(FLAT, After, es, BookedNet, NetIn(updates));
    SumSorted(Select(orders, SymbolOf, symbol), GrossIn(updates));
    SumSorted(Select(orders, SymbolOf, symbol), NetIn(updates));
  }

  /**
   * The gross profits in the updates map, read back order by order, are the raw executions' cash flow plus
   * the book value of the position left open, plus any dust.
   */
  lemma ProfitBalance(trades: seq<Fill>, symbol: string)
    requires Uniform(trades, symbol) && PositiveFills(trades, symbol)
    ensures
      var orders := Aggregated(trades);
      var es := EntriesOf(orders, symbol);
      Sum(Select(orders, SymbolOf, symbol), GrossIn(UpdatesOver(orders, Keys(orders, SymbolOf))))
      == Sum(trades, FillCash(symbol)) + BookValue(PosAfter(es)) + Tally(es, DustValue)
  {
    AggregatedIdsAreDistinct(trades);
    UpdatesHoldRun(Aggregated(trades), symbol);
    RunAgainstFills(trades, symbol);
    GrossIsCashPlusBookValue(EntriesOf(Aggregated(trades), symbol));
  }

  /**
   * The script end to end. For executions on a grid that net to zero in `symbol`, the gross profits in the
   * updates map, read back order by order, total the raw executions' cash flow; and the net profits total
   * their cash flow minus their fees if and only if no clamp bites in the symbol's run.
   */
  lemma ProfitIsCashFlow(trades: seq<Fill>, symbol: string, g: real)
    requires Uniform(trades, symbol) && PositiveFills(trades, symbol)
    requires g >= DUST && FillsOnGrid(trades, symbol, g)
    requires Sum(trades, FillQty(symbol)) == 0.0
    ensures
      var orders := Aggregated(trades);
      var updates := UpdatesOver(orders, Keys(orders, SymbolOf));
      var own := Select(orders, SymbolOf, symbol);
      && Sum(own, GrossIn(updates)) == Sum(trades, FillCash(symbol))
      && (Sum(own, NetIn(updates)) == Sum(trades, FillCash(symbol)) - Sum(trades, FillFee(symbol))
          <==> Unclamped(EntriesOf(orders, symbol)))
  {
    var orders := Aggregated(trades);
    var es := EntriesOf(orders, symbol);
    AggregatedIdsAreDistinct(trades);
    UpdatesHoldRun(orders, symbol);
    RunAgainstFills(trades, symbol);
    GridRunIsExact(trades, symbol, g);
    ExactGross(es);
    FlatGrossIsCash(es);
    FlatNetIff(es);
  }

  /** Executions without negative fees give a run in which no clamp bites. */
  lemma NonNegativeFillFees(trades: seq<Fill>, symbol: string)
    requires forall f, h :: SameOrder(trades, symbol, f, h) ==> h.fee >= 0.0
    ensures Unclamped(EntriesOf(Aggregated(trades), symbol))
  {
    var orders := Aggregated(trades);
    EntriesMembers(orders, symbol);
    forall o | o in EntriesOf(orders, symbol) ensures o.fee >= 0.0 {
      var i :| 0 <= i < |orders| && orders[i] == o;
      var fs := FillsOf(trades, OrderIds(trades)[i]);
      Members(trades, IdOf, OrderIds(trades)[i]);
      OrderTotals(fs);
      assert fs[0] in fs;
      forall f | f in fs ensures f.fee >= 0.0 {
        assert SameOrder(trades, symbol, fs[0], f);
      }
      SumNonNegative(fs, (f: Fill) => f.fee);
    }
    NonNegativeFeesAreUnclamped(EntriesOf(orders, symbol));
  }

  /** The updates of the aggregated executions follow the execution times of their orders. */
  lemma DerivedFollowsTime(trades: seq<Fill>)
    ensures var orders := Aggregated(trades); FollowsTime(orders, UpdatesOver(orders, Keys(orders, SymbolOf)))
  {
    AggregatedIdsAreDistinct(trades);
    UpdatesFollowTime(Aggregated(trades));
  }

  /** A dictionary's values in insertion order. */
  method Values(keys: seq<string>, grouped: map<string, Order>) returns (values: seq<Order>)
    requires forall id :: id in keys ==> id in grouped
    ensures |values| == |keys| && forall i :: 0 <= i < |keys| ==> values[i] == grouped[keys[i]]
  {
    values := [];
    for n := 0 to |keys|
      invariant |values| == n && forall i :: 0 <= i < n ==> values[i] == grouped[keys[i]]
    {
      values := values + [grouped[keys[n]]];
    }
  }

  /** The script's two steps: aggregate the executions, then derive the updates of the aggregation's values. */
  method DeriveFromExecutions(trades: seq<Fill>) returns (updates: map<string, CloseUpdate>)
    ensures updates == UpdatesOver(Aggregated(trades), Keys(Aggregated(trades), SymbolOf))
    ensures FollowsTime(Aggregated(trades), updates)
  {
    var keys, grouped := AggregateByOrder(trades);
    var values := Values(keys, grouped);
    assert values == Aggregated(trades);
    updates := DeriveCloseUpdates(values);
    DerivedFollowsTime(trades);
  }
}
