/**
 * Exchange executions and the record kept per order.
 *
 * A string field that an execution lacks is "", and a numeric one is 0.0: the program
 * tests them only by truthiness. Timestamps keep the difference between missing and zero.
 */
module Fills {
  import opened Wrappers
  import opened Sums
  import opened Groups

  datatype Fill = Fill(
    orderId: string, clientOrderId: string, symbol: string, side: string,
    amount: real, price: real, fee: real, execPnl: real, ts: Option<real>)

  datatype Order = Order(
    orderId: string, clientOrderId: string, symbol: string, side: string,
    amount: real, fee: real, execPnl: real, notional: real,
    maxTs: Option<real>, avgPrice: Option<real>)

  function NewOrder(f: Fill): Order {
    Order(f.orderId, f.clientOrderId, f.symbol, f.side, 0.0, 0.0, 0.0, 0.0, f.ts, None)
  }

  function Later(a: Option<real>, b: Option<real>): Option<real> {
    if b.None? then a
    else if a.Some? && a.value >= b.value then a
    else b
  }

  function AddFill(o: Order, f: Fill): Order {
    o.(amount := o.amount + f.amount,
       fee := o.fee + f.fee,
       execPnl := o.execPnl + f.execPnl,
       notional := o.notional + f.amount * f.price,
       maxTs := Later(o.maxTs, f.ts),
       side := if o.side == "" then f.side else o.side,
       clientOrderId := if o.clientOrderId == "" then f.clientOrderId else o.clientOrderId)
  }

  function Priced(o: Order): Order {
    o.(avgPrice := if o.amount != 0.0 then Some(o.notional / o.amount) else None)
  }

  /** An execution without an order id belongs to no order. */
  function IdOf(f: Fill): Option<string> { if f.orderId == "" then None else Some(f.orderId) }

  /** The executions of one order, in arrival order. */
  function FillsOf(trades: seq<Fill>, id: string): seq<Fill> { Select(trades, IdOf, id) }

  /** The order ids, each once, in order of first appearance. */
  function OrderIds(trades: seq<Fill>): seq<string> { Keys(trades, IdOf) }

  /** The record a non-empty list of executions accumulates to. */
  function OrderOf(fs: seq<Fill>): Order
    requires fs != []
  {
    var n := |fs| - 1;
    AddFill(if n == 0 then NewOrder(fs[0]) else OrderOf(fs[..n]), fs[n])
  }

  /** The record of order `id` once all of `trades` are in. */
  function OrderFor(trades: seq<Fill>, id: string): Order
    requires id in OrderIds(trades)
  {
    Members(trades, IdOf, id);
    OrderOf(FillsOf(trades, id))
  }

  /** `aggregated.values()`: one priced record per order, in order of first appearance. */
  function Aggregated(trades: seq<Fill>): seq<Order> {
    var ids := OrderIds(trades);
    seq(|ids|, i requires 0 <= i < |ids| => Priced(OrderFor(trades, ids[i])))
  }

  /**
   * Folds executions into one record per order. `keys` is the dictionary's insertion order.
   */
  method AggregateByOrder(trades: seq<Fill>) returns (keys: seq<string>, grouped: map<string, Order>)
    ensures keys == OrderIds(trades)
    ensures forall id :: id in grouped <==> id in keys
    ensures forall id :: id in keys ==> grouped[id] == Priced(OrderFor(trades, id))
    ensures forall id :: id in keys ==> IsRecord(grouped[id], trades, id)
  {
    keys, grouped := [], map[];
    for n := 0 to |trades|
      invariant keys == OrderIds(trades[..n])
      invariant Accumulated(trades[..n], grouped)
    {
      var trade := trades[n];
      assert trades[..n + 1] == trades[..n] + [trade];
      GroupStep(trades[..n], trade, IdOf, trade.orderId);
      AccumulatedStep(trades[..n], trade, grouped);
      if trade.orderId == "" {
        continue;
      }
      var entry;
      if trade.orderId in grouped {
        entry := grouped[trade.orderId];
      } else {
        entry := NewOrder(trade);
        keys := keys + [trade.orderId];
      }
      grouped := grouped[trade.orderId := AddFill(entry, trade)];
    }
    assert trades[..|trades|] == trades;
    KeysAreDistinct(trades, IdOf);
    grouped := PriceAll(keys, grouped);
    forall id | id in keys ensures IsRecord(grouped[id], trades, id) {
      RecordOfOrder(trades, id);
    }
  }

  /** The closing loop of the aggregation: every record gets its average price. */
  method PriceAll(keys: seq<string>, grouped: map<string, Order>) returns (priced: map<string, Order>)
    requires Distinct(keys) && forall id :: id in grouped <==> id in keys
    ensures forall id :: id in priced <==> id in keys
    ensures forall id :: id in priced ==> priced[id] == Priced(grouped[id])
  {
    priced := grouped;
    for i := 0 to |keys|
      invariant forall id :: id in priced <==> id in keys
      invariant forall j :: 0 <= j < i ==> priced[keys[j]] == Priced(grouped[keys[j]])
      invariant forall j :: i <= j < |keys| ==> priced[keys[j]] == grouped[keys[j]]
    {
      var entry := priced[keys[i]];
      priced := priced[keys[i] := Priced(entry)];
    }
  }

  ghost predicate Accumulated(trades: seq<Fill>, grouped: map<string, Order>) {
    && (forall id :: id in grouped <==> id in OrderIds(trades))
    && (forall id :: id in grouped ==> grouped[id] == OrderFor(trades, id))
  }

  lemma AccumulatedStep(trades: seq<Fill>, f: Fill, grouped: map<string, Order>)
    requires Accumulated(trades, grouped)
    ensures Accumulated(trades + [f], GroupedAfter(grouped, f))
  {
    var after := GroupedAfter(grouped, f);
    GroupStep(trades, f, IdOf, f.orderId);
    forall id
      ensures id in after <==> id in OrderIds(trades + [f])
    {
    }
    forall id | id in after
      ensures after[id] == OrderFor(trades + [f], id)
    {
      Members(trades, IdOf, id);
      OrderForStep(trades, f, id);
    }
  }

  function GroupedAfter(grouped: map<string, Order>, f: Fill): map<string, Order> {
    if f.orderId == "" then grouped
    else grouped[f.orderId := AddFill(if f.orderId in grouped then grouped[f.orderId] else NewOrder(f), f)]
  }

  /** One more execution touches the record of its own order only. */
  lemma OrderForStep(trades: seq<Fill>, f: Fill, id: string)
    requires IdOf(f) == Some(id) || id in OrderIds(trades)
    ensures id in OrderIds(trades + [f])
    ensures OrderFor(trades + [f], id)
            == if IdOf(f) != Some(id) then OrderFor(trades, id)
               else AddFill(if id in OrderIds(trades) then OrderFor(trades, id) else NewOrder(f), f)
  {
    GroupStep(trades, f, IdOf, id);
    Members(trades, IdOf, id);
    Members(trades + [f], IdOf, id);
    var fs := FillsOf(trades, id);
    assert (fs + [f])[..|fs|] == fs;
  }

  // ---------- What an order's record says about its executions ----------

  /** Each accumulated field is the total, latest or first non-empty value over the order's executions. */
  lemma {:induction false} OrderTotals(fs: seq<Fill>)
    requires fs != []
    ensures OrderOf(fs).amount == Sum(fs, (f: Fill) => f.amount)
    ensures OrderOf(fs).fee == Sum(fs, (f: Fill) => f.fee)
    ensures OrderOf(fs).execPnl == Sum(fs, (f: Fill) => f.execPnl)
    ensures OrderOf(fs).notional == Sum(fs, (f: Fill) => f.amount * f.price)
    ensures OrderOf(fs).orderId == fs[0].orderId && OrderOf(fs).symbol == fs[0].symbol
    ensures OrderOf(fs).avgPrice == None
  {
    if |fs| > 1 {
      OrderTotals(fs[..|fs| - 1]);
    } else {
      assert fs[..0] == [];
    }
  }

  ghost predicate FirstNonEmpty(r: string, fs: seq<Fill>, field: Fill -> string) {
    if forall f :: f in fs ==> field(f) == "" then r == ""
    else exists i :: 0 <= i < |fs| && r == field(fs[i]) != "" && forall j :: 0 <= j < i ==> field(fs[j]) == ""
  }

  lemma FirstNonEmptyStep(r: string, fs: seq<Fill>, field: Fill -> string)
    requires fs != [] && FirstNonEmpty(r, fs[..|fs| - 1], field)
    ensures FirstNonEmpty(if r == "" then field(fs[|fs| - 1]) else r, fs, field)
  {
    var n := |fs| - 1;
    if r != "" {
      assert exists f :: f in fs[..n] && field(f) != "";
      var i :| 0 <= i < n && r == field(fs[..n][i]) != "" && forall j :: 0 <= j < i ==> field(fs[..n][j]) == "";
      assert forall j :: 0 <= j < i ==> fs[..n][j] == fs[j];
      assert fs[i] in fs;
    } else {
      assert forall j :: 0 <= j < n ==> fs[j] in fs[..n];
      assert fs[n] in fs;
    }
  }

  /** `t` is the latest timestamp that any execution has, if one has any. */
  ghost predicate LatestTime(t: Option<real>, fs: seq<Fill>) {
    && (t.None? <==> forall f :: f in fs ==> f.ts.None?)
    && (t.Some? ==> (exists f :: f in fs && f.ts == t)
                    && forall f :: f in fs && f.ts.Some? ==> f.ts.value <= t.value)
  }

  /** Side and client id come from the first execution that has one; the timestamp is the latest present. */
  lemma {:induction false} OrderLabels(fs: seq<Fill>)
    requires fs != []
    ensures FirstNonEmpty(OrderOf(fs).side, fs, (f: Fill) => f.side)
    ensures FirstNonEmpty(OrderOf(fs).clientOrderId, fs, (f: Fill) => f.clientOrderId)
    ensures LatestTime(OrderOf(fs).maxTs, fs)
  {
    var n := |fs| - 1;
    assert forall f :: f in fs <==> f in fs[..n] || f == fs[n];
    if n == 0 {
      assert FirstNonEmpty("", fs[..0], (f: Fill) => f.side);
      assert FirstNonEmpty("", fs[..0], (f: Fill) => f.clientOrderId);
      FirstNonEmptyStep("", fs, (f: Fill) => f.side);
      FirstNonEmptyStep("", fs, (f: Fill) => f.clientOrderId);
    } else {
      OrderLabels(fs[..n]);
      FirstNonEmptyStep(OrderOf(fs[..n]).side, fs, (f: Fill) => f.side);
      FirstNonEmptyStep(OrderOf(fs[..n]).clientOrderId, fs, (f: Fill) => f.clientOrderId);
    }
  }

  /** `o` adds up the executions `fs` of its order, and is labelled by them. */
  ghost predicate Accounts(o: Order, fs: seq<Fill>) {
    && fs != []
    && o.amount == Sum(fs, (f: Fill) => f.amount) && o.fee == Sum(fs, (f: Fill) => f.fee)
    && o.execPnl == Sum(fs, (f: Fill) => f.execPnl) && o.notional == Sum(fs, (f: Fill) => f.amount * f.price)
    && o.symbol == fs[0].symbol
    && FirstNonEmpty(o.side, fs, (f: Fill) => f.side)
    && FirstNonEmpty(o.clientOrderId, fs, (f: Fill) => f.clientOrderId)
    && LatestTime(o.maxTs, fs)
  }

  lemma PricedAccounts(o: Order, fs: seq<Fill>)
    requires Accounts(o, fs)
    ensures Accounts(Priced(o), fs) && Priced(o).orderId == o.orderId
    ensures Priced(o).avgPrice.None? <==> o.amount == 0.0
    ensures Priced(o).avgPrice.Some? ==> Priced(o).avgPrice.value * o.amount == o.notional
  {
  }

  lemma OrderAccounts(fs: seq<Fill>)
    requires fs != []
    ensures Accounts(OrderOf(fs), fs)
  {
    OrderTotals(fs);
    OrderLabels(fs);
  }

  /** `o` accounts for exactly the executions with id `id`, at the price its amount and notional give. */
  ghost predicate IsRecord(o: Order, trades: seq<Fill>, id: string) {
    var fs := FillsOf(trades, id);
    && o.orderId == id != ""
    && (forall f :: f in fs <==> f in trades && f.orderId == id)
    && Accounts(o, fs)
    && (o.avgPrice.None? <==> o.amount == 0.0)
    && (o.avgPrice.Some? ==> o.avgPrice.value * o.amount == o.notional)
  }

  lemma RecordOfOrder(trades: seq<Fill>, id: string)
    requires id in OrderIds(trades)
    ensures IsRecord(Priced(OrderFor(trades, id)), trades, id)
  {
    FillsOfOrder(trades, id);
    var fs := FillsOf(trades, id);
    assert OrderOf(fs).orderId == id by { OrderTotals(fs); }
    OrderAccounts(fs);
    PricedAccounts(OrderOf(fs), fs);
  }

  lemma FillsOfOrder(trades: seq<Fill>, id: string)
    requires id in OrderIds(trades)
    ensures id != "" && FillsOf(trades, id) != [] && FillsOf(trades, id)[0].orderId == id
    ensures forall f :: f in FillsOf(trades, id) <==> f in trades && f.orderId == id
  {
    Members(trades, IdOf, id);
    assert FillsOf(trades, id)[0] in FillsOf(trades, id);
  }

  /** Some execution of order `id` comes before all of order `other`. */
  ghost predicate AppearsFirst(trades: seq<Fill>, id: string, other: string) {
    exists n :: 0 <= n < |trades| && trades[n].orderId == id
                && forall m :: 0 <= m <= n ==> trades[m].orderId != other
  }

  /**
   * Each record of the result accounts for exactly the executions with its id; the ids come in order of
   * first appearance.
   */
  lemma RecordsMeaning(trades: seq<Fill>)
    ensures |Aggregated(trades)| == |OrderIds(trades)|
    ensures forall i :: 0 <= i < |OrderIds(trades)| ==> IsRecord(Aggregated(trades)[i], trades, OrderIds(trades)[i])
    ensures forall i, j :: 0 <= i < j < |OrderIds(trades)| ==>
              AppearsFirst(trades, OrderIds(trades)[i], OrderIds(trades)[j])
  {
    forall i | 0 <= i < |OrderIds(trades)|
      ensures IsRecord(Aggregated(trades)[i], trades, OrderIds(trades)[i])
    {
      RecordOfOrder(trades, OrderIds(trades)[i]);
    }
    forall i, j | 0 <= i < j < |OrderIds(trades)|
      ensures AppearsFirst(trades, OrderIds(trades)[i], OrderIds(trades)[j])
    {
      KeysInOrder(trades, IdOf, i, j);
      var n :| 0 <= n < |trades| && IdOf(trades[n]) == Some(OrderIds(trades)[i])
               && forall m :: 0 <= m <= n ==> IdOf(trades[m]) != Some(OrderIds(trades)[j]);
      FillsOfOrder(trades, OrderIds(trades)[j]);
      assert trades[n].orderId == OrderIds(trades)[i];
    }
  }
}
