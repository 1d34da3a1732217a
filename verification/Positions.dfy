/** Closing a position in parts, and what is booked to its portfolio. */
module Positions {
  import opened Wrappers
  import opened RealMath
  import Runs

  datatype Position = Position(
    portfolioId: string, side: string, entryPrice: real, quantity: real, feesPaid: real,
    open: bool, currentPrice: real, unrealizedPnl: real, closeReason: string)

  datatype Result<+T> = Ok(value: T) | NotFoundOrClosed

  /** Profit per unit at `price`; any side other than "long" is short. */
  function PriceDiff(pos: Position, price: real): real {
    if pos.side == "long" then price - pos.entryPrice else pos.entryPrice - price
  }

  /** `gross` is what `q` units earn at `price`: the rise of the price since entry, or for a short its fall. */
  ghost predicate Earns(pos: Position, price: real, q: real, gross: real) {
    if pos.side == "long" then gross == (price - pos.entryPrice) * q else gross == (pos.entryPrice - price) * q
  }

  lemma MoveEarns(pos: Position, price: real, q: real)
    ensures Earns(pos, price, q, PriceDiff(pos, price) * q)
  {
  }

  /** Profit of the whole remaining quantity at `price`, net of the fees paid. */
  function NetAt(pos: Position, price: real): real { PriceDiff(pos, price) * pos.quantity - pos.feesPaid }

  function Closed(pos: Position, price: real, reason: string): Position {
    pos.(open := false, currentPrice := price, unrealizedPnl := NetAt(pos, price), closeReason := reason)
  }

  function Reduced(pos: Position, quantity: real, price: real): Position {
    pos.(quantity := pos.quantity - quantity, currentPrice := price)
  }

  function Marked(pos: Position, price: real): Position {
    pos.(currentPrice := price, unrealizedPnl := NetAt(pos, price))
  }

  /** `r` is `pos` closed at `price`, with what its quantity earned, less its fees, as its profit. */
  ghost predicate ClosedAt(pos: Position, price: real, reason: string, r: Position) {
    && Earns(pos, price, pos.quantity, r.unrealizedPnl + pos.feesPaid)
    && r == pos.(open := false, currentPrice := price, unrealizedPnl := r.unrealizedPnl, closeReason := reason)
  }

  /** The positions and portfolios tables. */
  class Desk {
    var positions: map<string, Position>
    var totalPnl: map<string, real>

    constructor (positions: map<string, Position>, totalPnl: map<string, real>)
      ensures this.positions == positions && this.totalPnl == totalPnl
    {
      this.positions, this.totalPnl := positions, totalPnl;
    }

    predicate IsOpen(id: string)
      reads this
    {
      id in positions && positions[id].open
    }

    /** The update that adds to a portfolio's total; it touches no row if there is no such portfolio. */
    method Book(portfolioId: string, amount: real)
      modifies this`totalPnl
      ensures totalPnl == if portfolioId in old(totalPnl)
                          then old(totalPnl)[portfolioId := old(totalPnl)[portfolioId] + amount] else old(totalPnl)
    {
      if portfolioId in totalPnl {
        totalPnl := totalPnl[portfolioId := totalPnl[portfolioId] + amount];
      }
    }

    /** Every method below moves one position by one step of `After` and books what that step books. */
    method UpdatePrice(id: string, price: real) returns (r: Option<Position>)
      modifies this`positions
      ensures old(IsOpen(id)) ==> r == Some(After(old(positions)[id], Mark(price)))
                                  && positions == old(positions)[id := r.value]
      ensures old(IsOpen(id)) ==>
                && Earns(old(positions)[id], price, r.value.quantity, r.value.unrealizedPnl + r.value.feesPaid)
                && r.value == old(positions)[id].(currentPrice := price, unrealizedPnl := r.value.unrealizedPnl)
      ensures !old(IsOpen(id)) ==> r == None && positions == old(positions)
    {
      if id !in positions || !positions[id].open {
        return None;
      }
      var position := positions[id];
      var priceDiff;
      if position.side == "long" {
        priceDiff := price - position.entryPrice;
      } else {
        priceDiff := position.entryPrice - price;
      }
      var unrealizedPnl := priceDiff * position.quantity - position.feesPaid;
      assert unrealizedPnl == NetAt(position, price);
      MoveEarns(position, price, position.quantity);
      position := position.(currentPrice := price, unrealizedPnl := unrealizedPnl);
      positions := positions[id := position];
      r := Some(position);
    }

    method Close(id: string, price: real, reason: string) returns (r: Result<Position>)
      modifies this
      ensures old(IsOpen(id)) ==>
                && r == Ok(After(old(positions)[id], CloseAll(price, reason)))
                && positions == old(positions)[id := r.value]
                && totalPnl == BookedTo(old(totalPnl), old(positions)[id].portfolioId,
                                        Booked(old(positions)[id], CloseAll(price, reason)))
      ensures old(IsOpen(id)) ==> ClosedAt(old(positions)[id], price, reason, r.value)
                                  && totalPnl == BookedTo(old(totalPnl), r.value.portfolioId, r.value.unrealizedPnl)
      ensures !old(IsOpen(id)) ==> r == NotFoundOrClosed && positions == old(positions) && totalPnl == old(totalPnl)
    {
      if id !in positions || !positions[id].open {
        return NotFoundOrClosed;
      }
      var position := positions[id];
      var priceDiff;
      if position.side == "long" {
        priceDiff := price - position.entryPrice;
      } else {
        priceDiff := position.entryPrice - price;
      }
      var realizedPnl := priceDiff * position.quantity - position.feesPaid;
      assert realizedPnl == NetAt(position, price);
      MoveEarns(position, price, position.quantity);
      position := position.(open := false, currentPrice := price, unrealizedPnl := realizedPnl, closeReason := reason);
      positions := positions[id := position];
      Book(position.portfolioId, realizedPnl);
      r := Ok(position);
    }

    method PartialClose(id: string, quantity: real, price: real, reason: string) returns (r: Result<Position>)
      modifies this
      ensures old(IsOpen(id)) ==>
                && r == Ok(After(old(positions)[id], Partial(quantity, price, reason)))
                && positions == old(positions)[id := r.value]
                && totalPnl == BookedTo(old(totalPnl), old(positions)[id].portfolioId,
                                        Booked(old(positions)[id], Partial(quantity, price, reason)))
      ensures old(IsOpen(id)) && quantity >= old(positions)[id].quantity ==>
                ClosedAt(old(positions)[id], price, reason, r.value)
                && totalPnl == BookedTo(old(totalPnl), r.value.portfolioId, r.value.unrealizedPnl)
      ensures old(IsOpen(id)) && quantity < old(positions)[id].quantity ==>
                var pos := old(positions)[id];
                && r.value == pos.(quantity := pos.quantity - quantity, currentPrice := price)
                && Earns(pos, price, quantity, Booked(pos, Partial(quantity, price, reason)))
      ensures !old(IsOpen(id)) ==> r == NotFoundOrClosed && positions == old(positions) && totalPnl == old(totalPnl)
    {
      if id !in positions || !positions[id].open {
        return NotFoundOrClosed;
      }
      var position := positions[id];
      if quantity >= position.quantity {
        r := Close(id, price, reason);
        return;
      }
      var priceDiff;
      if position.side == "long" {
        priceDiff := price - position.entryPrice;
      } else {
        priceDiff := position.entryPrice - price;
      }
      var partialPnl := priceDiff * quantity;
      assert partialPnl == Booked(position, Partial(quantity, price, reason));
      MoveEarns(position, price, quantity);
      position := position.(quantity := position.quantity - quantity, currentPrice := price);
      positions := positions[id := position];
      Book(position.portfolioId, partialPnl);
      r := Ok(position);
    }
  }

  function BookedTo(totals: map<string, real>, portfolioId: string, amount: real): map<string, real> {
    if portfolioId in totals then totals[portfolioId := totals[portfolioId] + amount] else totals
  }

  // ---------- One position over a whole run ----------

  datatype Event =
    | Mark(price: real)
    | Partial(quantity: real, price: real, reason: string)
    | CloseAll(price: real, reason: string)

  /** The position after one call; a closed position answers every call with an error or nothing. */
  function After(pos: Position, e: Event): Position {
    if !pos.open then pos
    else match e
      case Mark(price) => Marked(pos, price)
      case Partial(q, price, reason) => if q >= pos.quantity then Closed(pos, price, reason) else Reduced(pos, q, price)
      case CloseAll(price, reason) => Closed(pos, price, reason)
  }

  /** What the call adds to the portfolio's total. */
  function Booked(pos: Position, e: Event): real {
    if !pos.open then 0.0
    else match e
      case Mark(_) => 0.0
      case Partial(q, price, _) => if q >= pos.quantity then NetAt(pos, price) else PriceDiff(pos, price) * q
      case CloseAll(price, _) => NetAt(pos, price)
  }

  /** The quantity the call closes: never more than remains. */
  function ClosedQty(pos: Position, e: Event): real {
    if !pos.open || e.Mark? then 0.0
    else if e.Partial? && e.quantity < pos.quantity then e.quantity
    else pos.quantity
  }

  /** Side-signed price move times the quantity closed. */
  function GrossOf(pos: Position, e: Event): real { PriceDiff(pos, e.price) * ClosedQty(pos, e) }

  function Remaining(pos: Position): real { if pos.open then pos.quantity else 0.0 }

  function FeesCharged(pos: Position): real { if pos.open then 0.0 else pos.feesPaid }

  function PositionAfter(pos: Position, es: seq<Event>): Position { Runs.Run(pos, After, es) }

  function Tally(pos: Position, es: seq<Event>, v: (Position, Event) -> real): real { Runs.Total(pos, After, es, v) }

  /** The quantities closed so far and the quantity remaining add up to the opening quantity. */
  lemma QuantityIsConserved(pos: Position, es: seq<Event>)
    requires pos.open
    ensures Tally(pos, es, ClosedQty) + Remaining(PositionAfter(pos, es)) == pos.quantity
  {
    forall p, e
      ensures ClosedQty(p, e) == Nothing(p, e) + -Remaining(After(p, e)) - -Remaining(p)
    {
    }
    Runs.Telescope(pos, After, es, p => true, ClosedQty, Nothing, p => -Remaining(p));
    NothingTotalsZero(pos, es);
  }

  function Nothing(pos: Position, e: Event): real { 0.0 }

  lemma NothingTotalsZero(pos: Position, es: seq<Event>)
    ensures Tally(pos, es, Nothing) == 0.0
  {
    Runs.TotalZeroIff(pos, After, es, Nothing);
  }

  /** The amounts booked are the gross profits of the parts closed, less the fees paid, once, at the close. */
  lemma BookedIsGrossLessFeesOnce(pos: Position, es: seq<Event>)
    requires pos.open
    ensures var end := PositionAfter(pos, es);
            Tally(pos, es, Booked) == Tally(pos, es, GrossOf) - FeesCharged(end)
            && end.feesPaid == pos.feesPaid && end.entryPrice == pos.entryPrice && end.side == pos.side
  {
    forall p, e
      ensures Booked(p, e) == GrossOf(p, e) + -FeesCharged(After(p, e)) - -FeesCharged(p)
    {
    }
    var same := (p: Position) => p.feesPaid == pos.feesPaid && p.entryPrice == pos.entryPrice && p.side == pos.side;
    Runs.Telescope(pos, After, es, same, Booked, GrossOf, p => -FeesCharged(p));
  }

  /** What the quantity the call closes is worth at the call's price. */
  function Proceeds(pos: Position, e: Event): real { e.price * ClosedQty(pos, e) }

  /**
   * After every prefix, a long has booked what its closed quantity fetched above the entry price, and a short
   * what it fetched below, less the fees once the position is closed.
   */
  lemma BookedIsPriceMove(pos: Position, es: seq<Event>)
    requires pos.open
    ensures var closed := Tally(pos, es, ClosedQty);
            var gained := Tally(pos, es, Proceeds) - pos.entryPrice * closed;
            Tally(pos, es, Booked)
            == (if pos.side == "long" then gained else -gained) - FeesCharged(PositionAfter(pos, es))
  {
    GrossTotal(pos, es, if pos.side == "long" then 1.0 else -1.0);
    BookedIsGrossLessFeesOnce(pos, es);
  }

  lemma GrossTotal(pos: Position, es: seq<Event>, k: real)
    requires k == if pos.side == "long" then 1.0 else -1.0
    ensures IsLinear(Tally(pos, es, GrossOf), k, Tally(pos, es, Proceeds), pos.entryPrice, Tally(pos, es, ClosedQty))
  {
    var same := (p: Position) => p.entryPrice == pos.entryPrice && p.side == pos.side;
    forall p, e | same(p)
      ensures same(After(p, e)) && IsLinear(GrossOf(p, e), k, Proceeds(p, e), pos.entryPrice, ClosedQty(p, e))
    {
      GrossStep(p, e, k, pos.entryPrice);
    }
    Runs.TotalLinear(pos, After, es, same, GrossOf, k, Proceeds, pos.entryPrice, ClosedQty);
  }

  lemma GrossStep(p: Position, e: Event, k: real, entry: real)
    requires k == (if p.side == "long" then 1.0 else -1.0) && entry == p.entryPrice
    ensures IsLinear(GrossOf(p, e), k, Proceeds(p, e), entry, ClosedQty(p, e))
  {
    var q := ClosedQty(p, e);
    MoveEarns(p, e.price, q);
    assert (e.price - entry) * q == e.price * q - entry * q;
    assert (entry - e.price) * q == entry * q - e.price * q;
  }

  /** A run that ends closed has closed exactly the opening quantity and been charged its fees exactly once. */
  lemma ClosedRunBooksEverything(pos: Position, es: seq<Event>)
    requires pos.open && !PositionAfter(pos, es).open
    ensures Tally(pos, es, ClosedQty) == pos.quantity
    ensures Tally(pos, es, Booked) == Tally(pos, es, GrossOf) - pos.feesPaid
    ensures var cost := pos.entryPrice * pos.quantity;
            Tally(pos, es, Booked)
            == (if pos.side == "long" then Tally(pos, es, Proceeds) - cost else cost - Tally(pos, es, Proceeds))
               - pos.feesPaid
  {
    QuantityIsConserved(pos, es);
    BookedIsGrossLessFeesOnce(pos, es);
    BookedIsPriceMove(pos, es);
  }

  /** Nothing can be booked, or changed, after the close. */
  lemma {:induction false} NothingAfterClose(pos: Position, es: seq<Event>, more: seq<Event>)
    requires !PositionAfter(pos, es).open
    ensures PositionAfter(pos, es + more) == PositionAfter(pos, es)
    ensures Tally(pos, es + more, Booked) == Tally(pos, es, Booked)
  {
    if more == [] {
      assert es + more == es;
    } else {
      var n := |more| - 1;
      NothingAfterClose(pos, es, more[..n]);
      assert (es + more)[..|es + more| - 1] == es + more[..n];
    }
  }

  /** What the position is worth at `price`: booked so far plus the rest at that price, net of fees not yet charged. */
  function Worth(booked: real, pos: Position, price: real): real {
    booked + if pos.open then NetAt(pos, price) else 0.0
  }

  /** Closing any part, or all, at `price` moves profit to the portfolio without changing the worth at that price. */
  lemma ClosingKeepsWorth(booked: real, pos: Position, e: Event)
    ensures Worth(booked + Booked(pos, e), After(pos, e), e.price) == Worth(booked, pos, e.price)
  {
    if pos.open && e.Partial? && e.quantity < pos.quantity {
      var d := PriceDiff(pos, e.price);
      assert d * e.quantity + d * (pos.quantity - e.quantity) == d * pos.quantity;
    }
  }
}
