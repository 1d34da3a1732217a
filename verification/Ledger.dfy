/**
 * Position accounting: an average-cost position machine replays the orders of one symbol and
 * books gross and net profit on every order that closes any part of the position.
 */
module Ledger {
  import opened Wrappers
  import opened Fills
  import opened RealMath
  import Runs

  /** A position whose size falls below this after a close counts as flat. */
  const DUST := 0.000000000001

  /** `size` is signed: positive long, negative short. `fee` is the entry fee not yet allocated. */
  datatype Pos = Pos(size: real, avg: real, fee: real)

  const FLAT := Pos(0.0, 0.0, 0.0)

  datatype CloseUpdate = CloseUpdate(exitPrice: real, gross: real, net: real, realized: real)

  function Lower(s: string): string {
    if s == "" then ""
    else [if 'A' <= s[0] <= 'Z' then s[0] - 'A' + 'a' else s[0]] + Lower(s[1..])
  }

  /** Any side other than "buy", in any case, sells. */
  predicate IsBuy(side: string) { Lower(side) == "buy" }

  /** A side buys if and only if it is spelt b, u, y in either case. */
  lemma IsBuyIff(side: string)
    ensures IsBuy(side) <==>
            && |side| == 3
            && (side[0] == 'b' || side[0] == 'B')
            && (side[1] == 'u' || side[1] == 'U')
            && (side[2] == 'y' || side[2] == 'Y')
  {
    LowerAt(side);
    var low := Lower(side);
    assert low == "buy" <==> |low| == 3 && low[0] == 'b' && low[1] == 'u' && low[2] == 'y';
  }

  lemma {:induction false} LowerAt(s: string)
    ensures |Lower(s)| == |s|
    ensures forall i :: 0 <= i < |s| ==> Lower(s)[i] == if 'A' <= s[i] <= 'Z' then s[i] - 'A' + 'a' else s[i]
  {
    if s != "" {
      LowerAt(s[1..]);
      assert forall i :: 1 <= i < |s| ==> s[i] == s[1..][i - 1] && Lower(s)[i] == Lower(s[1..])[i - 1];
    }
  }

  function Price(o: Order): real { if o.avgPrice.Some? then o.avgPrice.value else 0.0 }

  /** Orders without a positive quantity and price are skipped. */
  predicate Accepted(o: Order) { o.amount > 0.0 && Price(o) > 0.0 }

  /** An order without a price is skipped like one with a price of zero. */
  lemma AcceptedIff(o: Order)
    ensures Accepted(o) <==> o.amount > 0.0 && o.avgPrice.Some? && o.avgPrice.value > 0.0
    ensures Accepted(o) ==> Price(o) == o.avgPrice.value
  {
  }

  function Signed(o: Order): real { if IsBuy(o.side) then o.amount else -o.amount }

  predicate SameDirection(p: Pos, o: Order) {
    (p.size > 0.0 && Signed(o) > 0.0) || (p.size < 0.0 && Signed(o) < 0.0)
  }

  predicate Closes(p: Pos, o: Order) {
    Accepted(o) && p.size != 0.0 && !SameDirection(p, o)
  }

  function CloseQty(p: Pos, o: Order): real { Min(Abs(p.size), Abs(Signed(o))) }

  function Gross(p: Pos, o: Order): real {
    if p.size > 0.0 then (Price(o) - p.avg) * CloseQty(p, o) else (p.avg - Price(o)) * CloseQty(p, o)
  }

  function ExitFee(p: Pos, o: Order): real
    requires Closes(p, o)
  {
    o.fee * (CloseQty(p, o) / Abs(Signed(o)))
  }

  function EntryFee(p: Pos, o: Order): real
    requires Closes(p, o)
  {
    p.fee * (CloseQty(p, o) / Abs(p.size))
  }

  /** The update recorded for a closing order. */
  function CloseOf(p: Pos, o: Order): CloseUpdate
    requires Closes(p, o)
  {
    var net := Gross(p, o) - ExitFee(p, o) - EntryFee(p, o);
    CloseUpdate(Price(o), Gross(p, o), net, net)
  }

  function Remaining(p: Pos, o: Order): real { p.size + Signed(o) }

  predicate Snaps(p: Pos, o: Order) { Closes(p, o) && Abs(Remaining(p, o)) < DUST }

  predicate Flips(p: Pos, o: Order) { Abs(Signed(o)) > Abs(p.size) }

  /** The position after one order. */
  function After(p: Pos, o: Order): Pos {
    if !Accepted(o) then p
    else if p.size == 0.0 then Pos(Signed(o), Price(o), o.fee)
    else if SameDirection(p, o) then
      Pos(p.size + Signed(o),
          (Abs(p.size) * p.avg + o.amount * Price(o)) / Abs(p.size + Signed(o)),
          p.fee + o.fee)
    else if Snaps(p, o) then FLAT
    else if Flips(p, o) then Pos(Remaining(p, o), Price(o), Max(o.fee - ExitFee(p, o), 0.0))
    else Pos(Remaining(p, o), p.avg, Max(p.fee - EntryFee(p, o), 0.0))
  }

  /** The position after all of `es`, starting flat. */
  function PosAfter(es: seq<Order>): Pos { Runs.Run(FLAT, After, es) }

  /** Total of `v` over the steps of a run, each seen with the position it starts from. */
  function Tally(es: seq<Order>, v: (Pos, Order) -> real): real { Runs.Total(FLAT, After, es, v) }

  // ---------- What is booked, and what should have been ----------

  function BookedGross(p: Pos, o: Order): real { if Closes(p, o) then CloseOf(p, o).gross else 0.0 }
  function BookedNet(p: Pos, o: Order): real { if Closes(p, o) then CloseOf(p, o).net else 0.0 }

  /** Cash received by an order: a buy pays, a sell receives. */
  function Cash(p: Pos, o: Order): real { if Accepted(o) then -Signed(o) * Price(o) else 0.0 }
  function OrderFee(p: Pos, o: Order): real { if Accepted(o) then o.fee else 0.0 }
  function SignedQty(p: Pos, o: Order): real { if Accepted(o) then Signed(o) else 0.0 }

  /** The quantity a snap throws away, the price it carried, and the entry or exit fee it carried. */
  function DustQty(p: Pos, o: Order): real { if Snaps(p, o) then Remaining(p, o) else 0.0 }
  function DustPrice(p: Pos, o: Order): real { if Flips(p, o) then Price(o) else p.avg }
  function DustValue(p: Pos, o: Order): real { DustQty(p, o) * DustPrice(p, o) }
  function DustFee(p: Pos, o: Order): real {
    if !Snaps(p, o) then 0.0
    else if Flips(p, o) then o.fee * (Abs(Remaining(p, o)) / Abs(Signed(o)))
    else p.fee * (Abs(Remaining(p, o)) / Abs(p.size))
  }
  function SnapCount(p: Pos, o: Order): real { if DustQty(p, o) != 0.0 then 1.0 else 0.0 }

  /** A flat position carries no fee. */
  predicate Wf(p: Pos) { p.size == 0.0 ==> p == FLAT }

  // ---------- One step ----------

  /** Gross profit is cash received plus the change in the position's book value, plus dust thrown away. */
  lemma GrossStep(p: Pos, o: Order)
    ensures BookedGross(p, o) ==
            Cash(p, o) + After(p, o).size * After(p, o).avg - p.size * p.avg + DustValue(p, o)
  {
    if Closes(p, o) {
      GrossOfClose(p, o);
    } else if Accepted(o) && p.size != 0.0 {
      WeightedAverage(p.size, p.avg, Signed(o), Price(o));
    }
  }

  lemma GrossOfClose(p: Pos, o: Order)
    requires Closes(p, o)
    ensures BookedGross(p, o) ==
            Cash(p, o) + After(p, o).size * After(p, o).avg - p.size * p.avg + DustValue(p, o)
  {
    var s, q, m := p.size, Signed(o), Price(o);
    if Flips(p, o) {
      assert CloseQty(p, o) == Abs(s);
      FlipAlgebra(s, p.avg, q, m);
    } else {
      assert CloseQty(p, o) == Abs(q);
      PartialAlgebra(s, p.avg, q, m);
    }
  }

  lemma FlipAlgebra(s: real, avg: real, q: real, m: real)
    ensures (if s > 0.0 then (m - avg) * Abs(s) else (avg - m) * Abs(s)) == -q * m + (s + q) * m - s * avg
  {
  }

  lemma PartialAlgebra(s: real, avg: real, q: real, m: real)
    requires (s > 0.0 && q < 0.0) || (s < 0.0 && q > 0.0)
    ensures (if s > 0.0 then (m - avg) * Abs(q) else (avg - m) * Abs(q)) == -q * m + (s + q) * avg - s * avg
  {
  }

  /** Size moves by the signed quantity, less dust thrown away; a flat position is always FLAT. */
  lemma SizeStep(p: Pos, o: Order)
    ensures After(p, o).size == p.size + SignedQty(p, o) - DustQty(p, o)
    ensures Wf(p) ==> Wf(After(p, o))
    ensures Abs(DustQty(p, o)) < DUST
  {
  }

  // ---------- Profit over whole runs ----------

  function BookValue(p: Pos): real { p.size * p.avg }

  /** After every prefix: booked gross profit is cash received plus book value, plus dust. */
  lemma GrossIsCashPlusBookValue(es: seq<Order>)
    ensures Tally(es, BookedGross) == Tally(es, Cash) + BookValue(PosAfter(es)) + Tally(es, DustValue)
  {
    var a := Runs.Plus(Cash, DustValue);
    forall p, o
      ensures BookedGross(p, o) == a(p, o) + BookValue(After(p, o)) - BookValue(p)
    {
      GrossStep(p, o);
    }
    Runs.Telescope(FLAT, After, es, p => true, BookedGross, a, BookValue);
    Runs.TotalPlus(FLAT, After, es, Cash, DustValue);
  }

  /** The position is the running signed quantity, less dust, and FLAT whenever its size is zero. */
  lemma SizeIsSignedSum(es: seq<Order>)
    ensures PosAfter(es).size == Tally(es, SignedQty) - Tally(es, DustQty)
    ensures Wf(PosAfter(es))
  {
    Runs.Telescope(FLAT, After, es, Wf, SignedQty, DustQty, (p: Pos) => p.size);
  }

  /** The prices of the orders that opened or added to the position held now. */
  function Builders(es: seq<Order>): seq<real> {
    if es == [] then []
    else
      var before, p, o := es[..|es| - 1], PosAfter(es[..|es| - 1]), es[|es| - 1];
      if !Accepted(o) then Builders(before)
      else if p.size == 0.0 then [Price(o)]
      else if SameDirection(p, o) then Builders(before) + [Price(o)]
      else if Snaps(p, o) then []
      else if Flips(p, o) then [Price(o)]
      else Builders(before)
  }

  /** An open position's average price lies between the lowest and highest price that built it. */
  lemma {:induction false} AverageWithinBuilders(es: seq<Order>, lo: real, hi: real)
    requires forall m :: m in Builders(es) ==> lo <= m <= hi
    ensures PosAfter(es).size != 0.0 ==> Builders(es) != [] && lo <= PosAfter(es).avg <= hi
  {
    if es != [] {
      var before, p, o := es[..|es| - 1], PosAfter(es[..|es| - 1]), es[|es| - 1];
      if Rebuilds(p, o) {
        assert Builders(es) == if Snaps(p, o) then [] else [Price(o)];
        assert !Snaps(p, o) ==> Price(o) in Builders(es);
        RebuildStep(p, o);
      } else {
        assert forall m :: m in Builders(before) ==> m in Builders(es);
        AverageWithinBuilders(before, lo, hi);
        if Accepted(o) && SameDirection(p, o) {
          assert Builders(es) == Builders(before) + [Price(o)];
          assert Price(o) in Builders(es);
        }
        KeepStep(p, o, lo, hi);
      }
    }
  }

  /** The order starts a new position, or leaves none. */
  predicate Rebuilds(p: Pos, o: Order) {
    Accepted(o) && (p.size == 0.0 || Snaps(p, o) || (Closes(p, o) && Flips(p, o)))
  }

  lemma RebuildStep(p: Pos, o: Order)
    requires Rebuilds(p, o)
    ensures if Snaps(p, o) then After(p, o).size == 0.0 else After(p, o).avg == Price(o)
  {
  }

  lemma KeepStep(p: Pos, o: Order, lo: real, hi: real)
    requires !Rebuilds(p, o)
    requires p.size != 0.0 ==> lo <= p.avg <= hi
    requires Accepted(o) && SameDirection(p, o) ==> lo <= Price(o) <= hi
    ensures p.size == 0.0 ==> After(p, o).size == 0.0
    ensures After(p, o).size != 0.0 ==> lo <= After(p, o).avg <= hi
  {
    if Accepted(o) && SameDirection(p, o) {
      AverageBetween(Abs(p.size), p.avg, o.amount, Price(o), lo, hi);
    }
  }

  /** Every builder is the price of an accepted order of the run. */
  lemma {:induction false} BuildersArePrices(es: seq<Order>, m: real)
    requires m in Builders(es)
    ensures exists o :: o in es && Accepted(o) && Price(o) == m
  {
    var before, o := es[..|es| - 1], es[|es| - 1];
    if m in Builders(before) {
      BuildersArePrices(before, m);
      var b :| b in before && Accepted(b) && Price(b) == m;
      assert b in es;
    } else {
      assert o in es;
    }
  }

  /** Dust thrown away is worth less than DUST times the highest price, per snap that was not exact. */
  lemma DustIsSmall(es: seq<Order>, hi: real)
    requires forall o :: o in es && Accepted(o) ==> Price(o) <= hi
    ensures Runs.TotalWithin(FLAT, After, es, DustValue, DUST * hi, SnapCount)
    ensures Runs.TotalWithin(FLAT, After, es, DustQty, DUST, SnapCount)
  {
    var k := DUST * hi;
    forall n | 0 <= n < |es|
      ensures Runs.StepWithin(FLAT, After, es, DustValue, k, SnapCount, n)
      ensures Runs.StepWithin(FLAT, After, es, DustQty, DUST, SnapCount, n)
    {
      DustStepIsSmall(es, n, hi);
    }
    Runs.TotalBoundedBy(FLAT, After, es, DustValue, k, SnapCount);
    Runs.TotalBoundedBy(FLAT, After, es, DustQty, DUST, SnapCount);
  }

  lemma DustStepIsSmall(es: seq<Order>, n: nat, hi: real)
    requires n < |es| && forall o :: o in es && Accepted(o) ==> Price(o) <= hi
    ensures Runs.StepWithin(FLAT, After, es, DustValue, DUST * hi, SnapCount, n)
    ensures Runs.StepWithin(FLAT, After, es, DustQty, DUST, SnapCount, n)
  {
    PriceHeld(es[..n], hi);
    DustOfStep(PosAfter(es[..n]), es[n], hi);
    TimesFlag(DUST * hi, SnapCount(PosAfter(es[..n]), es[n]));
  }

  /** The average price held is positive and no higher than the highest order price. */
  lemma PriceHeld(es: seq<Order>, hi: real)
    requires forall o :: o in es && Accepted(o) ==> Price(o) <= hi
    ensures PosAfter(es).size != 0.0 ==> 0.0 <= PosAfter(es).avg <= hi
  {
    forall m | m in Builders(es) ensures 0.0 <= m <= hi {
      BuildersArePrices(es, m);
    }
    AverageWithinBuilders(es, 0.0, hi);
  }

  lemma DustOfStep(p: Pos, o: Order, hi: real)
    requires (p.size != 0.0 ==> 0.0 <= p.avg <= hi) && (Accepted(o) ==> Price(o) <= hi)
    ensures DustQty(p, o) == 0.0 ==> DustValue(p, o) == 0.0
    ensures DustQty(p, o) != 0.0 ==> Abs(DustValue(p, o)) <= DUST * hi && Abs(DustQty(p, o)) <= DUST
  {
    if DustQty(p, o) != 0.0 {
      AbsProductBound(DustValue(p, o), DustQty(p, o), DUST, DustPrice(p, o), hi);
    }
  }

  // ---------- Quantities on a grid lose nothing ----------

  ghost predicate IsMultiple(q: real, g: real, k: int) { q == k as real * g }

  ghost predicate OnGrid(q: real, g: real) { exists k :: IsMultiple(q, g, k) }

  /** No snap of the run threw anything away. */
  ghost predicate Exact(es: seq<Order>) {
    forall n :: 0 <= n < |es| ==> DustQty(PosAfter(es[..n]), es[n]) == 0.0
  }

  lemma ExactLosesNothing(es: seq<Order>)
    requires Exact(es)
    ensures Tally(es, DustValue) == 0.0 && Tally(es, DustQty) == 0.0
  {
    Runs.TotalZero(FLAT, After, es, DustQty);
    forall n | 0 <= n < |es| ensures DustValue(PosAfter(es[..n]), es[n]) == 0.0 {
      NoDustNoValue(PosAfter(es[..n]), es[n]);
    }
    Runs.TotalZero(FLAT, After, es, DustValue);
  }

  lemma NoDustNoValue(p: Pos, o: Order)
    requires DustQty(p, o) == 0.0
    ensures DustValue(p, o) == 0.0
  {
  }

  /** If all quantities are multiples of one grid step of at least DUST, every snap is exact. */
  lemma {:induction false} GridIsExact(es: seq<Order>, g: real)
    requires g >= DUST
    requires forall o :: o in es && Accepted(o) ==> OnGrid(o.amount, g)
    ensures Exact(es) && OnGrid(PosAfter(es).size, g)
  {
    if es == [] {
      assert IsMultiple(0.0, g, 0);
    } else {
      var before, o := es[..|es| - 1], es[|es| - 1];
      var p := PosAfter(before);
      assert forall b :: b in before ==> b in es;
      GridIsExact(before, g);
      assert OnGrid(After(p, o).size, g) && DustQty(p, o) == 0.0 by {
        assert o in es;
        GridStep(p, o, g);
      }
      forall n | 0 <= n < |es| ensures DustQty(PosAfter(es[..n]), es[n]) == 0.0 {
        if n < |before| {
          assert before[..n] == es[..n] && before[n] == es[n];
        } else {
          assert es[..n] == before;
        }
      }
    }
  }

  lemma GridStep(p: Pos, o: Order, g: real)
    requires g >= DUST && OnGrid(p.size, g) && (Accepted(o) ==> OnGrid(o.amount, g))
    ensures OnGrid(After(p, o).size, g) && DustQty(p, o) == 0.0
  {
    if Accepted(o) {
      var i: int :| IsMultiple(p.size, g, i);
      var j: int :| IsMultiple(o.amount, g, j);
      var k := if IsBuy(o.side) then i + j else i - j;
      assert IsMultiple(Remaining(p, o), g, k);
      assert IsMultiple(Signed(o), g, if IsBuy(o.side) then j else -j);
      assert IsMultiple(0.0, g, 0);
      if k != 0 {
        GridGap(k, g);
      }
    }
  }

  lemma GridGap(k: int, g: real)
    requires k != 0 && g > 0.0
    ensures Abs(k as real * g) >= g
  {
    if k > 0 { MulMono(g, 1.0, k as real); } else { MulMono(g, 1.0, -(k as real)); }
  }

  /** On an exact run, gross profit is cash plus book value; a run that ends flat earned its cash. */
  lemma ExactGross(es: seq<Order>)
    requires Exact(es)
    ensures Tally(es, BookedGross) == Tally(es, Cash) + BookValue(PosAfter(es))
    ensures PosAfter(es).size == Tally(es, SignedQty)
  {
    GrossIsCashPlusBookValue(es);
    SizeIsSignedSum(es);
    ExactLosesNothing(es);
  }

  // ---------- Fees ----------

  /** The fees charged against a closing order: what separates its net profit from its gross. */
  function BookedCost(p: Pos, o: Order): real { BookedGross(p, o) - BookedNet(p, o) }

  /** A clamp at zero bites: a negative fee would have been carried into the remaining position. */
  predicate ClampBites(p: Pos, o: Order) {
    Closes(p, o) && !Snaps(p, o) && (if Flips(p, o) then o.fee else p.fee) < 0.0
  }

  /** What the clamp adds to the fee carried forward. */
  function ClampGain(p: Pos, o: Order): real {
    if !Closes(p, o) || Snaps(p, o) then 0.0
    else if Flips(p, o) then Max(o.fee - ExitFee(p, o), 0.0) - (o.fee - ExitFee(p, o))
    else Max(p.fee - EntryFee(p, o), 0.0) - (p.fee - EntryFee(p, o))
  }

  /** Fees charged, plus fees carried, are the fees paid: up to what a clamp adds and a snap throws away. */
  ghost predicate FeesAddUp(p: Pos, o: Order) {
    && BookedCost(p, o) == OrderFee(p, o) + ClampGain(p, o) - DustFee(p, o) - (After(p, o).fee - p.fee)
    && ClampGain(p, o) >= 0.0
    && (ClampGain(p, o) == 0.0 <==> !ClampBites(p, o))
    && (DustQty(p, o) == 0.0 ==> DustFee(p, o) == 0.0)
  }

  lemma FeeStep(p: Pos, o: Order)
    requires Wf(p)
    ensures FeesAddUp(p, o)
  {
    if Closes(p, o) {
      if Flips(p, o) {
        FeeStepFlip(p, o);
      } else {
        FeeStepPartial(p, o);
      }
    }
  }

  /** The two fees of a close, their remainders, and what the position is left with. */
  lemma CloseSides(p: Pos, o: Order)
    requires Closes(p, o)
    ensures Abs(Signed(o)) == o.amount
    ensures if Flips(p, o) then CloseQty(p, o) == Abs(p.size) && Abs(Remaining(p, o)) == o.amount - CloseQty(p, o)
            else CloseQty(p, o) == o.amount && Abs(Remaining(p, o)) == Abs(p.size) - CloseQty(p, o)
    ensures !Snaps(p, o) ==> After(p, o).size == Remaining(p, o) && After(p, o).size != 0.0
    ensures BookedCost(p, o) == ExitFee(p, o) + EntryFee(p, o)
  {
  }

  lemma FeeStepFlip(p: Pos, o: Order)
    requires Closes(p, o) && Flips(p, o)
    ensures FeesAddUp(p, o)
  {
    CloseSides(p, o);
    FlipCharges(p, o);
  }

  /** A flip charges the whole entry fee; the rest of the order's fee is carried, or is lost with the dust. */
  lemma FlipCharges(p: Pos, o: Order)
    requires Closes(p, o) && Flips(p, o)
    ensures EntryFee(p, o) == p.fee
    ensures o.fee - ExitFee(p, o) == o.fee * (Abs(Remaining(p, o)) / Abs(Signed(o)))
    ensures Abs(Remaining(p, o)) > 0.0
    ensures o.fee - ExitFee(p, o) < 0.0 <==> o.fee < 0.0
  {
    CloseSides(p, o);
    assert EntryFee(p, o) == p.fee by { Share(p.fee, Abs(p.size), Abs(p.size)); }
    FeeLeft(o.fee, CloseQty(p, o), o.amount);
  }

  lemma FeeStepPartial(p: Pos, o: Order)
    requires Closes(p, o) && !Flips(p, o)
    ensures FeesAddUp(p, o)
  {
    CloseSides(p, o);
    assert ExitFee(p, o) == o.fee by { Share(o.fee, o.amount, o.amount); }
    FeeLeft(p.fee, CloseQty(p, o), Abs(p.size));
  }

  /** The part of a fee that a close leaves over: its share, its sign, and what the clamp makes of it. */
  lemma FeeLeft(fee: real, part: real, whole: real)
    requires whole > 0.0 && 0.0 <= part <= whole
    ensures fee - fee * (part / whole) == fee * ((whole - part) / whole)
    ensures part == whole ==> fee * ((whole - part) / whole) == 0.0
    ensures part < whole ==> (fee * ((whole - part) / whole) < 0.0 <==> fee < 0.0)
    ensures fee >= 0.0 ==> Max(fee - fee * (part / whole), 0.0) * whole == fee * (whole - part)
  {
    Share(fee, part, whole);
    var y := (whole - part) / whole;
    assert y * whole == whole - part;
    assert fee * y * whole == fee * (y * whole);
    assert fee >= 0.0 ==> fee * y >= 0.0;
  }

  /**
   * A close takes the smaller of the order's quantity and the position. It is charged the order's fee in
   * proportion to the quantity it closes, and the entry fee in proportion to the part of the position it
   * closes; it is booked at the order's price.
   */
  lemma CloseIsProRata(p: Pos, o: Order)
    requires Closes(p, o)
    ensures CloseOf(p, o).exitPrice == Price(o) && CloseOf(p, o).realized == CloseOf(p, o).net
    ensures CloseOf(p, o).net == CloseOf(p, o).gross - ExitFee(p, o) - EntryFee(p, o)
    ensures CloseQty(p, o) <= o.amount && (CloseQty(p, o) == o.amount || CloseQty(p, o) == Abs(p.size))
    ensures CloseQty(p, o) <= p.size || CloseQty(p, o) <= -p.size
    ensures ExitFee(p, o) * o.amount == o.fee * CloseQty(p, o)
    ensures EntryFee(p, o) * Abs(p.size) == p.fee * CloseQty(p, o)
  {
    CloseSides(p, o);
    Share(o.fee, CloseQty(p, o), o.amount);
    Share(p.fee, CloseQty(p, o), Abs(p.size));
  }

  /**
   * What a partial close leaves keeps its average price, and its fee per unit unless that is negative: a
   * negative fee is forgotten.
   */
  lemma PartialKeepsUnitCost(p: Pos, o: Order)
    requires Closes(p, o) && !Snaps(p, o) && !Flips(p, o)
    ensures After(p, o).avg == p.avg
    ensures p.fee >= 0.0 ==> After(p, o).fee * Abs(p.size) == p.fee * Abs(After(p, o).size)
    ensures p.fee < 0.0 ==> After(p, o).fee == 0.0
  {
    CloseSides(p, o);
    FeeLeft(p.fee, CloseQty(p, o), Abs(p.size));
  }

  /** A flip opens the other way at the order's own price, and its fee per unit unless that is negative. */
  lemma FlipOpensAtUnitCost(p: Pos, o: Order)
    requires Closes(p, o) && !Snaps(p, o) && Flips(p, o)
    ensures After(p, o).avg == Price(o) && After(p, o).size * p.size < 0.0
    ensures o.fee >= 0.0 ==> After(p, o).fee * o.amount == o.fee * Abs(After(p, o).size)
    ensures o.fee < 0.0 ==> After(p, o).fee == 0.0
  {
    CloseSides(p, o);
    FeeLeft(o.fee, CloseQty(p, o), o.amount);
  }

  /** A close ends flat if and only if less than 1e-12 would remain on either side. */
  lemma EndsFlatIff(p: Pos, o: Order)
    requires Closes(p, o)
    ensures var rest := p.size + if IsBuy(o.side) then o.amount else -o.amount;
            After(p, o).size == 0.0 <==> -1.0 < 1_000_000_000_000.0 * rest < 1.0
  {
  }

  /** No clamp bites on any step of the run. */
  ghost predicate Unclamped(es: seq<Order>) {
    forall n :: 0 <= n < |es| ==> !ClampBites(PosAfter(es[..n]), es[n])
  }

  function FeeHeld(p: Pos): real { p.fee }

  /** After every prefix: fees charged plus fees carried are fees paid, plus clamp gains, less fees lost to dust. */
  lemma FeesBalance(es: seq<Order>)
    ensures Tally(es, BookedCost) + FeeHeld(PosAfter(es))
            == Tally(es, OrderFee) + Tally(es, ClampGain) - Tally(es, DustFee)
  {
    var a := Runs.Plus(Runs.Plus(OrderFee, ClampGain), Runs.Scaled(-1.0, DustFee));
    forall p, o | Wf(p)
      ensures Wf(After(p, o)) && BookedCost(p, o) == a(p, o) + -FeeHeld(After(p, o)) - -FeeHeld(p)
    {
      FeeStep(p, o);
      SizeStep(p, o);
    }
    Runs.Telescope(FLAT, After, es, Wf, BookedCost, a, p => -FeeHeld(p));
    Runs.TotalPlus(FLAT, After, es, Runs.Plus(OrderFee, ClampGain), Runs.Scaled(-1.0, DustFee));
    Runs.TotalPlus(FLAT, After, es, OrderFee, ClampGain);
    Runs.TotalScaled(FLAT, After, es, -1.0, DustFee);
  }

  /** On an exact run fees are conserved if and only if no clamp bites, whatever the signs of the fees. */
  lemma FeesConservedIff(es: seq<Order>)
    requires Exact(es)
    ensures Tally(es, BookedCost) + FeeHeld(PosAfter(es)) == Tally(es, OrderFee) <==> Unclamped(es)
  {
    FeesBalance(es);
    forall n | 0 <= n < |es|
      ensures var p := PosAfter(es[..n]);
              DustFee(p, es[n]) == 0.0 && ClampGain(p, es[n]) >= 0.0
              && (ClampGain(p, es[n]) == 0.0 <==> !ClampBites(p, es[n]))
    {
      SizeIsSignedSum(es[..n]);
      FeeStep(PosAfter(es[..n]), es[n]);
    }
    Runs.TotalZeroIff(FLAT, After, es, DustFee);
    Runs.TotalZeroIff(FLAT, After, es, ClampGain);
  }

  ghost predicate FeesNonNegative(es: seq<Order>) {
    forall o :: o in es && Accepted(o) ==> o.fee >= 0.0
  }

  /** Non-negative fees are never clamped, and a snap throws away none or a non-negative part of them. */
  lemma {:induction false} NonNegativeFeesAreUnclamped(es: seq<Order>)
    requires FeesNonNegative(es)
    ensures PosAfter(es).fee >= 0.0
    ensures Unclamped(es)
  {
    if es != [] {
      var before, o := es[..|es| - 1], es[|es| - 1];
      assert forall b :: b in before ==> b in es;
      assert o in es;
      NonNegativeFeesAreUnclamped(before);
      assert forall n :: 0 <= n < |before| ==> before[..n] == es[..n];
      forall n | 0 <= n < |es| ensures !ClampBites(PosAfter(es[..n]), es[n]) {
        if n < |before| {
          assert !ClampBites(PosAfter(before[..n]), before[n]);
        } else {
          assert es[..n] == before;
        }
      }
    }
  }

  /** Conservation: on an exact run of non-negative fees, fees charged plus fees carried are fees paid. */
  lemma FeesConserved(es: seq<Order>)
    requires Exact(es) && FeesNonNegative(es)
    ensures Tally(es, BookedCost) + FeeHeld(PosAfter(es)) == Tally(es, OrderFee)
  {
    NonNegativeFeesAreUnclamped(es);
    FeesConservedIff(es);
  }

  /** A symbol that ends flat has total gross profit equal to its cash flow. */
  lemma FlatGrossIsCash(es: seq<Order>)
    requires Exact(es) && PosAfter(es).size == 0.0
    ensures Tally(es, BookedGross) == Tally(es, Cash)
  {
    ExactGross(es);
    assert BookValue(PosAfter(es)) == 0.0;
  }

  /** A symbol that ends flat has been charged exactly its fees if and only if no clamp bites. */
  lemma FlatCostIff(es: seq<Order>)
    requires Exact(es) && PosAfter(es).size == 0.0
    ensures Tally(es, BookedCost) == Tally(es, OrderFee) <==> Unclamped(es)
  {
    SizeIsSignedSum(es);
    FeesConservedIff(es);
    assert FeeHeld(PosAfter(es)) == 0.0;
  }

  /**
   * A symbol that ends flat has total net profit equal to its cash flow minus all its fees if and only if
   * no clamp bites, whatever the signs of the fees.
   */
  lemma FlatNetIff(es: seq<Order>)
    requires Exact(es) && PosAfter(es).size == 0.0
    ensures Tally(es, BookedNet) == Tally(es, Cash) - Tally(es, OrderFee) <==> Unclamped(es)
  {
    FlatGrossIsCash(es);
    FlatCostIff(es);
    CostIsGrossMinusNet(es);
  }

  /** Without negative fees, the net profit of a symbol that ends flat is its cash flow minus all its fees. */
  lemma FlatNetIsCashMinusFees(es: seq<Order>)
    requires Exact(es) && FeesNonNegative(es) && PosAfter(es).size == 0.0
    ensures Tally(es, BookedNet) == Tally(es, Cash) - Tally(es, OrderFee)
  {
    NonNegativeFeesAreUnclamped(es);
    FlatNetIff(es);
  }

  lemma CostIsGrossMinusNet(es: seq<Order>)
    ensures Tally(es, BookedNet) == Tally(es, BookedGross) - Tally(es, BookedCost)
  {
    forall n | 0 <= n < |es|
      ensures BookedGross(PosAfter(es[..n]), es[n]) == Runs.Plus(BookedNet, BookedCost)(PosAfter(es[..n]), es[n])
    {
      var p, o := PosAfter(es[..n]), es[n];
      assert BookedGross(p, o) == BookedNet(p, o) + BookedCost(p, o);
    }
    Runs.TotalCong(FLAT, After, es, BookedGross, Runs.Plus(BookedNet, BookedCost));
    Runs.TotalPlus(FLAT, After, es, BookedNet, BookedCost);
  }

  lemma TwoSteps(a: Order, b: Order, v: (Pos, Order) -> real)
    ensures PosAfter([a, b]) == After(After(FLAT, a), b)
    ensures Tally([a, b], v) == v(FLAT, a) + v(After(FLAT, a), b)
    ensures Exact([a, b]) <==> DustQty(FLAT, a) == 0.0 && DustQty(After(FLAT, a), b) == 0.0
    ensures Unclamped([a, b]) <==> !ClampBites(FLAT, a) && !ClampBites(After(FLAT, a), b)
  {
    var es := [a, b];
    assert es[..1] == [a] && es[..0] == [] && [a][..0] == [];
    assert PosAfter(es[..0]) == FLAT && PosAfter(es[..1]) == After(FLAT, a);
    assert Tally(es[..0], v) == 0.0 && Tally([a], v) == v(FLAT, a);
    assert es[0] == a && es[1] == b;
  }

  /** A rebate on entry is not conserved: half of it disappears in the clamp of the first partial close. */
  lemma RebateIsLost(buy: string, sell: string)
    requires IsBuy(buy) && !IsBuy(sell)
    ensures
      var entry := Order("e", "", "S", buy, 2.0, -1.0, 0.0, 20.0, None, Some(10.0));
      var exit := Order("x", "", "S", sell, 1.0, 0.0, 0.0, 10.0, None, Some(10.0));
      var es := [entry, exit];
      Exact(es) && Tally(es, BookedCost) + FeeHeld(PosAfter(es)) != Tally(es, OrderFee)
  {
    var entry := Order("e", "", "S", buy, 2.0, -1.0, 0.0, 20.0, None, Some(10.0));
    var exit := Order("x", "", "S", sell, 1.0, 0.0, 0.0, 10.0, None, Some(10.0));
    assert After(FLAT, entry) == Pos(2.0, 10.0, -1.0);
    TwoSteps(entry, exit, OrderFee);
    FeesConservedIff([entry, exit]);
  }

  /** A close that leaves half of the dust limit ends flat: the remainder is dropped. */
  lemma RemainderIsDropped(buy: string, sell: string)
    requires IsBuy(buy) && !IsBuy(sell)
    ensures
      var entry := Order("e", "", "S", buy, 1.0, 0.0, 0.0, 10.0, None, Some(10.0));
      var exit := Order("x", "", "S", sell, 1.0 - DUST / 2.0, 0.0, 0.0, 10.0, None, Some(10.0));
      var es := [entry, exit];
      PosAfter(es) == FLAT && Tally(es, SignedQty) == DUST / 2.0 && !Exact(es)
  {
    var entry := Order("e", "", "S", buy, 1.0, 0.0, 0.0, 10.0, None, Some(10.0));
    var exit := Order("x", "", "S", sell, 1.0 - DUST / 2.0, 0.0, 0.0, 10.0, None, Some(10.0));
    assert After(FLAT, entry) == Pos(1.0, 10.0, 0.0);
    TwoSteps(entry, exit, SignedQty);
  }
}
