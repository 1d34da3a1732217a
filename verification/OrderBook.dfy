/** The accumulated order book of one symbol: applying updates, holding the last good book, pruning. */
module OrderBook {
  import opened Wrappers
  import Runs

  datatype Level = Level(price: real, size: real)

  datatype Side = Bid | Ask

  /** Price to size. */
  type Ladder = map<real, real>

  datatype Book = Book(bids: Ladder, asks: Ladder) {
    function On(side: Side): Ladder { if side.Bid? then bids else asks }
  }

  const EMPTY := Book(map[], map[])

  datatype Kind = Snapshot | Delta

  datatype Update = Update(kind: Kind, bids: seq<Level>, asks: seq<Level>) {
    function On(side: Side): seq<Level> { if side.Bid? then bids else asks }
  }

  /** Bids are better when higher, asks when lower. */
  predicate Better(side: Side, p: real, q: real) { if side.Bid? then p > q else p < q }

  lemma {:induction false} BestExists(side: Side, prices: set<real>, p: real)
    requires p in prices
    ensures exists b :: b in prices && forall q :: q in prices ==> !Better(side, q, b)
    decreases |prices|
  {
    var rest := prices - {p};
    if r :| r in rest {
      assert |rest| < |prices|;
      BestExists(side, rest, r);
      var b :| b in rest && forall q :: q in rest ==> !Better(side, q, b);
      var c := if Better(side, p, b) then p else b;
      assert forall q :: q in prices ==> q == p || q in rest;
      assert c in prices && forall q :: q in prices ==> !Better(side, q, c);
    } else {
      assert forall q :: q in prices ==> q == p || q in rest;
    }
  }

  lemma Pick<T>(s: set<T>) returns (p: T)
    requires s != {}
    ensures p in s
  {
    p :| p in s;
  }

  lemma LadderHasBest(side: Side, m: Ladder)
    requires m != map[]
    ensures exists b :: b in m.Keys && forall p :: p in m.Keys ==> !Better(side, p, b)
  {
    assert m.Keys != {};
    var p := Pick(m.Keys);
    BestExists(side, m.Keys, p);
  }

  /** The best price of a non-empty side. */
  function Best(side: Side, m: Ladder): (b: real)
    requires m != map[]
    ensures b in m && forall p :: p in m ==> !Better(side, p, b)
  {
    LadderHasBest(side, m);
    var b :| b in m.Keys && forall p :: p in m.Keys ==> !Better(side, p, b);
    b
  }

  ghost predicate IsHighest(m: Ladder, b: real) { b in m && forall p :: p in m ==> p <= b }

  ghost predicate IsLowest(m: Ladder, b: real) { b in m && forall p :: p in m ==> p >= b }

  /** The best bid is the highest price of its side, and the best ask the lowest of its. */
  lemma BestIsExtreme(m: Ladder)
    requires m != map[]
    ensures forall b :: IsHighest(m, b) <==> b == Best(Bid, m)
    ensures forall b :: IsLowest(m, b) <==> b == Best(Ask, m)
  {
  }

  predicate TwoSided(b: Book) { b.bids != map[] && b.asks != map[] }

  predicate Crossed(b: Book) { TwoSided(b) && Best(Bid, b.bids) > Best(Ask, b.asks) }

  /** A book is crossed if and only if some bid is higher than some ask. */
  lemma CrossedIff(b: Book)
    ensures Crossed(b) <==> exists p, q :: p in b.bids && q in b.asks && p > q
  {
    if TwoSided(b) {
      BestIsExtreme(b.bids);
      BestIsExtreme(b.asks);
      assert Best(Bid, b.bids) in b.bids && Best(Ask, b.asks) in b.asks;
    }
  }

  // ---------- Applying an update ----------

  /** A snapshot replaces a side; a later entry for a price wins, and a zero size stays. */
  function FromLevels(ls: seq<Level>): Ladder {
    if ls == [] then map[] else FromLevels(ls[..|ls| - 1])[ls[|ls| - 1].price := ls[|ls| - 1].size]
  }

  /** A delta sets the prices it names, in order; size zero removes the price. */
  function WithLevels(m: Ladder, ls: seq<Level>): Ladder {
    if ls == [] then m
    else
      var before, l := WithLevels(m, ls[..|ls| - 1]), ls[|ls| - 1];
      if l.size == 0.0 then before - {l.price} else before[l.price := l.size]
  }

  function ApplySide(m: Ladder, kind: Kind, ls: seq<Level>): Ladder {
    if kind.Snapshot? then FromLevels(ls) else WithLevels(m, ls)
  }

  function Apply(b: Book, u: Update): Book {
    Book(ApplySide(b.bids, u.kind, u.bids), ApplySide(b.asks, u.kind, u.asks))
  }

  /** The size the last entry for `p` names, if any. */
  function LastSize(ls: seq<Level>, p: real): Option<real> {
    if ls == [] then None
    else if ls[|ls| - 1].price == p then Some(ls[|ls| - 1].size)
    else LastSize(ls[..|ls| - 1], p)
  }

  /** Entry `i` is the last one for `p`. */
  ghost predicate IsLastFor(ls: seq<Level>, p: real, i: int) {
    0 <= i < |ls| && ls[i].price == p && forall j :: i < j < |ls| ==> ls[j].price != p
  }

  /** The named size is that of the last entry for `p`, and there is none exactly when no entry is for `p`. */
  lemma {:induction false} LastSizeIsLast(ls: seq<Level>, p: real)
    ensures forall i :: IsLastFor(ls, p, i) ==> LastSize(ls, p) == Some(ls[i].size)
    ensures LastSize(ls, p).None? <==> forall l :: l in ls ==> l.price != p
  {
    if ls != [] {
      var before, l := ls[..|ls| - 1], ls[|ls| - 1];
      LastSizeIsLast(before, p);
      assert l in ls && forall k :: k in ls <==> k in before || k == l;
      forall i | IsLastFor(ls, p, i) ensures LastSize(ls, p) == Some(ls[i].size) {
        assert i < |before| ==> IsLastFor(before, p, i);
      }
    }
  }

  function At(m: Ladder, p: real): Option<real> { if p in m then Some(m[p]) else None }

  /** The update leaves a level at `p`. */
  predicate Writes(u: Update, side: Side, p: real) {
    var s := LastSize(u.On(side), p);
    s.Some? && (u.kind.Snapshot? || s.value != 0.0)
  }

  /** An update decides each price it names by its last entry; a snapshot decides every price. */
  lemma {:induction false} ApplyAt(m: Ladder, kind: Kind, ls: seq<Level>, p: real)
    ensures At(ApplySide(m, kind, ls), p) ==
            match LastSize(ls, p)
            case None => if kind.Snapshot? then None else At(m, p)
            case Some(s) => if kind.Delta? && s == 0.0 then None else Some(s)
  {
    if ls != [] {
      ApplyAt(m, kind, ls[..|ls| - 1], p);
    }
  }

  // ---------- Pruning and merging ----------

  function Mid(b: Book): real
    requires TwoSided(b)
  {
    var bb, ba := Best(Bid, b.bids), Best(Ask, b.asks);
    if bb != 0.0 then (bb + ba) / 2.0 else ba
  }

  /** Within 2% of mid of its side's best price. */
  predicate InBand(b: Book, side: Side, p: real)
    requires TwoSided(b)
  {
    var slack := Mid(b) * 0.02;
    if side.Bid? then p >= Best(Bid, b.bids) - slack else p <= Best(Ask, b.asks) + slack
  }

  function Prune(b: Book): Book {
    if !TwoSided(b) then b
    else Book(map p | p in b.bids && InBand(b, Bid, p) :: b.bids[p],
              map p | p in b.asks && InBand(b, Ask, p) :: b.asks[p])
  }

  /** What the code would do to a held book that is itself crossed: keep each side of the midpoint. */
  function Repair(b: Book): Book {
    if !Crossed(b) then b
    else
      var mid := (Best(Bid, b.bids) + Best(Ask, b.asks)) / 2.0;
      Book(map p | p in b.bids && p < mid :: b.bids[p], map p | p in b.asks && p > mid :: b.asks[p])
  }

  /** The stored book after an update: one that would cross is dropped and the previous book held. */
  function Merge(prev: Book, u: Update): Book {
    Prune(if Crossed(Apply(prev, u)) then Repair(prev) else Apply(prev, u))
  }

  function BookAfter(us: seq<Update>): Book { Runs.Run(EMPTY, Merge, us) }

  /** A side is empty, or the book is uncrossed with every level in the band of its best price. */
  ghost predicate Good(b: Book) {
    TwoSided(b) ==>
      && !Crossed(b)
      && (forall p :: p in b.bids ==> InBand(b, Bid, p))
      && (forall p :: p in b.asks ==> InBand(b, Ask, p))
  }

  /** Twice the midpoint of best bid `bb` and best ask `ba`; a best bid of zero counts as missing. */
  function TwiceMid(bb: real, ba: real): real { if bb == 0.0 then ba + ba else bb + ba }

  /** `r` keeps from the bids of `b` those at most one percent of twice the midpoint below the highest. */
  ghost predicate KeepsNearBids(b: Ladder, bb: real, ba: real, r: Ladder) {
    && (forall p :: p in r <==> p in b && 100.0 * (bb - p) <= TwiceMid(bb, ba))
    && (forall p :: p in r ==> r[p] == b[p])
  }

  ghost predicate KeepsNearAsks(a: Ladder, bb: real, ba: real, r: Ladder) {
    && (forall p :: p in r <==> p in a && 100.0 * (p - ba) <= TwiceMid(bb, ba))
    && (forall p :: p in r ==> r[p] == a[p])
  }

  /** `r` is `b` without the levels further than 2% of the midpoint from the best price of their side. */
  ghost predicate PrunedTo(b: Book, r: Book) {
    if b.bids == map[] || b.asks == map[] then r == b
    else forall bb, ba :: IsHighest(b.bids, bb) && IsLowest(b.asks, ba) ==>
           KeepsNearBids(b.bids, bb, ba, r.bids) && KeepsNearAsks(b.asks, bb, ba, r.asks)
  }

  /** Being in the band is being within 2% of the midpoint of the best price, on either side. */
  lemma InBandIff(b: Book, p: real, bb: real, ba: real)
    requires TwoSided(b) && IsHighest(b.bids, bb) && IsLowest(b.asks, ba)
    ensures InBand(b, Bid, p) <==> 100.0 * (bb - p) <= TwiceMid(bb, ba)
    ensures InBand(b, Ask, p) <==> 100.0 * (p - ba) <= TwiceMid(bb, ba)
  {
    BestIsExtreme(b.bids);
    BestIsExtreme(b.asks);
  }

  lemma PruneMeaning(b: Book)
    ensures PrunedTo(b, Prune(b))
  {
    if TwoSided(b) {
      forall bb, ba, p | IsHighest(b.bids, bb) && IsLowest(b.asks, ba)
        ensures InBand(b, Bid, p) <==> 100.0 * (bb - p) <= TwiceMid(bb, ba)
        ensures InBand(b, Ask, p) <==> 100.0 * (p - ba) <= TwiceMid(bb, ba)
      {
        InBandIff(b, p, bb, ba);
      }
    }
  }

  /** Had a held book been crossed, the repair would keep the bids below its midpoint and the asks above. */
  lemma RepairMeaning(b: Book, bb: real, ba: real)
    requires IsHighest(b.bids, bb) && IsLowest(b.asks, ba)
    ensures bb <= ba ==> Repair(b) == b
    ensures bb > ba ==>
              && (forall p :: p in Repair(b).bids <==> p in b.bids && 2.0 * p < bb + ba)
              && (forall p :: p in Repair(b).asks <==> p in b.asks && 2.0 * p > bb + ba)
              && (forall p :: p in Repair(b).bids ==> Repair(b).bids[p] == b.bids[p])
              && (forall p :: p in Repair(b).asks ==> Repair(b).asks[p] == b.asks[p])
  {
    BestIsExtreme(b.bids);
    BestIsExtreme(b.asks);
  }

  lemma BestIsUnique(side: Side, m: Ladder, b: real)
    requires b in m && forall p :: p in m ==> !Better(side, p, b)
    ensures Best(side, m) == b
  {
  }

  /** Pruning keeps both best prices when the band has room, and empties the book when it has none. */
  lemma PruneKeepsBest(b: Book)
    requires TwoSided(b)
    ensures Mid(b) >= 0.0 ==> TwoSided(Prune(b)) && Best(Bid, Prune(b).bids) == Best(Bid, b.bids)
                              && Best(Ask, Prune(b).asks) == Best(Ask, b.asks)
    ensures Mid(b) < 0.0 ==> Prune(b) == EMPTY
  {
    var bb, ba := Best(Bid, b.bids), Best(Ask, b.asks);
    if Mid(b) >= 0.0 {
      assert bb in Prune(b).bids && ba in Prune(b).asks;
      BestIsUnique(Bid, Prune(b).bids, bb);
      BestIsUnique(Ask, Prune(b).asks, ba);
    }
  }

  lemma PruneIsGood(b: Book)
    requires !Crossed(b)
    ensures Good(Prune(b))
  {
    if TwoSided(b) {
      PruneKeepsBest(b);
    }
  }

  /** Pruning a good book changes nothing. */
  lemma PruneIdempotent(b: Book)
    requires Good(b)
    ensures Prune(b) == b
  {
    if TwoSided(b) {
      assert Prune(b).bids == b.bids && Prune(b).asks == b.asks;
    }
  }

  /** The stored book is good after every update, and the repair of a held book is never needed. */
  lemma MergeIsGood(prev: Book, u: Update)
    requires Good(prev)
    ensures Good(Merge(prev, u)) && Repair(prev) == prev
  {
    PruneIsGood(if Crossed(Apply(prev, u)) then prev else Apply(prev, u));
  }

  /** An update that would cross the book leaves the stored book exactly as it was. */
  lemma CrossingUpdateIsHeld(prev: Book, u: Update)
    requires Good(prev) && Crossed(Apply(prev, u))
    ensures Merge(prev, u) == prev
  {
    PruneIdempotent(prev);
  }

  /** The book `u` leaves of `prev`: `prev` itself if it would cross, and otherwise the result, pruned. */
  ghost predicate MergedTo(prev: Book, u: Update, r: Book) {
    var c := Apply(prev, u);
    if exists p, q :: p in c.bids && q in c.asks && p > q then r == prev else PrunedTo(c, r)
  }

  lemma MergeMeaning(prev: Book, u: Update)
    requires Good(prev)
    ensures MergedTo(prev, u, Merge(prev, u))
  {
    CrossedIff(Apply(prev, u));
    if Crossed(Apply(prev, u)) {
      CrossingUpdateIsHeld(prev, u);
    } else {
      PruneMeaning(Apply(prev, u));
    }
  }

  /** Every reachable stored book is good. */
  lemma {:induction false} ReachableBooksAreGood(us: seq<Update>)
    ensures Good(BookAfter(us))
  {
    if us != [] {
      ReachableBooksAreGood(us[..|us| - 1]);
      MergeIsGood(BookAfter(us[..|us| - 1]), us[|us| - 1]);
    }
  }

  /** No bid is above an ask, and every level is within 2% of the midpoint of its side's best price. */
  ghost predicate Tight(b: Book) {
    forall bb, ba :: IsHighest(b.bids, bb) && IsLowest(b.asks, ba) ==>
      && bb <= ba
      && (forall p :: p in b.bids ==> 100.0 * (bb - p) <= TwiceMid(bb, ba))
      && (forall p :: p in b.asks ==> 100.0 * (p - ba) <= TwiceMid(bb, ba))
  }

  /** Every reachable stored book is uncrossed and tight, in the arithmetic of its own prices. */
  lemma ReachableBooksAreTight(us: seq<Update>)
    ensures Tight(BookAfter(us))
  {
    var b := BookAfter(us);
    ReachableBooksAreGood(us);
    forall bb, ba | IsHighest(b.bids, bb) && IsLowest(b.asks, ba)
      ensures bb <= ba
      ensures forall p :: p in b.bids ==> 100.0 * (bb - p) <= TwiceMid(bb, ba)
      ensures forall p :: p in b.asks ==> 100.0 * (p - ba) <= TwiceMid(bb, ba)
    {
      BestIsExtreme(b.bids);
      BestIsExtreme(b.asks);
      forall p ensures p in b.bids ==> 100.0 * (bb - p) <= TwiceMid(bb, ba)
               ensures p in b.asks ==> 100.0 * (p - ba) <= TwiceMid(bb, ba)
      {
        InBandIff(b, p, bb, ba);
      }
    }
  }

  // ---------- The stored book refines plain replay ----------

  /** The book update `k` would give before the crossing test. */
  function Candidate(us: seq<Update>, k: nat): Book
    requires k < |us|
  {
    Apply(BookAfter(us[..k]), us[k])
  }

  predicate Accepted(us: seq<Update>, k: nat)
    requires k < |us|
  {
    !Crossed(Candidate(us, k))
  }

  /** The accepted updates replayed with no pruning. */
  function Replay(us: seq<Update>): Book {
    if us == [] then EMPTY
    else if Accepted(us, |us| - 1) then Apply(Replay(us[..|us| - 1]), us[|us| - 1])
    else Replay(us[..|us| - 1])
  }

  /** If update `k` left the book two-sided, `p` was within the band that step pruned to. */
  predicate KeptBy(us: seq<Update>, k: nat, side: Side, p: real)
    requires k < |us|
  {
    Accepted(us, k) && TwoSided(Candidate(us, k)) ==> InBand(Candidate(us, k), side, p)
  }

  /** Update `k` was accepted and left a level at `p`. */
  predicate WrittenBy(us: seq<Update>, k: nat, side: Side, p: real)
    requires k < |us|
  {
    Accepted(us, k) && Writes(us[k], side, p)
  }

  /** Some accepted update wrote `p`, and no step since then pruned it. */
  ghost predicate Survives(us: seq<Update>, side: Side, p: real) {
    Runs.Since(|us|, k => 0 <= k < |us| && WrittenBy(us, k, side, p), k => 0 <= k < |us| && KeptBy(us, k, side, p))
  }

  /** Survival, one update at a time. */
  lemma SurvivesStep(us: seq<Update>, side: Side, p: real)
    requires us != []
    ensures Survives(us, side, p) <==>
            KeptBy(us, |us| - 1, side, p) && (WrittenBy(us, |us| - 1, side, p) || Survives(us[..|us| - 1], side, p))
  {
    var n := |us| - 1;
    var before := us[..n];
    forall k | 0 <= k < n
      ensures WrittenBy(before, k, side, p) == WrittenBy(us, k, side, p)
      ensures KeptBy(before, k, side, p) == KeptBy(us, k, side, p)
    {
      assert before[..k] == us[..k];
    }
    Runs.SinceStep(
      n,
      k => 0 <= k < |before| && WrittenBy(before, k, side, p), k => 0 <= k < |before| && KeptBy(before, k, side, p),
      k => 0 <= k < |us| && WrittenBy(us, k, side, p), k => 0 <= k < |us| && KeptBy(us, k, side, p));
  }

  lemma PruneAt(b: Book, side: Side, p: real)
    ensures At(Prune(b).On(side), p) ==
            if TwoSided(b) && !InBand(b, side, p) then None else At(b.On(side), p)
  {
  }

  /** A price is stored exactly when plain replay has it and it survived, and then with the replay's size. */
  lemma {:induction false} StoredIsSurvivingReplay(us: seq<Update>, side: Side, p: real)
    ensures At(BookAfter(us).On(side), p) == if Survives(us, side, p) then At(Replay(us).On(side), p) else None
  {
    if us != [] {
      var n := |us| - 1;
      var before, u := us[..n], us[n];
      StoredIsSurvivingReplay(before, side, p);
      SurvivesStep(us, side, p);
      if Accepted(us, n) {
        PruneAt(Candidate(us, n), side, p);
        ApplyAt(BookAfter(before).On(side), u.kind, u.On(side), p);
        ApplyAt(Replay(before).On(side), u.kind, u.On(side), p);
      } else {
        ReachableBooksAreGood(before);
        CrossingUpdateIsHeld(BookAfter(before), u);
      }
    }
  }

  // ---------- The emitted lists ----------

  /** The levels of a side, best first. */
  function SortedLevels(side: Side, m: Ladder): seq<Level>
    decreases |m|
  {
    if m == map[] then []
    else
      var b := Best(side, m);
      [Level(b, m[b])] + SortedLevels(side, m - {b})
  }

  /** The best `topN` levels of a side, best first. */
  function Emitted(side: Side, m: Ladder, topN: nat): seq<Level> {
    var all := SortedLevels(side, m);
    if topN < |all| then all[..topN] else all
  }

  ghost predicate BestFirst(side: Side, ls: seq<Level>) {
    forall i, j :: 0 <= i < j < |ls| ==> Better(side, ls[i].price, ls[j].price)
  }

  lemma {:induction false} SortedMeaning(side: Side, m: Ladder)
    ensures |SortedLevels(side, m)| == |m|
    ensures forall l :: l in SortedLevels(side, m) <==> l.price in m && m[l.price] == l.size
    ensures BestFirst(side, SortedLevels(side, m))
    decreases |m|
  {
    if m != map[] {
      var b := Best(side, m);
      var others := m - {b};
      assert m == others[b := m[b]] && |others| == |m| - 1;
      SortedMeaning(side, others);
      PrependBest(side, m, b, others, SortedLevels(side, others));
    }
  }

  lemma PrependBest(side: Side, m: Ladder, b: real, others: Ladder, rest: seq<Level>)
    requires b in m && others == m - {b} && forall p :: p in others ==> Better(side, b, p)
    requires forall l :: l in rest <==> l.price in others && others[l.price] == l.size
    requires BestFirst(side, rest)
    ensures var all := [Level(b, m[b])] + rest;
            BestFirst(side, all) && forall l :: l in all <==> l.price in m && m[l.price] == l.size
  {
    var all := [Level(b, m[b])] + rest;
    assert forall l :: l in all <==> l == Level(b, m[b]) || l in rest;
    assert forall j :: 0 <= j < |rest| ==> rest[j] in rest;
  }

  /** `ls` is the best min(topN, size) levels of `m`, each with its stored size, best first. */
  ghost predicate IsTop(side: Side, m: Ladder, topN: nat, ls: seq<Level>) {
    && BestFirst(side, ls)
    && |ls| == (if topN < |m| then topN else |m|)
    && (forall l :: l in ls ==> l.price in m && m[l.price] == l.size)
    && (forall p, l :: p in m && Level(p, m[p]) !in ls && l in ls ==> Better(side, l.price, p))
  }

  /** The emitted list is the best levels of its side, and a smaller topN gives a prefix of it. */
  lemma EmittedMeaning(side: Side, m: Ladder, topN: nat, fewer: nat)
    requires fewer <= topN
    ensures IsTop(side, m, topN, Emitted(side, m, topN))
    ensures Emitted(side, m, fewer) <= Emitted(side, m, topN)
  {
    SortedMeaning(side, m);
    TopOfSorted(side, m, SortedLevels(side, m), topN);
  }

  lemma TopOfSorted(side: Side, m: Ladder, all: seq<Level>, topN: nat)
    requires BestFirst(side, all) && |all| == |m|
    requires forall l :: l in all <==> l.price in m && m[l.price] == l.size
    ensures IsTop(side, m, topN, if topN < |all| then all[..topN] else all)
  {
    var n := if topN < |all| then topN else |all|;
    var ls := all[..n];
    assert n == |all| ==> ls == all;
    assert forall i :: 0 <= i < n ==> ls[i] == all[i] && ls[i] in ls;
    forall p, l | p in m && Level(p, m[p]) !in ls && l in ls ensures Better(side, l.price, p) {
      assert Level(p, m[p]) in all;
      var i :| 0 <= i < n && ls[i] == l;
      var j :| 0 <= j < |all| && all[j] == Level(p, m[p]);
      assert j >= n;
    }
  }

  /** A good book's emitted lists are not crossed. */
  lemma EmittedIsUncrossed(b: Book, topN: nat)
    requires Good(b)
    ensures var bids, asks := Emitted(Bid, b.bids, topN), Emitted(Ask, b.asks, topN);
            bids != [] && asks != [] ==> bids[0].price <= asks[0].price
  {
    SortedMeaning(Bid, b.bids);
    SortedMeaning(Ask, b.asks);
  }
}
