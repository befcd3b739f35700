/**
 What one submission promises about its own fills: completeness, limit prices, fill-or-kill, and that an
 order that did not trade can be cancelled without a trace.
 */
module FillRules {
  import opened Prelude
  import opened Ticks
  import opened Orders
  import opened Ladder
  import opened Matching
  import opened Books

  ghost predicate OpenBook(b: Book) {
    b.Valid() && AllOpen(Flat(b.bids)) && AllOpen(Flat(b.asks))
  }

  /**
   What a submission does to the opposite side, said without loops: it executes the greedy prefix of the live orders
   by price and arrival, and leaves the rest, the last maker reduced. The description has only one solution.
   */
  lemma {:induction false} SubmitIsGreedyPrefix(b: Book, o: Order, other: Match)
    requires OpenBook(b) && !o.orderType.PostOnly?
    requires !FokFails(o, Available(o.side, b.Side(Opposite(o.side)), o.price))
    ensures var r, line := Submitted(b, o), Flat(b.Side(Opposite(o.side)));
            && (exists m :: GreedyPrefix(Visible(o), line, m) && m.trades == r.trades
                            && m.rest == Flat(r.book.Side(Opposite(o.side))))
            && (GreedyPrefix(Visible(o), line, other) ==>
                  other.trades == r.trades && other.rest == Flat(r.book.Side(Opposite(o.side))))
  {
    var line := Flat(b.Side(Opposite(o.side)));
    var m := Greedy(Visible(o), line);
    MatchedFlat(b, o);
    GreedyIsPrefix(Visible(o), line);
    SweepKeepsTerms(Visible(o), b.Side(Opposite(o.side)));
    SweepIsGreedy(Visible(o), b.Side(Opposite(o.side)));
    if GreedyPrefix(Visible(o), line, other) {
      GreedyPrefixUnique(Visible(o), line, m, other);
    }
  }

  /** The part of the opposite side that the order's type lets it reach. */
  function Reach(taker: Order, es: seq<Entry>): seq<Entry> {
    if PriceChecked(taker) then Eligible(taker.side, es, taker.price) else es
  }

  lemma {:induction false} OpenQuantityNonNegative(es: seq<Entry>)
    requires AllOpen(es)
    ensures OpenQuantity(es) >= 0.0
  {
    if es != [] {
      assert es[0] in es;
      assert forall e | e in es[1..] :: e in es;
      OpenQuantityNonNegative(es[1..]);
    }
  }

  lemma {:induction false} EligibleOpen(side: Side, es: seq<Entry>, price: real)
    requires AllOpen(es)
    ensures AllOpen(Eligible(side, es, price))
    ensures OpenQuantity(Eligible(side, es, price)) <= OpenQuantity(es)
  {
    if es != [] {
      assert es[0] in es;
      assert forall e | e in es[1..] :: e in es;
      EligibleOpen(side, es[1..], price);
      OpenQuantityNonNegative(es);
    }
  }

  /**
   A match trades exactly the smaller of what the taker needs and what is in reach: it never stops early or
   overfills.
   */
  lemma {:induction false} GreedyTotal(taker: Order, es: seq<Entry>)
    requires AllOpen(es) && Remaining(taker) >= 0.0
    ensures SumQuantity(Greedy(taker, es).trades) == Min(Remaining(taker), OpenQuantity(Reach(taker, es)))
    decreases |es|
  {
    EligibleOpen(taker.side, es, taker.price);
    OpenQuantityNonNegative(Reach(taker, es));
    if !Done(taker) && es != [] && !Blocked(taker, es[0].tick) {
      assert es[0] in es;
      assert forall e | e in es[1..] :: e in es;
      var q := FillQuantity(taker, es[0].order);
      var trade := TradeOf(taker, es[0].order, es[0].tick, q);
      var taker' := Fill(taker, q);
      assert Reach(taker, es) == [es[0]] + Reach(taker', es[1..]);
      assert ([es[0]] + Reach(taker', es[1..]))[1..] == Reach(taker', es[1..]);
      EligibleOpen(taker.side, es[1..], taker.price);
      OpenQuantityNonNegative(Reach(taker', es[1..]));
      if Done(Fill(es[0].order, q)) {
        GreedyTotal(taker', es[1..]);
        assert ([trade] + Greedy(taker', es[1..]).trades)[1..] == Greedy(taker', es[1..]).trades;
      } else {
        assert SumQuantity([trade]) == q + SumQuantity([]);
      }
    }
  }

  /**
   A limit, fill-or-kill, immediate-or-cancel or iceberg order that gets to match trades the smaller of what it
   shows (all of it, or the iceberg peak) and what the book offers within its price.
   */
  lemma {:induction false} FillCompleteness(b: Book, o: Order)
    requires OpenBook(b) && o.filled == 0.0 && Peak(o) >= 0.0
    requires o.orderType.Limit? || o.orderType.FOK? || o.orderType.IOC? || o.orderType.Iceberg?
    requires !FokFails(o, Available(o.side, b.Side(Opposite(o.side)), o.price))
    ensures SumQuantity(Submitted(b, o).trades) == Min(Peak(o), Available(o.side, b.Side(Opposite(o.side)), o.price))
  {
    var ls := b.Side(Opposite(o.side));
    MatchedFlat(b, o);
    GreedyTotal(Visible(o), Flat(ls));
    AvailableIsEligible(o.side, ls, o.price);
  }

  // ---------- Fill or kill ----------

  /** A fill-or-kill order never rests: its own side of the book is untouched. */
  lemma {:induction false} FokNeverRests(b: Book, o: Order)
    requires IsFok(o) && !o.orderType.PostOnly?
    ensures Submitted(b, o).book.Side(o.side) == b.Side(o.side)
  {
  }

  ghost predicate AllOrNothing(b: Book, o: Order, r: Outcome) {
    r == Outcome(b, []) || o.quantity - FOK_SLACK <= SumQuantity(r.trades) <= o.quantity
  }

  lemma {:induction false} FokTotal(b: Book, o: Order)
    requires OpenBook(b) && IsFok(o) && !o.orderType.PostOnly?
    requires o.filled == 0.0 && o.quantity > 0.0 && Peak(o) >= 0.0
    requires !FokFails(o, Available(o.side, b.Side(Opposite(o.side)), o.price))
    ensures Min(Peak(o), o.quantity - FOK_SLACK) <= SumQuantity(Submitted(b, o).trades) <= Peak(o)
  {
    var ls := b.Side(Opposite(o.side));
    MatchedFlat(b, o);
    GreedyTotal(Visible(o), Flat(ls));
    AvailableIsEligible(o.side, ls, o.price);
    EligibleOpen(o.side, Flat(ls), o.price);
  }

  /**
   A fill-or-kill order leaves the book as it was or fills up to the slack, with one exception that the caller can
   see beforehand: an iceberg whose peak is short of the quantity passes the scan and then trades only its peak.
   */
  lemma {:induction false} FokAtomicIff(b: Book, o: Order)
    requires OpenBook(b) && IsFok(o) && !o.orderType.PostOnly?
    requires o.filled == 0.0 && o.quantity > 0.0
    ensures AllOrNothing(b, o, Submitted(b, o)) <==>
              || FokFails(o, Available(o.side, b.Side(Opposite(o.side)), o.price))
              || Peak(o) <= 0.0
              || Peak(o) >= o.quantity - FOK_SLACK
  {
    var ls := b.Side(Opposite(o.side));
    if !FokFails(o, Available(o.side, ls, o.price)) {
      if Peak(o) <= 0.0 {
        assert Sweep(Visible(o), ls) == LevelMatch([], Visible(o), ls);
        assert Submitted(b, o).book == b;
      } else {
        FokTotal(b, o);
      }
    }
  }

  /** A concrete order for the exception: quantity 2 with peak 1 against 5 offered trades just 1. */
  lemma {:induction false} FokIcebergTradesItsPeak() returns (b: Book, o: Order)
    ensures OpenBook(b) && IsFok(o) && o.orderType.Iceberg? && o.filled == 0.0 && o.quantity == 2.0
    ensures SumQuantity(Submitted(b, o).trades) == 1.0
    ensures !AllOrNothing(b, o, Submitted(b, o))
  {
    var resting := Order(1, "m", "BTC_USDT", Sell, Limit, 10.0, 5.0, 0.0, Open, None, None, None, None, "GTC");
    b := Book([], [Level(10000000, [resting])], None);
    o := Order(2, "t", "BTC_USDT", Buy, Iceberg, 10.0, 2.0, 0.0, Open, None, None, None, Some(1.0), "FOK");
    assert Tagged(10000000, [resting]) == [Entry(10000000, resting)];
    assert b.asks[1..] == [];
    assert Flat(b.asks) == [Entry(10000000, resting)] + Flat(b.asks[1..]);
    assert Available(Buy, b.asks, 10.0) == 5.0 by {
      assert QueueOpen([resting]) == 5.0 + QueueOpen([]);
      assert Available(Buy, b.asks, 10.0) == QueueOpen([resting]) + Available(Buy, b.asks[1..], 10.0);
    }
    FillCompleteness(b, o);
    FokAtomicIff(b, o);
  }

  // ---------- Prices ----------

  /** The price of trade `i` is the tick price of the `i`-th order in line, within the taker's limit. */
  lemma {:induction false} TradePrices(b: Book, o: Order)
    requires OpenBook(b) && !o.orderType.PostOnly?
    ensures var r, es := Submitted(b, o), Flat(b.Side(Opposite(o.side)));
            && |r.trades| <= |es|
            && (forall i | 0 <= i < |r.trades| ::
                  r.trades[i].price == TicksToPrice(es[i].tick) && r.trades[i].Maker(o.side) == es[i].order.id)
            && (forall i | 0 <= i < |r.trades| :: PriceChecked(o) ==> !Outside(o.side, o.price, es[i].tick))
  {
    var es := Flat(b.Side(Opposite(o.side)));
    MatchedFlat(b, o);
    GreedyIsPrefix(Visible(o), es);
    var trades := Greedy(Visible(o), es).trades;
    forall i | 0 <= i < |trades|
      ensures trades[i].price == TicksToPrice(es[i].tick) && trades[i].Maker(o.side) == es[i].order.id
      ensures PriceChecked(o) ==> !Outside(o.side, o.price, es[i].tick)
    {
      assert TradesAt(Visible(o), es, i, trades[i]);
    }
  }

  /** Each trade names both parties on their own sides, in the taker's pair. */
  lemma {:induction false} TradeParties(b: Book, o: Order, i: nat)
    requires OpenBook(b) && !o.orderType.PostOnly? && i < |Submitted(b, o).trades|
    ensures var line, trade := Flat(b.Side(Opposite(o.side))), Submitted(b, o).trades[i];
            && i < |line|
            && trade.pair == o.pair
            && (o.side.Buy? ==> trade.buyerOrder == o.id && trade.buyerUser == o.user
                                && trade.sellerOrder == line[i].order.id && trade.sellerUser == line[i].order.user)
            && (o.side.Sell? ==> trade.sellerOrder == o.id && trade.sellerUser == o.user
                                 && trade.buyerOrder == line[i].order.id && trade.buyerUser == line[i].order.user)
  {
    var line := Flat(b.Side(Opposite(o.side)));
    MatchedFlat(b, o);
    GreedyIsPrefix(Visible(o), line);
    assert TradesAt(Visible(o), line, i, Greedy(Visible(o), line).trades[i]);
  }

  /** No trade of a limit, fill-or-kill, immediate-or-cancel or iceberg order is worse than its limit. */
  lemma {:induction false} TakerLimitRespected(b: Book, o: Order, i: nat)
    requires OpenBook(b) && i < |Submitted(b, o).trades|
    requires o.orderType.Limit? || o.orderType.FOK? || o.orderType.IOC? || o.orderType.Iceberg?
    ensures var price := Submitted(b, o).trades[i].price;
            if o.side.Buy? then price <= o.price else price >= o.price
  {
    TradePrices(b, o);
  }

  /** A maker trades within half a tick of its own limit, and exactly at it when the limit is on the grid. */
  lemma {:induction false} MakerLimitRespected(b: Book, o: Order, i: nat)
    requires OpenBook(b) && !o.orderType.PostOnly? && i < |Submitted(b, o).trades|
    requires forall e | e in Flat(b.Side(Opposite(o.side))) :: e.tick == PriceToTicks(e.order.price)
    ensures var es, price := Flat(b.Side(Opposite(o.side))), Submitted(b, o).trades[i].price;
            && i < |es|
            && es[i].order.id == Submitted(b, o).trades[i].Maker(o.side)
            && Abs(price - es[i].order.price) <= 0.0000005
            && (OnGrid(es[i].order.price) ==> price == es[i].order.price)
  {
    TradePrices(b, o);
    var es := Flat(b.Side(Opposite(o.side)));
    assert es[i] in es;
    PriceWithinHalfTick(es[i].order.price);
  }

  /** Within one submission prices only get worse for the taker, and the last one is the book's last price. */
  lemma {:induction false} PricesWorsen(b: Book, o: Order)
    requires OpenBook(b) && !o.orderType.PostOnly?
    ensures var r := Submitted(b, o);
            && (forall i, j | 0 <= i < j < |r.trades| ::
                  if o.side.Buy? then r.trades[i].price <= r.trades[j].price
                   else r.trades[i].price >= r.trades[j].price)
            && (r.trades != [] ==> r.book.last == Some(r.trades[|r.trades| - 1].price))
            && (r.trades == [] ==> r.book.last == b.last)
  {
    TradePrices(b, o);
    var es := Flat(b.Side(Opposite(o.side)));
    FlatOrdered(Opposite(o.side), b.Side(Opposite(o.side)));
    var trades := Submitted(b, o).trades;
    forall i, j | 0 <= i < j < |trades|
      ensures if o.side.Buy? then trades[i].price <= trades[j].price else trades[i].price >= trades[j].price
    {
      assert !Better(Opposite(o.side), es[j].tick, es[i].tick);
    }
  }

  // ---------- Submit then cancel ----------

  lemma {:induction false} StrikeInserted(side: Side, es: seq<Entry>, e: Entry)
    requires !Holds(es, e.order.id)
    ensures Strike(Insert(side, es, e), e.order.id) == es
  {
    if es == [] || Better(side, e.tick, es[0].tick) {
      assert ([e] + es)[1..] == es;
    } else {
      assert es[0] in es;
      assert forall x | x in es[1..] :: x in es;
      StrikeInserted(side, es[1..], e);
      assert Insert(side, es, e)[1..] == Insert(side, es[1..], e);
    }
  }

  /** Submitting a fresh order that finds no trade and then cancelling it gives back the same live orders. */
  lemma {:induction false} SubmitThenCancel(b: Book, o: Order)
    requires b.Valid() && Submitted(b, o).trades == []
    requires !Holds(Flat(b.bids), o.id) && !Holds(Flat(b.asks), o.id)
    ensures Flatten(AfterCancel(Submitted(b, o).book, o.id).book) == Flatten(b)
  {
    var f, b' := Flatten(b), Submitted(b, o).book;
    SubmittedValid(b, o);
    if PhantomBlocks(b, o) {
      PhantomTurnsAway(b, o);
    } else {
      SubmitRefinesFlat(b, o);
      NoTradeOutcome(f, o);
    }
    StrikeAbsent(f.bids, o.id);
    StrikeAbsent(f.asks, o.id);
    if Flatten(b') != f {
      var rested :| Flatten(b') == FlatRest(f, rested) && rested.id == o.id && rested.side == o.side;
      StrikeInserted(o.side, f.Side(o.side), Entry(PriceToTicks(rested.price), rested));
    }
    CancelRefinesFlat(b', o.id);
  }

  /** An order that does not trade leaves the flat book as it was, or adds only itself. */
  lemma {:induction false} NoTradeOutcome(f: FlatBook, o: Order)
    requires FlatSubmitted(f, o).trades == []
    ensures var f' := FlatSubmitted(f, o).book;
            f' == f || exists rested: Order :: f' == FlatRest(f, rested) && rested.id == o.id && rested.side == o.side
  {
    var f' := FlatSubmitted(f, o).book;
    if o.orderType.PostOnly? {
      if f' != f { assert f' == FlatRest(f, o.(orderType := Limit)); }
    } else if f' != f {
      var m := Greedy(Visible(o), f.Side(Opposite(o.side)));
      assert f' == FlatRest(f, Unmasked(o, m.taker));
    }
  }
}
