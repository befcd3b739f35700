/** What holds of every book that a run of submissions and cancellations can reach. */
module Reachable {
  import opened Prelude
  import opened Ticks
  import opened Orders
  import opened Ladder
  import opened Matching
  import opened Books
  import opened FillRules
  import opened BookRuns

  lemma {:induction false} ClearBehind(side: Side, e: Entry, opposite: seq<Entry>)
    requires Ordered(Opposite(side), opposite)
    requires opposite != [] ==> Outside(side, e.order.price, opposite[0].tick)
    ensures Clear(side, e, opposite)
  {
  }

  lemma {:induction false} FreshIsNew(cmds: seq<Command>, trades: seq<Trade>, f: FlatBook, id: OrderId)
    requires Inv(cmds, trades, f) && Arrival(cmds, id) == |cmds|
    ensures NewId(f, id)
  {
  }

  /** Everything live arrived before the order being submitted. */
  lemma {:induction false} LiveArrivedBefore(cmds: seq<Command>, o: Order, side: Side, trades: seq<Trade>,
                                            es: seq<Entry>)
    requires LineInv(side, cmds, trades, es) && Arrival(cmds, o.id) == |cmds|
    ensures var cs := cmds + [Submit(o)];
            forall k | 0 <= k < |es| :: Arrival(cs, es[k].order.id) < Arrival(cs, o.id)
  {
    ArrivalSnoc(cmds, Submit(o), o.id);
    LineCommand(side, cmds, Submit(o), trades, es);
    forall k | 0 <= k < |es| ensures Arrival(cmds + [Submit(o)], es[k].order.id) < |cmds| {
      assert Backed(side, cmds, trades, es[k]);
    }
  }

  lemma {:induction false} InvPostOnly(cmds: seq<Command>, o: Order, trades: seq<Trade>, f: FlatBook)
    requires WellFormed(cmds + [Submit(o)]) && Inv(cmds, trades, f)
    requires o.orderType.PostOnly? && !FlatWouldMatch(f, o)
    ensures Inv(cmds + [Submit(o)], trades, FlatRest(f, o.(orderType := Limit)))
  {
    var cs, opp := cmds + [Submit(o)], f.Side(Opposite(o.side));
    WellFormedSnoc(cmds, Submit(o));
    InvCommand(cmds, Submit(o), trades, f);
    ArrivalSnoc(cmds, Submit(o), o.id);
    LiveArrivedBefore(cmds, o, o.side, trades, f.Side(o.side));
    LineInRange(Opposite(o.side), cmds, trades, opp);
    var limit := o.(orderType := Limit);
    ClearBehind(o.side, Entry(PriceToTicks(o.price), limit), opp);
    InvRest(cs, trades, f, limit);
  }

  /** An order that is not in the line is traded only as the taker. */
  lemma {:induction false} NewTakerTraded(taker: Order, es: seq<Entry>)
    requires forall i | 0 <= i < |es| :: es[i].order.id != taker.id
    ensures var m := Greedy(taker, es);
            Traded(m.trades, taker.id) == m.taker.filled - taker.filled
  {
    var m := Greedy(taker, es);
    GreedySuffix(taker, es);
    GreedyLedger(taker, es, taker.id);
    OpenOfAbsent(es, taker.id);
    forall i | 0 <= i < |m.rest| ensures m.rest[i].order.id != taker.id {
      assert m.rest[i].order.id == es[|es| - |m.rest| + i].order.id;
    }
    OpenOfAbsent(m.rest, taker.id);
  }

  /** What a new order was filled by is what the trades so far executed under its id. */
  lemma {:induction false} TakerTraded(cmds: seq<Command>, taker: Order, trades: seq<Trade>, f: FlatBook)
    requires Inv(cmds, trades, f) && Arrival(cmds, taker.id) == |cmds|
    ensures var m := Greedy(taker, f.Side(Opposite(taker.side)));
            Traded(trades + m.trades, taker.id) == m.taker.filled - taker.filled
  {
    var es := f.Side(Opposite(taker.side));
    FreshIsNew(cmds, trades, f, taker.id);
    NewTakerTraded(taker, es);
    TradedAppend(trades, Greedy(taker, es).trades, taker.id);
  }

  /** After matching, the remainder that rests is an order of the run filled by the trades that name it. */
  lemma {:induction false} RemainderBacked(cmds: seq<Command>, o: Order, trades: seq<Trade>, f: FlatBook)
    requires WellFormed(cmds + [Submit(o)]) && Inv(cmds, trades, f)
    requires RestsAfter(o, Greedy(Visible(o), f.Side(Opposite(o.side))).taker)
    ensures var m := Greedy(Visible(o), f.Side(Opposite(o.side)));
            var rest := Unmasked(o, m.taker);
            Backed(o.side, cmds + [Submit(o)], trades + m.trades, Entry(PriceToTicks(rest.price), rest))
  {
    var taker, es := Visible(o), f.Side(Opposite(o.side));
    WellFormedSnoc(cmds, Submit(o));
    ArrivalSnoc(cmds, Submit(o), o.id);
    LineInRange(Opposite(o.side), cmds, trades, es);
    GreedyKeepsRange(taker, es);
    GreedyKeepsTerms(taker, es);
    TakerTraded(cmds, taker, trades, f);
    assert Hidden(o) >= 0.0;
  }

  lemma {:induction false} InvMatched(cmds: seq<Command>, o: Order, trades: seq<Trade>, f: FlatBook)
    requires WellFormed(cmds + [Submit(o)]) && Inv(cmds, trades, f)
    ensures var r := FlatMatched(f, o);
            Inv(cmds + [Submit(o)], trades + r.trades, r.book)
  {
    var cs, taker, opp := cmds + [Submit(o)], Visible(o), Opposite(o.side);
    var m := Greedy(taker, f.Side(opp));
    WellFormedSnoc(cmds, Submit(o));
    InvCommand(cmds, Submit(o), trades, f);
    ArrivalSnoc(cmds, Submit(o), o.id);
    FreshIsNew(cmds, trades, f, o.id);
    InvMatch(cs, trades, f, taker);
    var after := f.WithSide(opp, m.rest).(last := LastPrice(f.last, m.trades));
    if RestsAfter(o, m.taker) {
      var rest := Unmasked(o, m.taker);
      GreedyKeepsTerms(taker, f.Side(opp));
      GreedyStops(taker, f.Side(opp));
      RemainderBacked(cmds, o, trades, f);
      LineInRange(opp, cs, trades + m.trades, m.rest);
      ClearBehind(o.side, Entry(PriceToTicks(rest.price), rest), m.rest);
      LiveArrivedBefore(cmds, o, o.side, trades, f.Side(o.side));
      InvRest(cs, trades + m.trades, after, rest);
    }
  }

  lemma {:induction false} InvSubmit(cmds: seq<Command>, o: Order, trades: seq<Trade>, b: Book)
    requires WellFormed(cmds + [Submit(o)]) && b.Valid() && Inv(cmds, trades, Flatten(b))
    ensures var r := Submitted(b, o);
            Inv(cmds + [Submit(o)], trades + r.trades, Flatten(r.book))
  {
    var f := Flatten(b);
    InvCommand(cmds, Submit(o), trades, f);
    assert trades + [] == trades;
    if PhantomBlocks(b, o) {
      PhantomTurnsAway(b, o);
    } else {
      SubmitRefinesFlat(b, o);
      if o.orderType.PostOnly? {
        if !FlatWouldMatch(f, o) { InvPostOnly(cmds, o, trades, f); }
      } else if !FokFails(o, OpenQuantity(Eligible(o.side, f.Side(Opposite(o.side)), o.price))) {
        InvMatched(cmds, o, trades, f);
      }
    }
  }

  /** The invariant holds after every run. */
  lemma {:induction false} RunInv(cmds: seq<Command>)
    requires WellFormed(cmds)
    ensures var r := Run(cmds);
            r.book.Valid() && Inv(cmds, r.trades, Flatten(r.book))
  {
    if cmds == [] {
      assert Flatten(EMPTY_BOOK) == FlatBook([], [], None);
    } else {
      var before, c := cmds[..|cmds| - 1], cmds[|cmds| - 1];
      assert cmds == before + [c];
      WellFormedSnoc(before, c);
      RunInv(before);
      RunSnoc(before, c);
      var r := Run(before);
      match c {
        case Submit(o) => InvSubmit(before, o, r.trades, r.book);
        case Cancel(id) =>
          var f := Flatten(r.book);
          forall i, j | 0 <= i < |f.bids| && 0 <= j < |f.asks| ensures f.bids[i].order.id != f.asks[j].order.id {
            SidesDisjoint(before, r.trades, f, i, j);
          }
          CancelRefinesFlat(r.book, id);
          InvCommand(before, c, r.trades, f);
          InvCancel(cmds, r.trades, f, id);
          assert r.trades + [] == r.trades;
      }
    }
  }

  // ---------- Main results ----------

  /** Live orders of a reachable book have something left to trade. */
  lemma {:induction false} ReachableOpen(cmds: seq<Command>)
    requires WellFormed(cmds)
    ensures OpenBook(Run(cmds).book)
  {
    RunInv(cmds);
    var r := Run(cmds);
    LineInRange(Buy, cmds, r.trades, Flat(r.book.bids));
    LineInRange(Sell, cmds, r.trades, Flat(r.book.asks));
  }

  /**
   Price-time priority: after any run, the `i`-th trade of the next order goes to the `i`-th order in line on the
   opposite side; everybody behind it in that line has a worse tick, or the same tick and a later arrival; and
   every earlier trade of the submission used up its maker.
   */
  lemma {:induction false} PriceTimePriority(cmds: seq<Command>, o: Order, i: nat)
    requires WellFormed(cmds + [Submit(o)]) && !o.orderType.PostOnly?
    requires i < |Submitted(Run(cmds).book, o).trades|
    ensures var opp := Opposite(o.side);
            var line, trades := Flat(Run(cmds).book.Side(opp)), Submitted(Run(cmds).book, o).trades;
            && |trades| <= |line|
            && trades[i].Maker(o.side) == line[i].order.id
            && (forall j | i < j < |line| :: Ahead(opp, cmds, line[i], line[j]))
            && (forall j | 0 <= j < i :: trades[j].quantity == Remaining(line[j].order))
  {
    WellFormedSnoc(cmds, Submit(o));
    RunInv(cmds);
    ReachableOpen(cmds);
    var b, opp := Run(cmds).book, Opposite(o.side);
    var line := Flat(b.Side(opp));
    MatchedFlat(b, o);
    TradePrices(b, o);
    var m := Greedy(Visible(o), line);
    GreedyIsPrefix(Visible(o), line);
    forall j | 0 <= j < i ensures m.trades[j].quantity == Remaining(line[j].order) {
      assert TradesAt(Visible(o), line, j, m.trades[j]);
      assert TradesAt(Visible(o), line, j + 1, m.trades[j + 1]);
      CumNext(line, j);
    }
    assert InLine(opp, cmds, line);
  }

  lemma {:induction false} CumNext(es: seq<Entry>, k: nat)
    requires k < |es|
    ensures Cum(es, k + 1) == Cum(es, k) + Remaining(es[k].order)
  {
    if k > 0 {
      CumNext(es[1..], k - 1);
    }
  }

  /**
   No reachable book is crossed, whatever the real limit prices and order types: every live bid's tick is at most
   every live ask's, and strictly less when both limits are whole ticks.
   */
  lemma {:induction false} NeverCrossed(cmds: seq<Command>)
    requires WellFormed(cmds)
    ensures forall bid, ask | bid in Flat(Run(cmds).book.bids) && ask in Flat(Run(cmds).book.asks) ::
              && bid.tick <= ask.tick
              && (OnGrid(bid.order.price) && OnGrid(ask.order.price) ==> bid.tick < ask.tick)
  {
    RunInv(cmds);
    forall bid, ask | bid in Flat(Run(cmds).book.bids) && ask in Flat(Run(cmds).book.asks)
      ensures bid.tick <= ask.tick
      ensures OnGrid(bid.order.price) && OnGrid(ask.order.price) ==> bid.tick < ask.tick
    {
      assert Apart(bid, ask);
    }
  }

  /** A live order has its submitted side, price and quantity, and its fill is the sum of the trades that name it. */
  lemma {:induction false} LiveOrderAccounted(cmds: seq<Command>, side: Side, e: Entry)
    requires WellFormed(cmds) && e in Flat(Run(cmds).book.Side(side))
    ensures var k := Arrival(cmds, e.order.id);
            && k < |cmds|
            && cmds[k].order.side == side && cmds[k].order.price == e.order.price
            && cmds[k].order.quantity == e.order.quantity
            && e.tick == PriceToTicks(e.order.price)
    ensures e.order.filled == Traded(Run(cmds).trades, e.order.id)
    ensures LiveFill(e.order)
  {
    RunInv(cmds);
    var es := Flat(Run(cmds).book.Side(side));
    var i :| 0 <= i < |es| && es[i] == e;
    assert Backed(side, cmds, Run(cmds).trades, es[i]);
  }

  /** Cancelling removes exactly the named order: everyone else stays live, in the same order. */
  lemma {:induction false} CancelRemovesExactly(cmds: seq<Command>, id: OrderId, side: Side)
    requires WellFormed(cmds)
    ensures var before, after := Flat(Run(cmds).book.Side(side)), Flat(AfterCancel(Run(cmds).book, id).book.Side(side));
            && !Holds(after, id)
            && (if Holds(before, id)
                then exists k :: 0 <= k < |before| && before[k].order.id == id && after == before[..k] + before[k + 1..]
                else after == before)
  {
    RunInv(cmds);
    var r := Run(cmds);
    var f := Flatten(r.book);
    forall i, j | 0 <= i < |f.bids| && 0 <= j < |f.asks| ensures f.bids[i].order.id != f.asks[j].order.id {
      SidesDisjoint(cmds, r.trades, f, i, j);
    }
    CancelRefinesFlat(r.book, id);
    var before := f.Side(side);
    assert InLine(side, cmds, before);
    if Holds(before, id) {
      var k := StrikePresent(before, id);
      var after := before[..k] + before[k + 1..];
      forall i | 0 <= i < |after| ensures after[i].order.id != id {
        if i < k {
          assert Ahead(side, cmds, before[i], before[k]);
        } else {
          assert Ahead(side, cmds, before[k], before[i + 1]);
        }
      }
    } else {
      StrikeAbsent(before, id);
    }
  }
}
