/**
 Where every submitted quantity goes. For any run at all, even one with repeated ids or negative quantities,
 what was submitted under an id is what its trades executed, plus what rests, plus what was discarded for a
 named reason.
 */
module Conservation {
  import opened Prelude
  import opened Ticks
  import opened Orders
  import opened Ladder
  import opened Matching
  import opened Books
  import opened FillRules
  import opened BookRuns
  import opened Reachable

  datatype Reason = RejectedPostOnly | KilledFok | Remainder | IcebergTail | CancelledRest

  datatype Discard = Discard(id: OrderId, quantity: real, reason: Reason)

  function Discarded(ds: seq<Discard>, id: OrderId): real {
    if ds == [] then 0.0 else (if ds[0].id == id then ds[0].quantity else 0.0) + Discarded(ds[1..], id)
  }

  function SubmitDiscards(b: Book, o: Order): seq<Discard> {
    if o.orderType.PostOnly? then
      if WouldMatch(b, o) then [Discard(o.id, Remaining(o), RejectedPostOnly)] else []
    else if FokFails(o, Available(o.side, b.Side(Opposite(o.side)), o.price)) then
      [Discard(o.id, Remaining(o), KilledFok)]
    else
      var taker := Sweep(Visible(o), b.Side(Opposite(o.side))).taker;
      if RestsAfter(o, taker) then []
      else [Discard(o.id, Remaining(taker), Remainder), Discard(o.id, Hidden(o), IcebergTail)]
  }

  function CancelDiscards(b: Book, id: OrderId): seq<Discard> {
    var bid := Discard(id, StruckQuantity(Flat(b.bids), id), CancelledRest);
    if Remove(b.bids, id).emptied then [bid]
    else [bid, Discard(id, StruckQuantity(Flat(b.asks), id), CancelledRest)]
  }

  function DiscardsOf(b: Book, c: Command): seq<Discard> {
    match c
    case Submit(o) => SubmitDiscards(b, o)
    case Cancel(id) => CancelDiscards(b, id)
  }

  /** Everything discarded over a run. */
  function RunDiscards(cmds: seq<Command>): seq<Discard> {
    if cmds == [] then []
    else
      var before := cmds[..|cmds| - 1];
      RunDiscards(before) + DiscardsOf(Run(before).book, cmds[|cmds| - 1])
  }

  function SubmittedBy(c: Command, id: OrderId): real {
    if c.Submit? && c.order.id == id then Remaining(c.order) else 0.0
  }

  /** Everything a run submitted under `id`. */
  function RunSubmitted(cmds: seq<Command>, id: OrderId): real {
    if cmds == [] then 0.0
    else RunSubmitted(cmds[..|cmds| - 1], id) + SubmittedBy(cmds[|cmds| - 1], id)
  }

  function Resting(b: Book, id: OrderId): real {
    OpenOf(Flat(b.bids), id) + OpenOf(Flat(b.asks), id)
  }

  lemma {:induction false} DiscardedAppend(a: seq<Discard>, b: seq<Discard>, id: OrderId)
    ensures Discarded(a + b, id) == Discarded(a, id) + Discarded(b, id)
  {
    if a == [] {
      assert a + b == b;
    } else {
      assert (a + b)[1..] == a[1..] + b;
      DiscardedAppend(a[1..], b, id);
    }
  }

  lemma {:induction false} DiscardedTwo(x: Discard, y: Discard, id: OrderId)
    ensures Discarded([x, y], id) == (if x.id == id then x.quantity else 0.0) + (if y.id == id then y.quantity else 0.0)
  {
    assert [x, y][1..] == [y];
    assert Discarded([y], id) == (if y.id == id then y.quantity else 0.0) + Discarded([], id);
  }

  lemma {:induction false} RestLedger(b: Book, o: Order, id: OrderId)
    requires b.Valid()
    ensures Resting(AddResting(b, o), id) == Resting(b, id) + (if o.id == id then Remaining(o) else 0.0)
  {
    var e := Entry(PriceToTicks(o.price), o);
    PushBackFlat(o.side, b.Side(o.side), PriceToTicks(o.price), o);
    InsertLedger(o.side, Flat(b.Side(o.side)), e, id);
    assert OpenOf([e], id) == (if o.id == id then Remaining(o) else 0.0) + OpenOf([], id);
  }

  /** One submission: new quantity = traded + change in resting + discarded. */
  lemma {:induction false} SubmitLedger(b: Book, o: Order, id: OrderId)
    requires b.Valid()
    ensures var r := Submitted(b, o);
            (if o.id == id then Remaining(o) else 0.0) ==
              Traded(r.trades, id) + (Resting(r.book, id) - Resting(b, id)) + Discarded(SubmitDiscards(b, o), id)
  {
    if o.orderType.PostOnly? {
      if !WouldMatch(b, o) {
        var widened := b.(bids := WithLevel(Buy, b.bids, PriceToTicks(o.price)));
        WithLevelFlat(Buy, b.bids, PriceToTicks(o.price));
        WithLevelSorted(Buy, b.bids, PriceToTicks(o.price));
        RestLedger(widened, o.(orderType := Limit), id);
      }
    } else if !FokFails(o, Available(o.side, b.Side(Opposite(o.side)), o.price)) {
      MatchLedger(b, o, id);
    }
  }

  lemma {:induction false} MatchLedger(b: Book, o: Order, id: OrderId)
    requires b.Valid() && !o.orderType.PostOnly?
    requires !FokFails(o, Available(o.side, b.Side(Opposite(o.side)), o.price))
    ensures var r := Matched(b, o);
            (if o.id == id then Remaining(o) else 0.0) ==
              Traded(r.trades, id) + (Resting(r.book, id) - Resting(b, id)) + Discarded(SubmitDiscards(b, o), id)
  {
    var opp := Opposite(o.side);
    var ls := b.Side(opp);
    var m := Sweep(Visible(o), ls);
    SweepIsGreedy(Visible(o), ls);
    SweepSorted(Visible(o), ls);
    SweepKeepsTerms(Visible(o), ls);
    GreedyLedger(Visible(o), Flat(ls), id);
    var after := b.WithSide(opp, m.levels).(last := LastPrice(b.last, m.trades));
    assert Resting(after, id) - Resting(b, id) == OpenOf(Flat(m.levels), id) - OpenOf(Flat(ls), id);
    if RestsAfter(o, m.taker) {
      RestLedger(after, Unmasked(o, m.taker), id);
      assert Hidden(o) >= 0.0;
    } else {
      DiscardedTwo(Discard(o.id, Remaining(m.taker), Remainder), Discard(o.id, Hidden(o), IcebergTail), id);
    }
  }

  /** One cancellation: what leaves the book is discarded. */
  lemma {:induction false} CancelLedger(b: Book, cancelled: OrderId, id: OrderId)
    requires b.Valid()
    ensures Resting(b, id) == Resting(AfterCancel(b, cancelled).book, id) + Discarded(CancelDiscards(b, cancelled), id)
  {
    RemoveFlat(b.bids, cancelled);
    RemoveFlat(b.asks, cancelled);
    StrikeLedger(Flat(b.bids), cancelled, id);
    StrikeLedger(Flat(b.asks), cancelled, id);
    var bid := Discard(cancelled, StruckQuantity(Flat(b.bids), cancelled), CancelledRest);
    if !Remove(b.bids, cancelled).emptied {
      DiscardedTwo(bid, Discard(cancelled, StruckQuantity(Flat(b.asks), cancelled), CancelledRest), id);
    }
  }

  /** Conservation over every run: submitted = traded + resting + discarded. */
  lemma {:induction false} RunConserves(cmds: seq<Command>, id: OrderId)
    ensures RunSubmitted(cmds, id) ==
            Traded(Run(cmds).trades, id) + Resting(Run(cmds).book, id) + Discarded(RunDiscards(cmds), id)
  {
    if cmds != [] {
      var before, c := cmds[..|cmds| - 1], cmds[|cmds| - 1];
      RunConserves(before, id);
      var r := Run(before);
      TradedAppend(r.trades, Step(r.book, c).trades, id);
      DiscardedAppend(RunDiscards(before), DiscardsOf(r.book, c), id);
      match c {
        case Submit(o) => SubmitLedger(r.book, o, id);
        case Cancel(cancelled) => CancelLedger(r.book, cancelled, id);
      }
    }
  }

  ghost predicate SaneOrder(o: Order) {
    o.quantity > 0.0 && o.filled == 0.0 && Peak(o) >= 0.0
  }

  lemma {:induction false} RemainderBounds(b: Book, o: Order)
    requires OpenBook(b) && SaneOrder(o)
    ensures 0.0 <= Remaining(Sweep(Visible(o), b.Side(Opposite(o.side))).taker) <= Peak(o)
  {
    var ls := b.Side(Opposite(o.side));
    SweepIsGreedy(Visible(o), ls);
    GreedyTotal(Visible(o), Flat(ls));
    GreedyFillsTaker(Visible(o), Flat(ls));
    EligibleOpen(o.side, Flat(ls), o.price);
    OpenQuantityNonNegative(Reach(Visible(o), Flat(ls)));
    SweepKeepsTerms(Visible(o), ls);
  }

  /**
   On a book of open orders nothing negative is discarded, and each reason befalls only the orders it is meant
   for.
   */
  lemma {:induction false} DiscardsAreMeant(b: Book, o: Order, d: Discard)
    requires OpenBook(b) && SaneOrder(o)
    requires d in SubmitDiscards(b, o)
    ensures d.id == o.id && 0.0 <= d.quantity <= o.quantity
    ensures d.reason == RejectedPostOnly ==> o.orderType.PostOnly?
    ensures d.reason == KilledFok ==> IsFok(o)
    ensures d.reason == Remainder && d.quantity > 0.0 ==> IsFok(o) || IsIoc(o) || o.orderType.Market?
    ensures d.reason == IcebergTail && d.quantity > 0.0 ==> o.orderType.Iceberg?
  {
    RemainderBounds(b, o);
    assert Peak(o) <= o.quantity;
    if o.orderType.PostOnly? || FokFails(o, Available(o.side, b.Side(Opposite(o.side)), o.price)) {
    } else {
      var taker := Sweep(Visible(o), b.Side(Opposite(o.side))).taker;
      assert d == Discard(o.id, Remaining(taker), Remainder) || d == Discard(o.id, Hidden(o), IcebergTail);
      SweepKeepsTerms(Visible(o), b.Side(Opposite(o.side)));
    }
  }

  // ---------- What an iceberg shows ----------

  /** A match by a taker that is not live fills only its own id's account by what it trades. */
  lemma {:induction false} StrangerRest(taker: Order, es: seq<Entry>, id: OrderId)
    requires forall k | 0 <= k < |es| :: es[k].order.id != id
    ensures OpenOf(es, id) == 0.0 && OpenOf(Greedy(taker, es).rest, id) == 0.0
  {
    var r := Greedy(taker, es).rest;
    GreedySuffix(taker, es);
    forall i | 0 <= i < |r| ensures r[i].order.id != id {
      assert r[i].order.id == es[|es| - |r| + i].order.id;
    }
    OpenOfAbsent(es, id);
    OpenOfAbsent(r, id);
  }

  /** What a fresh matched order leaves on the book: all it did not trade if it rests, else nothing. */
  lemma {:induction false} MatchedResting(b: Book, o: Order)
    requires b.Valid() && NewId(Flatten(b), o.id)
    ensures var m := Sweep(Visible(o), b.Side(Opposite(o.side)));
            Resting(Matched(b, o).book, o.id) == if RestsAfter(o, m.taker) then Remaining(Unmasked(o, m.taker)) else 0.0
  {
    var opp := Opposite(o.side);
    var ls := b.Side(opp);
    var m := Sweep(Visible(o), ls);
    SweepIsGreedy(Visible(o), ls);
    SweepSorted(Visible(o), ls);
    SweepKeepsTerms(Visible(o), ls);
    StrangerRest(Visible(o), Flat(ls), o.id);
    OpenOfAbsent(Flat(b.Side(o.side)), o.id);
    var after := b.WithSide(opp, m.levels).(last := LastPrice(b.last, m.trades));
    assert Resting(after, o.id) == 0.0;
    if RestsAfter(o, m.taker) { RestLedger(after, Unmasked(o, m.taker), o.id); }
  }

  /** A fresh iceberg that is neither fill-or-kill nor immediate-or-cancel, with something to show. */
  ghost predicate PlainIceberg(b: Book, o: Order) {
    && OpenBook(b) && NewId(Flatten(b), o.id)
    && o.orderType.Iceberg? && !IsFok(o) && !IsIoc(o) && o.filled == 0.0 && Peak(o) > 0.0
  }

  /** Such an iceberg trades its peak and is gone, or trades all in reach and rests with the whole remainder shown. */
  lemma {:induction false} IcebergOutcome(b: Book, o: Order)
    requires PlainIceberg(b, o)
    ensures var avail := Available(o.side, b.Side(Opposite(o.side)), o.price);
            && Resting(Submitted(b, o).book, o.id) == (if avail < Peak(o) then o.quantity - avail else 0.0)
            && Discarded(SubmitDiscards(b, o), o.id) == (if avail < Peak(o) then 0.0 else Hidden(o))
  {
    var ls := b.Side(Opposite(o.side));
    var taker := Sweep(Visible(o), ls).taker;
    MatchedResting(b, o);
    SweepIsGreedy(Visible(o), ls);
    SweepKeepsTerms(Visible(o), ls);
    GreedyFillsTaker(Visible(o), Flat(ls));
    GreedyTotal(Visible(o), Flat(ls));
    AvailableIsEligible(o.side, ls, o.price);
    if !RestsAfter(o, taker) {
      DiscardedTwo(Discard(o.id, Remaining(taker), Remainder), Discard(o.id, Hidden(o), IcebergTail), o.id);
    }
  }

  /**
   When an iceberg keeps its promise, in terms of the quantity `avail` in its reach. No more than the peak is shown
   exactly when the peak fills or the shortfall is at least the hidden part; nothing is lost exactly when the peak does
   not fill or nothing is hidden. Both hold exactly when nothing is hidden, or `avail` is short of the peak by at least
   the hidden part.
   */
  lemma {:induction false} IcebergPromiseIff(b: Book, o: Order)
    requires PlainIceberg(b, o)
    ensures var avail := Available(o.side, b.Side(Opposite(o.side)), o.price);
            var shown := Resting(Submitted(b, o).book, o.id);
            var lost := Discarded(SubmitDiscards(b, o), o.id);
            && (shown <= Peak(o) <==> avail >= Peak(o) || Hidden(o) <= avail)
            && (lost == 0.0 <==> avail < Peak(o) || Hidden(o) == 0.0)
            && (shown <= Peak(o) && lost == 0.0 <==> Hidden(o) == 0.0 || Hidden(o) <= avail < Peak(o))
  {
    IcebergOutcome(b, o);
    var ls := b.Side(Opposite(o.side));
    AvailableIsEligible(o.side, ls, o.price);
    EligibleOpen(o.side, Flat(ls), o.price);
    OpenQuantityNonNegative(Eligible(o.side, Flat(ls), o.price));
    assert Hidden(o) >= 0.0;
  }

  /** An iceberg of 3 with a peak of 1 on an empty book rests with all 3 shown. */
  lemma {:induction false} IcebergShowsAll() returns (o: Order)
    ensures PlainIceberg(EMPTY_BOOK, o) && o.quantity == 3.0 && Peak(o) == 1.0
    ensures Resting(Submitted(EMPTY_BOOK, o).book, o.id) == 3.0
  {
    o := Order(2, "t", "BTC_USDT", Buy, Iceberg, 10.0, 3.0, 0.0, Open, None, None, None, Some(1.0), "GTC");
    IcebergOutcome(EMPTY_BOOK, o);
  }

  /** The same iceberg against an offer of 1 trades its peak and loses the other 2. */
  lemma {:induction false} IcebergLosesHidden() returns (b: Book, o: Order)
    ensures PlainIceberg(b, o) && o.quantity == 3.0 && Peak(o) == 1.0
    ensures Resting(Submitted(b, o).book, o.id) == 0.0 && Discarded(SubmitDiscards(b, o), o.id) == 2.0
  {
    var resting := Order(1, "m", "BTC_USDT", Sell, Limit, 10.0, 1.0, 0.0, Open, None, None, None, None, "GTC");
    b := Book([], [Level(10000000, [resting])], None);
    o := Order(2, "t", "BTC_USDT", Buy, Iceberg, 10.0, 3.0, 0.0, Open, None, None, None, Some(1.0), "GTC");
    assert b.asks[1..] == [];
    assert Flat(b.asks) == [Entry(10000000, resting)] + Flat(b.asks[1..]);
    assert Available(Buy, b.asks, 10.0) == 1.0 by {
      assert QueueOpen([resting]) == 1.0 + QueueOpen([]);
      assert Available(Buy, b.asks, 10.0) == QueueOpen([resting]) + Available(Buy, b.asks[1..], 10.0);
    }
    IcebergOutcome(b, o);
  }

  // ---------- No order is overfilled ----------

  lemma {:induction false} SubmittedQuantity(cmds: seq<Command>, id: OrderId)
    requires WellFormed(cmds)
    ensures var k := Arrival(cmds, id);
            RunSubmitted(cmds, id) == if k < |cmds| then cmds[k].order.quantity else 0.0
  {
    if cmds != [] {
      var before, c := cmds[..|cmds| - 1], cmds[|cmds| - 1];
      assert cmds == before + [c];
      WellFormedSnoc(before, c);
      SubmittedQuantity(before, id);
      ArrivalSnoc(before, c, id);
    }
  }

  lemma {:induction false} OpenNonNegative(es: seq<Entry>, id: OrderId)
    requires AllOpen(es)
    ensures OpenOf(es, id) >= 0.0 && StruckQuantity(es, id) >= 0.0
  {
    if es != [] {
      assert es[0] in es;
      assert forall e | e in es[1..] :: e in es;
      OpenNonNegative(es[1..], id);
    }
  }

  /** Even an iceberg with a negative peak, which order entry lets through, discards no less than nothing in all. */
  lemma {:induction false} SubmitDiscardsNonNegative(b: Book, o: Order, id: OrderId)
    requires OpenBook(b) && o.quantity > 0.0 && o.filled == 0.0
    ensures Discarded(SubmitDiscards(b, o), id) >= 0.0
  {
    if !o.orderType.PostOnly? && !FokFails(o, Available(o.side, b.Side(Opposite(o.side)), o.price)) {
      var taker := Sweep(Visible(o), b.Side(Opposite(o.side))).taker;
      if !RestsAfter(o, taker) {
        DiscardedTwo(Discard(o.id, Remaining(taker), Remainder), Discard(o.id, Hidden(o), IcebergTail), id);
        if Peak(o) >= 0.0 { RemainderBounds(b, o); }
      }
    }
  }

  lemma {:induction false} CancelDiscardsNonNegative(b: Book, cancelled: OrderId, id: OrderId)
    requires OpenBook(b)
    ensures Discarded(CancelDiscards(b, cancelled), id) >= 0.0
  {
    OpenNonNegative(Flat(b.bids), cancelled);
    OpenNonNegative(Flat(b.asks), cancelled);
    var bid := Discard(cancelled, StruckQuantity(Flat(b.bids), cancelled), CancelledRest);
    DiscardedTwo(bid, Discard(cancelled, StruckQuantity(Flat(b.asks), cancelled), CancelledRest), id);
    assert Discarded([bid], id) == (if bid.id == id then bid.quantity else 0.0) + Discarded([], id);
  }

  lemma {:induction false} RunDiscardsNonNegative(cmds: seq<Command>, id: OrderId)
    requires WellFormed(cmds)
    ensures Discarded(RunDiscards(cmds), id) >= 0.0
  {
    if cmds != [] {
      var before, c := cmds[..|cmds| - 1], cmds[|cmds| - 1];
      assert cmds == before + [c];
      WellFormedSnoc(before, c);
      RunDiscardsNonNegative(before, id);
      ReachableOpen(before);
      var b := Run(before).book;
      match c {
        case Submit(o) => SubmitDiscardsNonNegative(b, o, id);
        case Cancel(cancelled) => CancelDiscardsNonNegative(b, cancelled, id);
      }
      DiscardedAppend(RunDiscards(before), DiscardsOf(b, c), id);
    }
  }

  /** Over any well-formed run, no order ever trades more than the quantity it was submitted for. */
  lemma {:induction false} NeverOverfilled(cmds: seq<Command>, id: OrderId)
    requires WellFormed(cmds)
    ensures var k := Arrival(cmds, id);
            Traded(Run(cmds).trades, id) <= if k < |cmds| then cmds[k].order.quantity else 0.0
  {
    RunConserves(cmds, id);
    SubmittedQuantity(cmds, id);
    RunDiscardsNonNegative(cmds, id);
    ReachableOpen(cmds);
    OpenNonNegative(Flat(Run(cmds).book.bids), id);
    OpenNonNegative(Flat(Run(cmds).book.asks), id);
  }
}
