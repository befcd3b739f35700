/**
 What each order type gets from one submission, written out: which trades it may make, how much it fills, and what
 becomes of the rest. Types, prices and the fill-or-kill slack are spelled out rather than taken from the engine.
 */
module OrderTypes {
  import opened Prelude
  import opened Ticks
  import opened Orders
  import opened Ladder
  import opened Matching
  import opened Books
  import opened FillRules

  /** An order on side `side` with limit `price` accepts a trade at the price of `tick`. */
  predicate Accepts(side: Side, price: real, tick: int) {
    match side
    case Buy => tick as real / 1000000.0 <= price
    case Sell => tick as real / 1000000.0 >= price
  }

  /** What the orders of `es` that such an order accepts have left. */
  function OfferedWithin(side: Side, es: seq<Entry>, price: real): real {
    if es == [] then 0.0
    else
      var e := es[0];
      (if Accepts(side, price, e.tick) then e.order.quantity - e.order.filled else 0.0)
      + OfferedWithin(side, es[1..], price)
  }

  /** What all the orders of `es` have left. */
  function Offered(es: seq<Entry>): real {
    if es == [] then 0.0 else es[0].order.quantity - es[0].order.filled + Offered(es[1..])
  }

  /** The types whose limit price bounds their trades. */
  predicate Limited(o: Order) {
    o.orderType.Limit? || o.orderType.FOK? || o.orderType.IOC? || o.orderType.Iceberg?
  }

  predicate FillOrKill(o: Order) {
    o.orderType.FOK? || o.timeInForce == "FOK"
  }

  /** The types and instructions under which nothing of the order may rest. */
  predicate NeverRests(o: Order) {
    || FillOrKill(o)
    || o.orderType.IOC? || o.timeInForce == "IOC"
    || o.orderType.Market?
  }

  /** What the order brings to the match. */
  function Shown(o: Order): real {
    if o.orderType.Iceberg? && o.icebergPeak.Some? && o.icebergPeak.value < o.quantity then o.icebergPeak.value
    else o.quantity
  }

  function OppositeLine(b: Book, o: Order): seq<Entry> {
    Flat(if o.side.Buy? then b.asks else b.bids)
  }

  function OwnLine(b: Book, o: Order): seq<Entry> {
    Flat(if o.side.Buy? then b.bids else b.asks)
  }

  ghost predicate NewOrder(b: Book, o: Order) {
    OpenBook(b) && o.filled == 0.0
  }

  /** A fill-or-kill order needs its whole quantity on offer within its price, up to the slack. */
  predicate PassesScan(b: Book, o: Order) {
    FillOrKill(o) ==> OfferedWithin(o.side, OppositeLine(b, o), o.price) >= o.quantity - 0.000000001
  }

  // ---------- The engine's tests, spelled out ----------

  lemma {:induction false} NoneWithin(side: Side, es: seq<Entry>, price: real)
    requires forall i | 0 <= i < |es| :: Outside(side, price, es[i].tick)
    ensures OfferedWithin(side, es, price) == 0.0
  {
    if es != [] {
      assert forall i | 0 <= i < |es[1..]| :: es[1..][i] == es[i + 1];
      NoneWithin(side, es[1..], price);
    }
  }

  /** In price order, the orders within the limit are the first ones. */
  lemma {:induction false} EligibleIsWithin(side: Side, es: seq<Entry>, price: real)
    requires Ordered(Opposite(side), es)
    ensures OpenQuantity(Eligible(side, es, price)) == OfferedWithin(side, es, price)
  {
    if es != [] {
      if Outside(side, price, es[0].tick) {
        forall i | 0 <= i < |es| ensures Outside(side, price, es[i].tick) {
          assert i > 0 ==> !Better(Opposite(side), es[i].tick, es[0].tick);
        }
        NoneWithin(side, es, price);
      } else {
        assert forall i, j | 0 <= i < j < |es[1..]| :: es[1..][i] == es[i + 1] && es[1..][j] == es[j + 1];
        EligibleIsWithin(side, es[1..], price);
        var rest := Eligible(side, es[1..], price);
        assert ([es[0]] + rest)[1..] == rest;
      }
    }
  }

  lemma {:induction false} OpenIsOffered(es: seq<Entry>)
    ensures OpenQuantity(es) == Offered(es)
  {
    if es != [] {
      OpenIsOffered(es[1..]);
    }
  }

  /** The scan over the opposite levels finds what is offered within the price. */
  lemma {:induction false} ScanFindsOffered(b: Book, o: Order)
    requires b.Valid()
    ensures Available(o.side, b.Side(Opposite(o.side)), o.price) == OfferedWithin(o.side, OppositeLine(b, o), o.price)
    ensures FokFails(o, Available(o.side, b.Side(Opposite(o.side)), o.price)) <==> !PassesScan(b, o)
  {
    var ls := b.Side(Opposite(o.side));
    AvailableIsEligible(o.side, ls, o.price);
    FlatOrdered(Opposite(o.side), ls);
    EligibleIsWithin(o.side, Flat(ls), o.price);
  }

  // ---------- Trades ----------

  /** A fill-or-kill order that does not find its quantity within its price leaves the book exactly as it was. */
  lemma {:induction false} FailedScanDoesNothing(b: Book, o: Order)
    requires b.Valid() && !o.orderType.PostOnly? && !PassesScan(b, o)
    ensures Submitted(b, o) == Outcome(b, [])
  {
    ScanFindsOffered(b, o);
  }

  /**
   How much an order trades, exactly. One whose type is bound by its limit trades the smaller of what it shows and what
   is offered within the limit; any other the smaller of its quantity and all that is offered, whatever its price.
   With nothing to show it trades nothing.
   */
  lemma {:induction false} TotalTraded(b: Book, o: Order)
    requires NewOrder(b, o) && !o.orderType.PostOnly? && PassesScan(b, o)
    ensures var reach := if Limited(o) then OfferedWithin(o.side, OppositeLine(b, o), o.price)
                         else Offered(OppositeLine(b, o));
            SumQuantity(Submitted(b, o).trades) ==
              if Shown(o) <= 0.0 then 0.0 else if Shown(o) <= reach then Shown(o) else reach
  {
    var ls := b.Side(Opposite(o.side));
    ScanFindsOffered(b, o);
    MatchedFlat(b, o);
    FlatOrdered(Opposite(o.side), ls);
    EligibleIsWithin(o.side, Flat(ls), o.price);
    OpenIsOffered(Flat(ls));
    if Shown(o) > 0.0 { GreedyTotal(Visible(o), Flat(ls)); }
  }

  // ---------- The rest of the order ----------

  /** `after` is `before` with `e` queued behind everything not worse and ahead of everything worse. */
  ghost predicate Queued(side: Side, before: seq<Entry>, after: seq<Entry>, e: Entry) {
    exists k: nat ::
      && k <= |before| && after == before[..k] + [e] + before[k..]
      && (forall i | 0 <= i < k :: if side.Buy? then before[i].tick >= e.tick else before[i].tick <= e.tick)
      && (forall i | k <= i < |before| :: if side.Buy? then before[i].tick < e.tick else before[i].tick > e.tick)
  }

  lemma {:induction false} InsertQueues(side: Side, es: seq<Entry>, e: Entry)
    requires Ordered(side, es)
    ensures Queued(side, es, Insert(side, es, e), e)
  {
    var k := InsertSplits(side, es, e);
  }

  /** Matching changes a taker's fill and, when it trades, its status. */
  lemma {:induction false} GreedyKeepsTaker(taker: Order, es: seq<Entry>)
    requires AllOpen(es)
    ensures var t := Greedy(taker, es).taker;
            && t == taker.(filled := t.filled, status := t.status)
            && t.filled >= taker.filled
            && (t.filled == taker.filled ==> t.status == taker.status)
            && (t.filled > taker.filled && !Done(t) ==> t.status == PartiallyFilled)
    decreases |es|
  {
    if !Done(taker) && es != [] && !Blocked(taker, es[0].tick) {
      assert es[0] in es;
      assert forall e | e in es[1..] :: e in es;
      var q := FillQuantity(taker, es[0].order);
      if Done(Fill(es[0].order, q)) { GreedyKeepsTaker(Fill(taker, q), es[1..]); }
    }
  }

  /** What rests of an order of which `total` traded. */
  function Remainder(o: Order, total: real): Order {
    o.(filled := total, status := if total > 0.0 then PartiallyFilled else o.status)
  }

  /** What a match leaves of its taker, its hidden part shown again, is the remainder. */
  lemma {:induction false} TakerIsRemainder(b: Book, o: Order)
    requires NewOrder(b, o)
    ensures var m := Greedy(Visible(o), Flat(b.Side(Opposite(o.side))));
            var total := SumQuantity(m.trades);
            && (RestsAfter(o, m.taker) <==> total < Shown(o) && !NeverRests(o))
            && (RestsAfter(o, m.taker) ==> Unmasked(o, m.taker) == Remainder(o, total))
  {
    var es := Flat(b.Side(Opposite(o.side)));
    GreedyFillsTaker(Visible(o), es);
    GreedyKeepsTaker(Visible(o), es);
  }

  /**
   What becomes of the rest, exactly. It queues at the order's own tick, with its whole quantity showing and the fill
   it got, unless nothing is left of what was shown or the order is one that never rests; then the own side stays.
   */
  lemma {:induction false} RestOfOrder(b: Book, o: Order)
    requires NewOrder(b, o) && !o.orderType.PostOnly? && PassesScan(b, o)
    ensures var r := Submitted(b, o);
            var total := SumQuantity(r.trades);
            if total < Shown(o) && !NeverRests(o)
            then Queued(o.side, OwnLine(b, o), OwnLine(r.book, o), Entry(PriceToTicks(o.price), Remainder(o, total)))
            else OwnLine(r.book, o) == OwnLine(b, o)
  {
    var m := Greedy(Visible(o), Flat(b.Side(Opposite(o.side))));
    ScanFindsOffered(b, o);
    MatchedFlat(b, o);
    TakerIsRemainder(b, o);
    FlatOrdered(o.side, b.Side(o.side));
    InsertQueues(o.side, Flat(b.Side(o.side)), Entry(PriceToTicks(o.price), Remainder(o, SumQuantity(m.trades))));
  }

  /**
   A post-only order never trades. It is turned away when the front opposite level, empty or not, is within its limit;
   otherwise it queues on its own side as a limit order, and the other side keeps its orders.
   */
  lemma {:induction false} PostOnlyOutcome(b: Book, o: Order)
    requires b.Valid() && o.orderType.PostOnly?
    ensures var r := Submitted(b, o);
            var ls := if o.side.Buy? then b.asks else b.bids;
            && r.trades == [] && r.book.last == b.last
            && (if ls != [] && Accepts(o.side, o.price, ls[0].tick) then r.book == b
                else Queued(o.side, OwnLine(b, o), OwnLine(r.book, o),
                            Entry(PriceToTicks(o.price), o.(orderType := Limit)))
                     && OppositeLine(r.book, o) == OppositeLine(b, o))
  {
    FlatOrdered(o.side, b.Side(o.side));
    InsertQueues(o.side, Flat(b.Side(o.side)), Entry(PriceToTicks(o.price), o.(orderType := Limit)));
    RestPostOnlyFlat(b, o);
  }
}
