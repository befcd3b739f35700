/**
 The whole book as a value, and what `submit` and `cancel` do to it.
 `Submitted` follows the engine, level by level; `FlatSubmitted` is the specification, which only knows the
 live orders of each side in priority order.
 */
module Books {
  import opened Prelude
  import opened Ticks
  import opened Orders
  import opened Ladder
  import opened Matching

  /** Slack allowed when a fill-or-kill order checks the available quantity. */
  const FOK_SLACK := 0.000000001

  datatype Book = Book(bids: seq<Level>, asks: seq<Level>, last: Option<real>) {
    function Side(side: Side): seq<Level> {
      if side.Buy? then bids else asks
    }

    function WithSide(side: Side, ls: seq<Level>): Book {
      if side.Buy? then this.(bids := ls) else this.(asks := ls)
    }

    ghost predicate Valid() {
      Sorted(Buy, bids) && Sorted(Sell, asks)
    }
  }

  const EMPTY_BOOK := Book([], [], None)

  datatype Outcome = Outcome(book: Book, trades: seq<Trade>)

  function QueueOpen(queue: seq<Order>): real {
    if queue == [] then 0.0 else Remaining(queue[0]) + QueueOpen(queue[1..])
  }

  /** Quantity an order on side `side` finds within `price` on the opposite levels `ls`. */
  function Available(side: Side, ls: seq<Level>, price: real): real {
    if ls == [] || Outside(side, price, ls[0].tick) then 0.0
    else QueueOpen(ls[0].queue) + Available(side, ls[1..], price)
  }

  /** The post-only test: it looks at the best opposite level, live or empty. */
  predicate WouldMatch(b: Book, o: Order) {
    var ls := b.Side(Opposite(o.side));
    ls != [] && !Outside(o.side, o.price, ls[0].tick)
  }

  /** An iceberg order brings only its peak to the match. */
  function Peak(o: Order): real {
    if o.orderType.Iceberg? then
      match o.icebergPeak
      case None => o.quantity
      case Some(peak) => Min(peak, o.quantity)
    else o.quantity
  }

  function Hidden(o: Order): real {
    o.quantity - Peak(o)
  }

  function Visible(o: Order): Order {
    o.(quantity := Peak(o))
  }

  /** Whether what is left of `o` after matching goes on the book. */
  predicate RestsAfter(o: Order, taker: Order) {
    !Done(taker) && !IsIoc(o) && !o.orderType.Market? && !IsFok(o)
  }

  function Unmasked(o: Order, taker: Order): Order {
    if Hidden(o) > 0.0 then taker.(quantity := taker.quantity + Hidden(o)) else taker
  }

  function LastPrice(last: Option<real>, trades: seq<Trade>): Option<real> {
    if trades == [] then last else Some(trades[|trades| - 1].price)
  }

  function AddResting(b: Book, o: Order): Book {
    b.WithSide(o.side, PushBack(o.side, b.Side(o.side), PriceToTicks(o.price), o))
  }

  /** A post-only order that rests becomes a limit order; the engine opens a bid level at its tick whatever its side. */
  function RestPostOnly(b: Book, o: Order): Book {
    AddResting(b.(bids := WithLevel(Buy, b.bids, PriceToTicks(o.price))), o.(orderType := Limit))
  }

  predicate FokFails(o: Order, available: real) {
    IsFok(o) && available < o.quantity - FOK_SLACK
  }

  function Matched(b: Book, o: Order): Outcome {
    var opp := Opposite(o.side);
    var m := Sweep(Visible(o), b.Side(opp));
    var after := b.WithSide(opp, m.levels).(last := LastPrice(b.last, m.trades));
    Outcome(if RestsAfter(o, m.taker) then AddResting(after, Unmasked(o, m.taker)) else after, m.trades)
  }

  function Submitted(b: Book, o: Order): Outcome {
    if o.orderType.PostOnly? then
      Outcome(if WouldMatch(b, o) then b else RestPostOnly(b, o), [])
    else if FokFails(o, Available(o.side, b.Side(Opposite(o.side)), o.price)) then
      Outcome(b, [])
    else
      Matched(b, o)
  }

  datatype CancelOutcome = CancelOutcome(book: Book, flag: bool)

  /** Bids are searched first; the asks are searched too unless a bid level was emptied. */
  function AfterCancel(b: Book, id: OrderId): CancelOutcome {
    var bids := Remove(b.bids, id);
    if bids.emptied then CancelOutcome(b.(bids := bids.levels), true)
    else
      var asks := Remove(b.asks, id);
      CancelOutcome(b.(bids := bids.levels, asks := asks.levels), asks.emptied)
  }

  // ---------- The flat specification ----------

  datatype FlatBook = FlatBook(bids: seq<Entry>, asks: seq<Entry>, last: Option<real>) {
    function Side(side: Side): seq<Entry> {
      if side.Buy? then bids else asks
    }

    function WithSide(side: Side, es: seq<Entry>): FlatBook {
      if side.Buy? then this.(bids := es) else this.(asks := es)
    }
  }

  datatype FlatOutcome = FlatOutcome(book: FlatBook, trades: seq<Trade>)

  function Flatten(b: Book): FlatBook {
    FlatBook(Flat(b.bids), Flat(b.asks), b.last)
  }

  /** The first entries of `es` that are within the limit `price` of an order on side `side`. */
  function Eligible(side: Side, es: seq<Entry>, price: real): seq<Entry> {
    if es == [] || Outside(side, price, es[0].tick) then []
    else [es[0]] + Eligible(side, es[1..], price)
  }

  function OpenQuantity(es: seq<Entry>): real {
    if es == [] then 0.0 else Remaining(es[0].order) + OpenQuantity(es[1..])
  }

  predicate FlatWouldMatch(f: FlatBook, o: Order) {
    Eligible(o.side, f.Side(Opposite(o.side)), o.price) != []
  }

  function FlatRest(f: FlatBook, o: Order): FlatBook {
    f.WithSide(o.side, Insert(o.side, f.Side(o.side), Entry(PriceToTicks(o.price), o)))
  }

  function FlatMatched(f: FlatBook, o: Order): FlatOutcome {
    var opp := Opposite(o.side);
    var m := Greedy(Visible(o), f.Side(opp));
    var after := f.WithSide(opp, m.rest).(last := LastPrice(f.last, m.trades));
    FlatOutcome(if RestsAfter(o, m.taker) then FlatRest(after, Unmasked(o, m.taker)) else after, m.trades)
  }

  function FlatSubmitted(f: FlatBook, o: Order): FlatOutcome {
    if o.orderType.PostOnly? then
      FlatOutcome(if FlatWouldMatch(f, o) then f else FlatRest(f, o.(orderType := Limit)), [])
    else if FokFails(o, OpenQuantity(Eligible(o.side, f.Side(Opposite(o.side)), o.price))) then
      FlatOutcome(f, [])
    else
      FlatMatched(f, o)
  }

  function FlatCancelled(f: FlatBook, id: OrderId): FlatBook {
    f.(bids := Strike(f.bids, id), asks := Strike(f.asks, id))
  }

  // ---------- Refinement ----------

  lemma {:induction false} OpenQuantityAppend(a: seq<Entry>, b: seq<Entry>)
    ensures OpenQuantity(a + b) == OpenQuantity(a) + OpenQuantity(b)
  {
    if a == [] {
      assert a + b == b;
    } else {
      assert (a + b)[1..] == a[1..] + b;
      OpenQuantityAppend(a[1..], b);
    }
  }

  lemma {:induction false} QueueOpenFlat(tick: int, queue: seq<Order>)
    ensures OpenQuantity(Tagged(tick, queue)) == QueueOpen(queue)
  {
    if queue != [] {
      QueueOpenFlat(tick, queue[1..]);
      assert Tagged(tick, queue)[1..] == Tagged(tick, queue[1..]);
    }
  }

  lemma {:induction false} EligiblePast(side: Side, head: seq<Entry>, tail: seq<Entry>, price: real)
    requires forall i | 0 <= i < |head| :: !Outside(side, price, head[i].tick)
    ensures Eligible(side, head + tail, price) == head + Eligible(side, tail, price)
  {
    if head == [] {
      assert head + tail == tail;
    } else {
      assert (head + tail)[1..] == head[1..] + tail;
      EligiblePast(side, head[1..], tail, price);
      assert [head[0]] + (head[1..] + Eligible(side, tail, price)) == head + Eligible(side, tail, price);
    }
  }

  lemma {:induction false} EligibleNone(side: Side, ls: seq<Level>, price: real)
    requires Sorted(Opposite(side), ls) && ls != [] && Outside(side, price, ls[0].tick)
    ensures Eligible(side, Flat(ls), price) == []
  {
    FlatWorse(Opposite(side), ls);
    if Flat(ls) != [] {
      assert Flat(ls)[0] in Flat(ls);
    }
  }

  /** The scan over levels finds the open quantity of the eligible live orders. */
  lemma {:induction false} AvailableIsEligible(side: Side, ls: seq<Level>, price: real)
    requires Sorted(Opposite(side), ls)
    ensures Available(side, ls, price) == OpenQuantity(Eligible(side, Flat(ls), price))
  {
    if ls != [] {
      if Outside(side, price, ls[0].tick) {
        EligibleNone(side, ls, price);
      } else {
        var head, tail := Tagged(ls[0].tick, ls[0].queue), Flat(ls[1..]);
        AvailableIsEligible(side, ls[1..], price);
        EligiblePast(side, head, tail, price);
        OpenQuantityAppend(head, Eligible(side, tail, price));
        QueueOpenFlat(ls[0].tick, ls[0].queue);
      }
    }
  }

  /** The engine finds a level that a post-only order would match, and the flat specification no order. */
  predicate PhantomBlocks(b: Book, o: Order) {
    o.orderType.PostOnly? && WouldMatch(b, o) && !FlatWouldMatch(Flatten(b), o)
  }

  /** The levels from the first one that holds an order. */
  function SkipEmpty(ls: seq<Level>): seq<Level> {
    if ls != [] && ls[0].queue == [] then SkipEmpty(ls[1..]) else ls
  }

  lemma {:induction false} SkipEmptyFlat(ls: seq<Level>)
    ensures SkipEmpty(ls) == [] <==> Flat(ls) == []
    ensures SkipEmpty(ls) != [] ==> Flat(ls)[0].tick == SkipEmpty(ls)[0].tick
  {
    if ls != [] && ls[0].queue == [] {
      SkipEmptyFlat(ls[1..]);
      assert Flat(ls) == Flat(ls[1..]);
    }
  }

  /**
   A post-only order is blocked without cause exactly when the front of the opposite side is an empty level within its
   price, and the first level that holds an order is not within it.
   */
  lemma {:induction false} PhantomIsEmptyLevel(b: Book, o: Order)
    ensures var ls := b.Side(Opposite(o.side));
            PhantomBlocks(b, o) <==>
              && o.orderType.PostOnly?
              && ls != [] && ls[0].queue == [] && !Outside(o.side, o.price, ls[0].tick)
              && (SkipEmpty(ls) == [] || Outside(o.side, o.price, SkipEmpty(ls)[0].tick))
  {
    SkipEmptyFlat(b.Side(Opposite(o.side)));
  }

  lemma {:induction false} WouldMatchIfLive(b: Book, o: Order)
    requires b.Valid() && FlatWouldMatch(Flatten(b), o)
    ensures WouldMatch(b, o)
  {
    var ls := b.Side(Opposite(o.side));
    if WouldMatch(b, o) {
    } else if ls != [] {
      EligibleNone(o.side, ls, o.price);
    }
  }

  lemma {:induction false} AddRestingFlat(b: Book, o: Order)
    requires b.Valid()
    ensures Flatten(AddResting(b, o)) == FlatRest(Flatten(b), o)
    ensures AddResting(b, o).Valid()
  {
    PushBackFlat(o.side, b.Side(o.side), PriceToTicks(o.price), o);
    PushBackSorted(o.side, b.Side(o.side), PriceToTicks(o.price), o);
  }

  lemma {:induction false} RestPostOnlyFlat(b: Book, o: Order)
    requires b.Valid()
    ensures Flatten(RestPostOnly(b, o)) == FlatRest(Flatten(b), o.(orderType := Limit))
    ensures RestPostOnly(b, o).Valid()
  {
    WithLevelFlat(Buy, b.bids, PriceToTicks(o.price));
    WithLevelSorted(Buy, b.bids, PriceToTicks(o.price));
    AddRestingFlat(b.(bids := WithLevel(Buy, b.bids, PriceToTicks(o.price))), o.(orderType := Limit));
  }

  lemma {:induction false} MatchedFlat(b: Book, o: Order)
    requires b.Valid()
    ensures var r, s := Matched(b, o), FlatMatched(Flatten(b), o);
            Flatten(r.book) == s.book && r.trades == s.trades && r.book.Valid()
  {
    var opp := Opposite(o.side);
    SweepIsGreedy(Visible(o), b.Side(opp));
    SweepSorted(Visible(o), b.Side(opp));
    var m := Sweep(Visible(o), b.Side(opp));
    var after := b.WithSide(opp, m.levels).(last := LastPrice(b.last, m.trades));
    AddRestingFlat(after, Unmasked(o, m.taker));
    SweepKeepsTerms(Visible(o), b.Side(opp));
  }

  /** Matching changes only how much of the taker is filled, and its status. */
  lemma {:induction false} SweepKeepsTerms(taker: Order, ls: seq<Level>)
    ensures var t := Sweep(taker, ls).taker;
            t == taker.(filled := t.filled, status := t.status)
    decreases |ls|, HeadLength(ls)
  {
    if !Done(taker) && ls != [] && !Blocked(taker, ls[0].tick) {
      if ls[0].queue == [] {
        SweepKeepsTerms(taker, ls[1..]);
      } else {
        var q := FillQuantity(taker, ls[0].queue[0]);
        if Done(Fill(ls[0].queue[0], q)) {
          SweepKeepsTerms(Fill(taker, q), PopFront(ls));
        }
      }
    }
  }

  /**
   Submitting through levels and queues is the flat specification, for every book and every order,
   exactly when no empty level stands in the way of a post-only order.
   */
  lemma {:induction false} SubmitRefinesFlat(b: Book, o: Order)
    requires b.Valid()
    ensures var r, s := Submitted(b, o), FlatSubmitted(Flatten(b), o);
            Flatten(r.book) == s.book && r.trades == s.trades <==> !PhantomBlocks(b, o)
  {
    var opp := Opposite(o.side);
    if o.orderType.PostOnly? {
      RestPostOnlyFlat(b, o);
      if PhantomBlocks(b, o) {
        InsertGrows(o.side, Flatten(b).Side(o.side), Entry(PriceToTicks(o.price), o.(orderType := Limit)));
      } else if FlatWouldMatch(Flatten(b), o) {
        WouldMatchIfLive(b, o);
      }
    } else {
      AvailableIsEligible(o.side, b.Side(opp), o.price);
      MatchedFlat(b, o);
    }
  }

  lemma {:induction false} InsertGrows(side: Side, es: seq<Entry>, e: Entry)
    ensures |Insert(side, es, e)| == |es| + 1
  {
    if es != [] && !Better(side, e.tick, es[0].tick) {
      InsertGrows(side, es[1..], e);
    }
  }

  /** A blocked post-only order is turned away: it neither trades nor rests. */
  lemma {:induction false} PhantomTurnsAway(b: Book, o: Order)
    requires PhantomBlocks(b, o)
    ensures Submitted(b, o) == Outcome(b, [])
    ensures FlatSubmitted(Flatten(b), o).book == FlatRest(Flatten(b), o.(orderType := Limit))
  {
  }

  lemma {:induction false} SubmittedValid(b: Book, o: Order)
    requires b.Valid()
    ensures Submitted(b, o).book.Valid()
  {
    RestPostOnlyFlat(b, o);
    MatchedFlat(b, o);
  }

  /** Cancelling through levels strikes the id from the flat lists, when no id is on both sides. */
  lemma {:induction false} CancelRefinesFlat(b: Book, id: OrderId)
    requires b.Valid()
    requires !(Holds(Flat(b.bids), id) && Holds(Flat(b.asks), id))
    ensures Flatten(AfterCancel(b, id).book) == FlatCancelled(Flatten(b), id)
  {
    RemoveFlat(b.bids, id);
    RemoveFlat(b.asks, id);
    if Remove(b.bids, id).emptied {
      EmptiedHeld(b.bids, id);
      StrikeAbsent(Flat(b.asks), id);
    }
  }

  lemma {:induction false} EmptiedHeld(ls: seq<Level>, id: OrderId)
    requires Remove(ls, id).emptied
    ensures Holds(Flat(ls), id)
  {
    match Position(ls[0].queue, id)
    case None =>
      EmptiedHeld(ls[1..], id);
      var e :| e in Flat(ls[1..]) && e.order.id == id;
      assert e in Flat(ls);
    case Some(p) =>
      var e := Tagged(ls[0].tick, ls[0].queue)[p];
      assert e in Flat(ls);
  }

  lemma {:induction false} CancelledValid(b: Book, id: OrderId)
    requires b.Valid()
    ensures AfterCancel(b, id).book.Valid()
  {
    RemoveSorted(Buy, b.bids, id);
    RemoveSorted(Sell, b.asks, id);
  }

  lemma {:induction false} RemoveLength(ls: seq<Level>, id: OrderId)
    ensures |Remove(ls, id).levels| == if Remove(ls, id).emptied then |ls| - 1 else |ls|
  {
    if ls != [] {
      RemoveLength(ls[1..], id);
    }
  }

  /** The answer of a cancel says that a level went, not that the order was found. */
  lemma {:induction false} CancelFlagIff(b: Book, id: OrderId)
    ensures var r := AfterCancel(b, id);
            r.flag <==> |r.book.bids| < |b.bids| || |r.book.asks| < |b.asks|
  {
    RemoveLength(b.bids, id);
    RemoveLength(b.asks, id);
  }
}
