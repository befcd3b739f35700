/**
 What can be known before a cancel request: whether it ends its order under every schedule of the other handlers. Where
 it does not, a schedule that defeats it is built.
 */
module CancelSchedules {
  import opened Prelude
  import opened Ticks
  import opened Orders
  import opened Ladder
  import opened Matching
  import opened Books
  import BookRuns
  import opened Triggers
  import opened CancelFinality

  // ---------- An order without a stop price stays in the store ----------

  /** `id` is not in hand, and stored only without a stop price. */
  ghost predicate Stuck(s: State, id: OrderId) {
    id in s.rows && !Held(s, id) && (id in s.store ==> s.store[id].order.stopPrice.None?)
  }

  lemma {:induction false} StuckOp(s: State, t: nat, id: OrderId)
    requires Inv(s) && Stuck(s, id) && t !in s.hands && s.TodoOf(t) != []
    ensures !Held(ActOp(s, t), id)
  {
    var op := s.TodoOf(t)[0];
    assert OpOk(s, op);
    NotHeld(s, id);
    if op.Take? && op.id in s.store {
      assert op.id != id && s.store[op.id].order.id == op.id;
      assert ActOp(s, t).hands == s.hands[t := Hand(s.store[op.id].order, true, None)];
    } else {
      assert ActOp(s, t).hands == s.hands;
    }
  }

  lemma {:induction false} StuckHands(s: State, a: Action, id: OrderId)
    requires Inv(s) && Stuck(s, id)
    ensures !Held(Step(s, a), id)
  {
    if a.Act? && a.thread !in s.hands && s.TodoOf(a.thread) != [] {
      StuckOp(s, a.thread, id);
    } else {
      NotHeld(s, id);
    }
  }

  /** `id` is still stored with the same order, if it is stored at all. */
  ghost predicate SameEntry(s: State, s': State, id: OrderId) {
    && s.rows.Keys <= s'.rows.Keys
    && (id in s'.store ==> id in s.store && s'.store[id].order == s.store[id].order)
  }

  lemma {:induction false} HandSameEntry(s: State, t: nat, id: OrderId)
    requires t in s.hands && !Held(s, id)
    ensures SameEntry(s, ActHand(s, t), id)
  {
    NotHeld(s, id);
  }

  lemma {:induction false} OpSameEntry(s: State, t: nat, id: OrderId)
    requires s.TodoOf(t) != []
    ensures SameEntry(s, ActOp(s, t), id)
  {
  }

  lemma {:induction false} StepSameEntry(s: State, a: Action, id: OrderId)
    requires !Held(s, id)
    ensures SameEntry(s, Step(s, a), id)
  {
    match a
    case Act(t) =>
      if t in s.hands { HandSameEntry(s, t, id); } else if s.TodoOf(t) != [] { OpSameEntry(s, t, id); }
    case Look(t, other) =>
      if t !in s.hands && s.TodoOf(t) != [] && s.TodoOf(t)[0].Collect? && other in s.store { LookUnmoved(s, t, other); }
    case _ =>
  }

  lemma {:induction false} StuckExec(s: State, actions: seq<Action>, id: OrderId)
    requires Inv(s) && Stuck(s, id) && NotLive(s, id)
    ensures Stuck(Exec(s, actions), id) && NotLive(Exec(s, actions), id)
    decreases |actions|
  {
    if actions != [] {
      var a := actions[0];
      StuckHands(s, a, id);
      StepSameEntry(s, a, id);
      NotLiveStep(s, a, id);
      InvStep(s, a);
      StuckExec(Step(s, a), actions[1..], id);
    }
  }

  // ---------- Others can print any price ----------

  lemma {:induction false} FreshNat(used: set<nat>) returns (n: nat)
    ensures forall x | x in used :: x < n
  {
    n := 0;
    var left := used;
    while left != {}
      invariant left <= used
      invariant forall x | x in used && x !in left :: x < n
      decreases left
    {
      var x :| x in left;
      left := left - {x};
      if n <= x { n := x + 1; }
    }
  }

  /** A free thread creates an unconditional order and submits it at once. */
  lemma {:induction false} Placed(s: State, t: nat, o: Order, r: Outcome) returns (s': State)
    requires Reachable(s) && t !in s.hands && t !in s.todo && o.id !in s.rows && !o.orderType.IsConditional()
    requires r == Submitted(s.BookOf(o.pair), o)
    ensures s' == Exec(s, [Create(t, o), Act(t)])
    ensures Reachable(s') && s'.rows == s.rows[o.id := o.pair] && s'.store == s.store && s'.hands == s.hands
    ensures s'.books == s.books[o.pair := r.book]
    ensures s'.todo == s.todo[t := FollowUp(Hand(o, false, None), r.trades)]
  {
    var s1 := Step(s, Create(t, o));
    ReachableStep(s, Create(t, o));
    s' := Step(s1, Act(t));
    ReachableStep(s1, Act(t));
    ExecTwo(s, Create(t, o), Act(t));
    assert FollowUp(Hand(o, false, None), r.trades) + [] == FollowUp(Hand(o, false, None), r.trades);
  }

  /** Price `x` is at `bound` or beyond it, as the stop of an order on side `side` sees it. */
  predicate Beyond(side: Side, x: real, bound: real) {
    if side.Buy? then x >= bound else x <= bound
  }

  /** An order with nothing special about it. */
  function Plain(id: OrderId, pair: string, side: Side, orderType: OrderType, price: real, quantity: real): Order {
    Order(id, "x", pair, side, orderType, price, quantity, 0.0, Open, None, None, None, None, "GTC")
  }

  /** The first tick at `bound` or beyond. */
  function TickBeyond(side: Side, bound: real): int {
    var t := (bound * TICKS_PER_UNIT).Floor;
    if side.Buy? then t + 1 else t
  }

  lemma {:induction false} TickIsBeyond(side: Side, bound: real, tick: int)
    requires !Better(side, TickBeyond(side, bound), tick)
    ensures Beyond(side, TicksToPrice(tick), bound)
  {
  }

  /** A price-checked taker trades at its limit or better. */
  lemma {:induction false} LimitPrints(taker: Order, es: seq<Entry>, i: nat)
    requires PriceChecked(taker) && i < |Greedy(taker, es).trades|
    ensures Beyond(Opposite(taker.side), Greedy(taker, es).trades[i].price, taker.price)
    decreases |es|
  {
    var q := FillQuantity(taker, es[0].order);
    if i > 0 { LimitPrints(Fill(taker, q), es[1..], i - 1); }
  }

  /** More than every order of a list has to offer. */
  function Plenty(es: seq<Entry>): (q: real)
    ensures q > 0.0
  {
    if es == [] then 1.0
    else (if Remaining(es[0].order) > 0.0 then Remaining(es[0].order) else 0.0) + Plenty(es[1..])
  }

  /** A market order for that much trades with every order, the last included. */
  lemma {:induction false} MarketPrints(taker: Order, es: seq<Entry>)
    requires !PriceChecked(taker) && Remaining(taker) >= Plenty(es) && es != []
    ensures var trades := Greedy(taker, es).trades;
            |trades| == |es| && trades[|es| - 1].price == TicksToPrice(es[|es| - 1].tick)
    decreases |es|
  {
    var q := FillQuantity(taker, es[0].order);
    assert Plenty(es[1..]) > 0.0 && q == Remaining(es[0].order);
    if |es| > 1 {
      MarketPrints(Fill(taker, q), es[1..]);
    } else {
      assert Greedy(Fill(taker, q), []).trades == [];
    }
  }

  lemma {:induction false} InsertHas(side: Side, es: seq<Entry>, e: Entry)
    ensures e in Insert(side, es, e)
  {
    if es != [] && !Better(side, e.tick, es[0].tick) { InsertHas(side, es[1..], e); }
  }

  /** A plain order is matched as it stands. */
  lemma {:induction false} PlainMatches(b: Book, o: Order)
    requires b.Valid() && (o.orderType.Limit? || o.orderType.Market?) && o.timeInForce == "GTC"
    ensures var r, m := Submitted(b, o), Greedy(o, Flat(b.Side(Opposite(o.side))));
            && r.trades == m.trades
            && (!Done(m.taker) && o.orderType.Limit? ==>
                  Entry(PriceToTicks(o.price), m.taker) in Flat(r.book.Side(o.side)))
  {
    var f, m := Flatten(b), Greedy(o, Flat(b.Side(Opposite(o.side))));
    SubmitRefinesFlat(b, o);
    assert Visible(o) == o && FlatSubmitted(f, o) == FlatMatched(f, o);
    BookRuns.GreedyKeepsTerms(o, Flat(b.Side(Opposite(o.side))));
    InsertHas(o.side, f.Side(o.side), Entry(PriceToTicks(o.price), m.taker));
  }

  /** A limit order prints at its limit or beyond, or rests there. */
  lemma {:induction false} LimitOutcome(b: Book, o: Order)
    requires b.Valid() && o.orderType.Limit? && o.timeInForce == "GTC" && o.filled == 0.0 && o.quantity > 0.0
    ensures var r := Submitted(b, o);
            if r.trades == [] then exists e :: e in Flat(r.book.Side(o.side)) && e.tick == PriceToTicks(o.price)
            else Beyond(Opposite(o.side), r.trades[|r.trades| - 1].price, o.price)
  {
    var es, trades := Flat(b.Side(Opposite(o.side))), Submitted(b, o).trades;
    PlainMatches(b, o);
    GreedyFillsTaker(o, es);
    BookRuns.GreedyKeepsTerms(o, es);
    if trades != [] { LimitPrints(o, es, |trades| - 1); }
  }

  /** A large market order prints at the worst live price. */
  lemma {:induction false} MarketOutcome(b: Book, o: Order, e: Entry)
    requires b.Valid() && e in Flat(b.Side(Opposite(o.side)))
    requires o.orderType.Market? && o.timeInForce == "GTC" && o.filled == 0.0
    requires o.quantity == Plenty(Flat(b.Side(Opposite(o.side))))
    ensures var trades := Submitted(b, o).trades;
            trades != [] && exists t: int :: trades[|trades| - 1].price == TicksToPrice(t) && !Better(o.side, e.tick, t)
  {
    var es := Flat(b.Side(Opposite(o.side)));
    PlainMatches(b, o);
    MarketPrints(o, es);
    FlatOrdered(Opposite(o.side), b.Side(Opposite(o.side)));
    var i :| 0 <= i < |es| && es[i] == e;
    var last := es[|es| - 1];
    assert !Better(o.side, e.tick, last.tick);
  }

  /** Thread `u` has nothing to do but to sweep for a print of `pair` at `bound` or beyond. */
  ghost predicate Sweeping(s: State, u: nat, pair: string, side: Side, bound: real) {
    && u !in s.hands && u in s.todo && |s.todo[u]| == 1 && s.todo[u][0].Collect?
    && s.todo[u][0].pair == pair && s.todo[u][0].hits == [] && Beyond(side, s.todo[u][0].price, bound)
  }

  /** Who places a plain order that trades then sweeps at its last price. */
  lemma {:induction false} PlacedSweeps(s: State, t: nat, o: Order, r: Outcome, side: Side, bound: real)
      returns (s': State)
    requires Reachable(s) && t !in s.hands && t !in s.todo && o.id !in s.rows && !o.orderType.IsConditional()
    requires r == Submitted(s.BookOf(o.pair), o) && o.ocoLink == None
    requires r.trades != [] && Beyond(side, r.trades[|r.trades| - 1].price, bound)
    ensures s' == Exec(s, [Create(t, o), Act(t)]) && Reachable(s') && s'.store == s.store
    ensures Sweeping(s', t, o.pair, side, bound)
  {
    s' := Placed(s, t, o, r);
    var op := Collect(o.pair, r.trades[|r.trades| - 1].price, []);
    assert FollowUp(Hand(o, false, None), r.trades) == [] + [op] == [op];
  }

  /** The limit order that one new thread places: it prints where wanted, or stands there as the target of another. */
  lemma {:induction false} LimitBeyond(b: Book, o: Order, side: Side, bound: real)
    requires b.Valid() && o.orderType.Limit? && o.timeInForce == "GTC" && o.filled == 0.0 && o.quantity > 0.0
    requires o.side == Opposite(side) && o.price == TicksToPrice(TickBeyond(side, bound))
    ensures var r := Submitted(b, o);
            && r.book.Valid()
            && if r.trades != [] then Beyond(side, r.trades[|r.trades| - 1].price, bound)
               else exists e :: e in Flat(r.book.Side(o.side)) && e.tick == TickBeyond(side, bound)
  {
    var tick := TickBeyond(side, bound);
    LimitOutcome(b, o);
    SubmittedValid(b, o);
    TicksRoundTrip(tick);
    TickIsBeyond(side, bound, tick);
  }

  /** A new thread takes the whole opposite side, which holds an entry far enough out, and then sweeps. */
  lemma {:induction false} MarketSweeps(s: State, u: nat, id: OrderId, pair: string, side: Side, bound: real, e: Entry)
      returns (mid: seq<Action>, s': State)
    requires Reachable(s) && u !in s.hands && u !in s.todo && id !in s.rows && s.BookOf(pair).Valid()
    requires e in Flat(s.BookOf(pair).Side(Opposite(side))) && e.tick == TickBeyond(side, bound)
    ensures (forall t | t != u :: ByOthers(t, mid)) && s' == Exec(s, mid)
    ensures Reachable(s') && s'.store == s.store && Sweeping(s', u, pair, side, bound)
  {
    var o := Plain(id, pair, side, Market, 0.0, Plenty(Flat(s.BookOf(pair).Side(Opposite(side)))));
    var r := MarketBeyond(s.BookOf(pair), o, e, side, bound);
    s' := PlacedSweeps(s, u, o, r, side, bound);
    mid := [Create(u, o), Act(u)];
  }

  /** The state after a new thread has placed a limit order to print at `bound`, which did not trade. */
  ghost predicate Target(s: State, s': State, u: nat, id: OrderId, pair: string, side: Side, bound: real) {
    && Reachable(s') && s'.store == s.store && s'.hands == s.hands
    && s'.todo.Keys == s.todo.Keys + {u} && s'.rows.Keys == s.rows.Keys + {id} && s'.BookOf(pair).Valid()
    && exists e :: e in Flat(s'.BookOf(pair).Side(Opposite(side))) && e.tick == TickBeyond(side, bound)
  }

  lemma {:induction false} PlacedTarget(s: State, s': State, u: nat, id: OrderId, pair: string, side: Side, bound: real,
                                       b: Book, ops: seq<Op>)
    requires Reachable(s') && s'.store == s.store && s'.hands == s.hands && s'.todo == s.todo[u := ops]
    requires s'.rows == s.rows[id := pair] && s'.books == s.books[pair := b] && b.Valid()
    requires exists e :: e in Flat(b.Side(Opposite(side))) && e.tick == TickBeyond(side, bound)
    ensures Target(s, s', u, id, pair, side, bound)
  {
    assert s'.BookOf(pair) == b;
  }

  lemma {:induction false} LimitSweeps(s: State, u: nat, id: OrderId, pair: string, side: Side, bound: real)
      returns (mid: seq<Action>, s': State)
    requires Reachable(s) && u !in s.hands && u !in s.todo && id !in s.rows
    ensures (forall t | t != u :: ByOthers(t, mid)) && s' == Exec(s, mid)
    ensures Target(s, s', u, id, pair, side, bound)
            || (Reachable(s') && s'.store == s.store && Sweeping(s', u, pair, side, bound))
  {
    var o := Plain(id, pair, Opposite(side), Limit, TicksToPrice(TickBeyond(side, bound)), 1.0);
    var r := Submitted(s.BookOf(pair), o);
    InvReachable(s);
    LimitBeyond(s.BookOf(pair), o, side, bound);
    mid := [Create(u, o), Act(u)];
    if r.trades != [] {
      s' := PlacedSweeps(s, u, o, r, side, bound);
    } else {
      s' := Placed(s, u, o, r);
      PlacedTarget(s, s', u, id, pair, side, bound, r.book, FollowUp(Hand(o, false, None), r.trades));
    }
  }

  lemma {:induction false} ByOthersAppend(t: nat, a: seq<Action>, b: seq<Action>)
    requires ByOthers(t, a) && ByOthers(t, b)
    ensures ByOthers(t, a + b)
  {
  }

  /**
   Two new threads can always bring about a print of a pair at a given price or beyond, and one of them then
   sweeps.
   */
  lemma {:induction false} OthersPrint(s: State, t: nat, pair: string, side: Side, bound: real)
      returns (mid: seq<Action>, u: nat, s': State)
    requires Reachable(s)
    ensures ByOthers(t, mid) && u != t && s' == Exec(s, mid) && Reachable(s')
    ensures s'.store == s.store && Sweeping(s', u, pair, side, bound)
  {
    u := FreshNat(s.hands.Keys + s.todo.Keys + {t});
    var id := FreshNat(s.rows.Keys);
    mid, s' := LimitSweeps(s, u, id, pair, side, bound);
    if Target(s, s', u, id, pair, side, bound) {
      var e :| e in Flat(s'.BookOf(pair).Side(Opposite(side))) && e.tick == TickBeyond(side, bound);
      var first := mid;
      u := u + 1;
      mid, s' := MarketSweeps(s', u, id + 1, pair, side, bound, e);
      ExecAppend(s, first, mid);
      ByOthersAppend(t, first, mid);
      mid := first + mid;
    }
  }

  lemma {:induction false} MarketBeyond(b: Book, o: Order, e: Entry, side: Side, bound: real) returns (r: Outcome)
    requires b.Valid() && e in Flat(b.Side(Opposite(o.side))) && e.tick == TickBeyond(side, bound) && o.side == side
    requires o.orderType.Market? && o.timeInForce == "GTC" && o.filled == 0.0
    requires o.quantity == Plenty(Flat(b.Side(Opposite(o.side))))
    ensures r == Submitted(b, o) && r.trades != [] && Beyond(side, r.trades[|r.trades| - 1].price, bound)
  {
    r := Submitted(b, o);
    MarketOutcome(b, o, e);
    var t: int :| r.trades[|r.trades| - 1].price == TicksToPrice(t) && !Better(o.side, e.tick, t);
    TickIsBeyond(side, bound, t);
  }

  // ---------- A stored order with a stop price can always get away ----------

  /** The price at which, and beyond which, a stored order with a stop price fires. */
  function FiringPrice(c: CondOrder): real
    requires c.order.stopPrice.Some?
  {
    if !c.order.orderType.TrailingStop? then c.order.stopPrice.value
    else
      var pct := (if c.order.trailingPct.Some? then c.order.trailingPct.value else 1.0) / 100.0;
      if c.order.side.Buy? then c.bestPrice * (1.0 + pct) else c.bestPrice * (1.0 - pct)
  }

  lemma {:induction false} FiresBeyond(c: CondOrder, x: real)
    requires c.order.stopPrice.Some? && c.order.orderType.IsConditional()
    ensures Fires(c, x) <==> Beyond(c.order.side, x, FiringPrice(c))
  {
  }

  /** A sweep that finds the stop of a stored order met notes it, and is then about to take it. */
  lemma {:induction false} Noted(s: State, u: nat, id: OrderId, price: real)
    requires id in s.store && u !in s.hands && u in s.todo && s.todo[u] == [Collect(s.store[id].order.pair, price, [])]
    requires Fires(s.store[id], price)
    ensures Exec(s, [Look(u, id), Act(u)]) == s.(todo := s.todo[u := [Take(id)]])
  {
    var op, s1 := s.todo[u][0], Step(s, Look(u, id));
    var noted := op.(hits := op.hits + [id]);
    assert op.hits + [id] == [id] && s.todo[u][1..] == [] && [noted] + [] == [noted];
    assert s1 == s.(todo := s.todo[u := [noted]]);
    var s2 := Step(s1, Act(u));
    assert Takes([id]) + [] == [Take(id)];
    assert s2.todo == s.todo[u := [Take(id)]];
    ExecTwo(s, Look(u, id), Act(u));
  }

  lemma {:induction false} Taken(s: State, u: nat, id: OrderId, price: real)
    requires id in s.store && s.store[id].order.id == id && u !in s.hands && u in s.todo
    requires s.todo[u] == [Collect(s.store[id].order.pair, price, [])] && Fires(s.store[id], price)
    ensures Held(Exec(s, [Look(u, id), Act(u)] + [Act(u)]), id)
  {
    Noted(s, u, id, price);
    var s1 := Exec(s, [Look(u, id), Act(u)]);
    ExecAppend(s, [Look(u, id), Act(u)], [Act(u)]);
    ExecOne(s1, Act(u));
    assert Step(s1, Act(u)).hands[u].order.id == id;
  }

  /** Other threads can take any stored order that has a stop price, whatever `t` leaves undone. */
  lemma {:induction false} OthersTake(s: State, t: nat, id: OrderId) returns (mid: seq<Action>)
    requires Reachable(s) && id in s.store && s.store[id].order.stopPrice.Some?
    ensures ByOthers(t, mid) && Held(Exec(s, mid), id)
  {
    InvReachable(s);
    var c := s.store[id];
    var printing, u, s1 := OthersPrint(s, t, c.order.pair, c.order.side, FiringPrice(c));
    var price, taking := s1.todo[u][0].price, [Look(u, id), Act(u)] + [Act(u)];
    FiresBeyond(c, price);
    assert s1.todo[u] == [Collect(c.order.pair, price, [])];
    Taken(s1, u, id, price);
    ByOthersAppend(t, printing, taking);
    mid := printing + taking;
    ExecAppend(s, printing, taking);
  }

  /**
   What is known before the request: it ends the order under every schedule exactly when no handler has the order in
   hand and it is not stored with a stop price.
   */
  lemma {:induction false} CancelAlwaysFinalIff(s: State, t: nat, id: OrderId)
    requires Cancelling(s, t, id)
    ensures (forall mid | ByOthers(t, mid) :: Gone(CancelDone(s, t, mid), id)) <==>
            !Held(s, id) && (id in s.store ==> s.store[id].order.stopPrice.None?)
  {
    InvReachable(s);
    BookStep(s, t, id);
    BookStepNotLive(s, t, id);
    var s' := Step(s, Act(t));
    InvReachable(s');
    assert Held(s', id) <==> Held(s, id);
    if Held(s, id) {
      assert ByOthers(t, []) && MidCancel(s, t, []) == s';
      CancelFinalIff(s, t, [], id);
    } else if id in s.store && s.store[id].order.stopPrice.Some? {
      var mid := OthersTake(s', t, id);
      CancelFinalIff(s, t, mid, id);
    } else {
      forall mid | ByOthers(t, mid) ensures Gone(CancelDone(s, t, mid), id) {
        StuckExec(s', mid, id);
        CancelFinalIff(s, t, mid, id);
      }
    }
  }

  // ---------- Two concrete races ----------

  /** A concrete race: the cancel runs between the row insert and the placement of the order it names. */
  lemma {:induction false} CancelRace(o: Order) returns (s: State)
    ensures Cancelling(s, 2, o.id) && Held(s, o.id)
    ensures !Gone(CancelDone(s, 2, []), o.id)
  {
    var actions := [Create(1, o), RequestCancel(2, o.id)];
    ExecTwo(INITIAL, actions[0], actions[1]);
    s := Exec(INITIAL, actions);
    assert s.hands[1].order.id == o.id;
    CancelFinalIff(s, 2, [], o.id);
    BookStep(s, 2, o.id);
    assert Step(s, Act(2)).hands[1].order.id == o.id;
  }

  const PAIR := "BTC_USDT"
  const STOP := Order(1, "a", PAIR, Buy, StopLimit, 9.0, 1.0, 0.0, Open, Some(10.0), None, None, None, "GTC")
  const ASK := Order(2, "b", PAIR, Sell, Limit, 10.0, 1.0, 0.0, Open, None, None, None, None, "GTC")
  const BID := Order(3, "c", PAIR, Buy, Limit, 10.0, 1.0, 0.0, Open, None, None, None, None, "GTC")

  const ASKED := Book([], [Level(10000000, [ASK])], None)
  const TRADED := Book([], [], Some(10.0))

  lemma {:induction false} AskRests()
    ensures Submitted(EMPTY_BOOK, ASK) == Outcome(ASKED, [])
    ensures FollowUp(Hand(ASK, false, None), []) == []
  {
    TicksRoundTrip(10000000);
    assert TicksToPrice(10000000) == 10.0;
  }

  lemma {:induction false} BidTakes() returns (r: Outcome)
    ensures r == Submitted(ASKED, BID) && r.book == TRADED
    ensures FollowUp(Hand(BID, false, None), r.trades) == [Collect(PAIR, 10.0, [])]
  {
    var trade := TradeOf(BID, ASK, 10000000, 1.0);
    assert Sweep(BID, ASKED.asks) == LevelMatch([trade], Fill(BID, 1.0), []) by {
      assert FillQuantity(BID, ASK) == 1.0 && Done(Fill(ASK, 1.0)) && PopFront(ASKED.asks) == [];
      assert Sweep(Fill(BID, 1.0), []) == LevelMatch([], Fill(BID, 1.0), []);
      assert !Outside(Buy, 10.0, 10000000);
    }
    assert Visible(BID) == BID;
    r := Submitted(ASKED, BID);
    assert r == Matched(ASKED, BID);
    assert r.trades == [trade] && trade.price == 10.0;
    assert FollowUp(Hand(BID, false, None), r.trades) == [] + [Collect(PAIR, 10.0, [])];
  }

  lemma {:induction false} StopRests()
    ensures Live(Submitted(TRADED, Fired(STOP)).book, 1)
  {
    var e := Entry(PriceToTicks(9.0), Fired(STOP));
    SubmitRefinesFlat(TRADED, Fired(STOP));
    assert Flatten(TRADED) == FlatBook([], [], Some(10.0));
    assert e in Insert(Buy, [], e);
  }

  /** Thread 1 has stored the stop order. */
  lemma {:induction false} RaceStored() returns (s: State)
    ensures Reachable(s) && s.store.Keys == {1} && s.store[1].order == STOP
    ensures s.rows == map[1 := PAIR] && s.books == map[] && s.hands == map[] && s.todo == map[1 := []] && s.subs == []
  {
    assert INITIAL == Exec(INITIAL, []);
    var s1 := Step(INITIAL, Create(1, STOP));
    ReachableStep(INITIAL, Create(1, STOP));
    var s2 := Step(s1, Act(1));
    ReachableStep(s1, Act(1));
    s := Step(s2, Act(1));
    ReachableStep(s2, Act(1));
  }

  /** Thread 4 has put an ask in the book. */
  lemma {:induction false} RaceAsked() returns (s: State)
    ensures Reachable(s) && 1 in s.store && s.store[1].order == STOP && 1 in s.rows && s.rows[1] == PAIR
    ensures s.books == map[PAIR := ASKED] && s.hands == map[] && 3 !in s.rows && 2 !in s.todo && 3 !in s.todo
  {
    var s0 := RaceStored();
    AskRests();
    s := Placed(s0, 4, ASK, Outcome(ASKED, []));
  }

  /** A free thread places an order in the only book there is. */
  lemma {:induction false} PlacedInOnly(s: State, t: nat, o: Order, b: Book, r: Outcome) returns (s': State)
    requires Reachable(s) && t !in s.hands && t !in s.todo && o.id !in s.rows && !o.orderType.IsConditional()
    requires s.books == map[o.pair := b] && r == Submitted(b, o)
    ensures Reachable(s') && s'.store == s.store && s'.hands == s.hands && s'.books == map[o.pair := r.book]
    ensures s.rows.Keys <= s'.rows.Keys && forall id | id in s.rows :: s'.rows[id] == s.rows[id]
    ensures s'.todo == s.todo[t := FollowUp(Hand(o, false, None), r.trades)]
  {
    s' := Placed(s, t, o, r);
  }

  /** Thread 3 has taken it with a bid at 10. */
  lemma {:induction false} RaceTraded() returns (s: State)
    ensures Reachable(s) && 1 in s.store && s.store[1].order == STOP && 1 in s.rows && s.rows[1] == PAIR
    ensures s.books == map[PAIR := TRADED] && s.hands == map[]
    ensures 2 !in s.todo && 3 in s.todo && s.todo[3] == [Collect(PAIR, 10.0, [])]
  {
    var s0 := RaceAsked();
    var taken := BidTakes();
    s := PlacedInOnly(s0, 3, BID, ASKED, taken);
  }

  /**
   The race, from the start: a stop order is stored, a trade at 10 meets its stop, and the sweep has noted it when the
   cancel request arrives. The sweep takes and submits it between the request's two steps. The request is through, no
   handler had the order in hand when it arrived, and the order is live.
   */
  lemma {:induction false} StoredCancelRace() returns (s: State, mid: seq<Action>)
    ensures Cancelling(s, 2, 1) && 1 in s.store && !Held(s, 1) && ByOthers(2, mid)
    ensures var end := CancelDone(s, 2, mid);
            SubmittedId(end, 1) && Live(end.BookOf(PAIR), 1) && !Gone(end, 1)
  {
    var s0 := RaceTraded();
    var look := [Look(3, 1), Act(3)];
    assert Fires(s0.store[1], 10.0);
    Noted(s0, 3, 1, 10.0);
    var s1 := Exec(s0, look);
    ReachableExtends(s0, look);
    s := Step(s1, RequestCancel(2, 1));
    ReachableStep(s1, RequestCancel(2, 1));
    mid := [Act(3), Act(3)];
    RaceEnds(s);
    CancelFinalIff(s, 2, mid, 1);
  }

  lemma {:induction false} RaceEnds(s: State)
    requires Cancelling(s, 2, 1) && s.TodoOf(3) == [Take(1)] && 1 in s.store && s.store[1].order == STOP
    requires s.hands == map[] && s.books == map[PAIR := TRADED] && s.rows[1] == PAIR
    ensures var m, end := MidCancel(s, 2, [Act(3), Act(3)]), CancelDone(s, 2, [Act(3), Act(3)]);
            && SubmittedId(end, 1) && Live(end.BookOf(PAIR), 1) && PAIR in m.books && Live(m.books[PAIR], 1)
  {
    BookStep(s, 2, 1);
    var s1 := Step(s, Act(2));
    assert AfterCancel(TRADED, 1).book == TRADED;
    assert s1.books == map[PAIR := TRADED] && s1.TodoOf(3) == [Take(1)];
    ExecTwo(s1, Act(3), Act(3));
    var s2 := Step(s1, Act(3));
    assert s2.hands[3] == Hand(STOP, true, None) && s2.books == s1.books;
    var m := Step(s2, Act(3));
    StopRests();
    assert m.subs[|s2.subs|].order.id == 1;
    assert m.books[PAIR] == Submitted(TRADED, Fired(STOP)).book;
    OthersKeepAll(s1, [Act(3), Act(3)], 2);
    var end := Step(m, Act(2));
    assert end.books == m.books && end.subs == m.subs;
  }
}
