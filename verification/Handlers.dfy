/**
 What a handler does around a submission, over the states of the machine: it cancels the linked leg and sweeps when its
 order traded, fires stop orders as plain ones, and reads the opposite price for a new one. And what is lost when it
 crashes, or when the lookup before a cancel fails.
 */
module Handlers {
  import opened Prelude
  import opened Ticks
  import opened Orders
  import opened Ladder
  import opened Matching
  import opened Books
  import BookRuns
  import opened Triggers
  import opened CancelFinality
  import opened CancelSchedules

  // ---------- Work lists have a shape ----------

  function Rank(op: Op): nat {
    match op
    case CancelInBook(_) => 0
    case DropStored(_) => 1
    case Collect(_, _, _) => 2
    case Take(_) => 3
  }

  /** At most one cancel in a book, one in the store and one look through the store, in that order, and then takes. */
  ghost predicate Shaped(ops: seq<Op>) {
    forall i, j | 0 <= i < j < |ops| :: Rank(ops[i]) < Rank(ops[j]) || (ops[i].Take? && ops[j].Take?)
  }

  ghost predicate OnlyTakes(ops: seq<Op>) {
    forall i | 0 <= i < |ops| :: ops[i].Take?
  }

  /**
   Work lists have that shape; a thread with an order in hand has only takes left, and none if it created the
   order.
   */
  ghost predicate WorkOk(s: State) {
    && (forall t | t in s.todo :: Shaped(s.todo[t]))
    && (forall t | t in s.hands :: t in s.todo && OnlyTakes(s.todo[t]) && (!s.hands[t].triggered ==> s.todo[t] == []))
  }

  lemma {:induction false} FollowUpShaped(h: Hand, trades: seq<Trade>, rest: seq<Op>)
    requires OnlyTakes(rest)
    ensures Shaped(FollowUp(h, trades) + rest)
  {
  }

  lemma {:induction false} TakesShaped(ops: seq<Op>, hits: seq<OrderId>)
    requires Shaped(ops) && ops != [] && (ops[0].Collect? || ops[0].Take?)
    ensures Shaped(Takes(hits) + ops[1..])
    ensures OnlyTakes(ops[1..])
  {
    forall i | 0 <= i < |ops[1..]| ensures ops[1..][i].Take? {
      assert Rank(ops[0]) < Rank(ops[i + 1]) || ops[i + 1].Take?;
    }
  }

  /** Only thread `t`'s hand and list change, and they end in order. */
  lemma {:induction false} WorkKeeps(s: State, s': State, t: nat)
    requires WorkOk(s)
    requires forall u | u != t :: SameWork(s, s', u)
    requires t in s'.todo ==> Shaped(s'.todo[t])
    requires t in s'.hands ==> t in s'.todo && OnlyTakes(s'.todo[t]) && (!s'.hands[t].triggered ==> s'.todo[t] == [])
    ensures WorkOk(s')
  {
    forall u | u in s'.todo ensures Shaped(s'.todo[u]) {
      if u != t { assert SameWork(s, s', u); }
    }
    forall u | u in s'.hands
      ensures u in s'.todo && OnlyTakes(s'.todo[u]) && (!s'.hands[u].triggered ==> s'.todo[u] == [])
    {
      if u != t { assert SameWork(s, s', u); }
    }
  }

  lemma {:induction false} WorkHand(s: State, t: nat)
    requires WorkOk(s) && t in s.hands
    ensures WorkOk(ActHand(s, t))
  {
    var s', h := ActHand(s, t), s.hands[t];
    forall u | u != t ensures SameWork(s, s', u) {
      OthersActHand(s, t, u);
    }
    if !h.ForStore() {
      var o := h.order;
      var trades := Submitted(s.BookOf(o.pair), if h.triggered then Fired(o) else o).trades;
      FollowUpShaped(h, trades, s.todo[t]);
    }
    WorkKeeps(s, s', t);
  }

  lemma {:induction false} ShapedTail(ops: seq<Op>)
    requires Shaped(ops) && ops != []
    ensures Shaped(ops[1..])
  {
  }

  lemma {:induction false} WorkOp(s: State, t: nat)
    requires WorkOk(s) && t !in s.hands && s.TodoOf(t) != []
    ensures WorkOk(ActOp(s, t))
  {
    var s', ops := ActOp(s, t), s.TodoOf(t);
    forall u | u != t ensures SameWork(s, s', u) {
      OthersActOp(s, t, u);
    }
    ShapedTail(ops);
    match ops[0]
    case Collect(_, _, hits) =>
      TakesShaped(ops, hits);
      WorkKeeps(s, s', t);
    case Take(id) =>
      TakesShaped(ops, []);
      WorkKeeps(s, s', t);
    case _ =>
      WorkKeeps(s, s', t);
  }

  lemma {:induction false} WorkLook(s: State, t: nat, id: OrderId)
    requires WorkOk(s) && t !in s.hands && s.TodoOf(t) != [] && s.TodoOf(t)[0].Collect? && id in s.store
    ensures WorkOk(LookAt(s, t, id))
  {
    var s', ops := LookAt(s, t, id), s.TodoOf(t);
    forall u | u != t ensures SameWork(s, s', u) {
    }
    assert s'.TodoOf(t)[1..] == ops[1..] && Rank(s'.TodoOf(t)[0]) == Rank(ops[0]);
    WorkKeeps(s, s', t);
  }

  lemma {:induction false} WorkStep(s: State, a: Action)
    requires WorkOk(s)
    ensures WorkOk(Step(s, a))
  {
    match a
    case Act(t) =>
      if t in s.hands { WorkHand(s, t); } else if s.TodoOf(t) != [] { WorkOp(s, t); }
    case Look(t, id) =>
      if t !in s.hands && s.TodoOf(t) != [] && s.TodoOf(t)[0].Collect? && id in s.store { WorkLook(s, t, id); }
    case _ =>
      WorkOther(s, a);
  }

  lemma {:induction false} WorkOther(s: State, a: Action)
    requires WorkOk(s) && !a.Act? && !a.Look?
    ensures WorkOk(Step(s, a))
  {
    var s' := Step(s, a);
    forall u | u != a.thread ensures SameWork(s, s', u) {
      OthersKeep(s, a, u);
    }
    if s.TodoOf(a.thread) != [] { ShapedTail(s.TodoOf(a.thread)); }
    WorkKeeps(s, s', a.thread);
  }

  lemma {:induction false} WorkExec(s: State, actions: seq<Action>)
    requires WorkOk(s)
    ensures WorkOk(Exec(s, actions))
    decreases |actions|
  {
    if actions != [] {
      WorkStep(s, actions[0]);
      WorkExec(Step(s, actions[0]), actions[1..]);
    }
  }

  lemma {:induction false} WorkReachable(s: State)
    requires Reachable(s)
    ensures WorkOk(s)
  {
    var actions :| s == Exec(INITIAL, actions);
    WorkExec(INITIAL, actions);
  }

  // ---------- After a submission ----------

  /** Thread `t` is about to submit an order to a book: one it created, or a stop order it fires. */
  ghost predicate Submitting(s: State, t: nat) {
    && Reachable(s) && t in s.hands
    && var h := s.hands[t];
       h.triggered
       || !(h.order.orderType.StopLimit? || h.order.orderType.StopMarket? || h.order.orderType.TrailingStop?)
  }

  lemma {:induction false} SubmissionTape(s: State, t: nat) returns (trades: seq<Trade>)
    requires Submitting(s, t)
    ensures var h, s' := s.hands[t], Step(s, Act(t));
            && t !in s'.hands && |s'.tape| == |s.tape| + |trades|
            && (trades != [] ==> s'.tape[|s'.tape| - 1].price == trades[|trades| - 1].price)
            && s'.TodoOf(t) == FollowUp(h, trades) + s.TodoOf(t)
  {
    var h, s' := s.hands[t], Step(s, Act(t));
    trades := Submitted(s.BookOf(h.order.pair), if h.triggered then Fired(h.order) else h.order).trades;
    var prints := Prints(h.order.pair, trades);
    assert s' == ActHand(s, t) && s'.tape == s.tape + prints;
    if trades != [] { assert s'.tape[|s'.tape| - 1] == prints[|prints| - 1]; }
  }

  /** What the thread then has to do: with a trade, its linked leg's removal and, for a new order, a sweep. */
  lemma {:induction false} SubmissionWork(s: State, t: nat)
    requires Submitting(s, t)
    ensures var h, s' := s.hands[t], Step(s, Act(t));
            && t !in s'.hands && |s.tape| <= |s'.tape|
            && (|s'.tape| == |s.tape| ==> s'.TodoOf(t) == s.TodoOf(t))
            && (|s'.tape| > |s.tape| ==>
                  s'.TodoOf(t) ==
                    (match h.order.ocoLink case None => [] case Some(leg) => [CancelInBook(leg), DropStored(leg)])
                    + (if h.triggered then [] else [Collect(h.order.pair, s'.tape[|s'.tape| - 1].price, [])])
                    + s.TodoOf(t))
  {
    var trades := SubmissionTape(s, t);
    if trades == [] { assert [] + s.TodoOf(t) == s.TodoOf(t); }
  }

  /**
   An order that trades takes its linked leg out: the thread's next step leaves the leg live in no book, and the one
   after leaves it out of the store, whatever other threads do before each. A created order and a fired one alike.
   */
  lemma {:induction false} TradeCancelsLinkedLeg(s: State, t: nat, leg: OrderId, mid: seq<Action>, later: seq<Action>)
    requires Submitting(s, t) && s.hands[t].order.ocoLink == Some(leg)
    requires |Step(s, Act(t)).tape| > |s.tape| && ByOthers(t, mid) && ByOthers(t, later)
    ensures var inBook := Step(Exec(Step(s, Act(t)), mid), Act(t));
            && NotLive(inBook, leg)
            && leg !in Step(Exec(inBook, later), Act(t)).store
  {
    var s1 := Step(s, Act(t));
    SubmissionWork(s, t);
    ReachableStep(s, Act(t));
    UnlinkRuns(s1, t, leg, mid, later);
  }

  lemma {:induction false} UnlinkRuns(s: State, t: nat, leg: OrderId, mid: seq<Action>, later: seq<Action>)
    requires Reachable(s) && t !in s.hands && |s.TodoOf(t)| >= 2
    requires s.TodoOf(t)[0] == CancelInBook(leg) && s.TodoOf(t)[1] == DropStored(leg)
    requires ByOthers(t, mid) && ByOthers(t, later)
    ensures var inBook := Step(Exec(s, mid), Act(t));
            && NotLive(inBook, leg)
            && leg !in Step(Exec(inBook, later), Act(t)).store
  {
    var m := Exec(s, mid);
    ReachableExtends(s, mid);
    OthersKeepAll(s, mid, t);
    BookStepNotLive(m, t, leg);
    var s2 := Step(m, Act(t));
    assert s2.hands == m.hands && s2.TodoOf(t) == m.TodoOf(t)[1..];
    OthersKeepAll(s2, later, t);
  }

  /**
   An order that does not trade cancels nothing: its thread goes on to the stop orders it had left to take, if
   any.
   */
  lemma {:induction false} NoTradeCancelsNothing(s: State, t: nat)
    requires Submitting(s, t) && |Step(s, Act(t)).tape| == |s.tape|
    ensures Step(s, Act(t)).TodoOf(t) == s.TodoOf(t)
    ensures forall op | op in s.TodoOf(t) :: op.Take?
  {
    SubmissionWork(s, t);
    WorkReachable(s);
  }

  /** A new order that trades then sweeps the stop orders of its pair at its last price; a fired one does not. */
  lemma {:induction false} TradeSweeps(s: State, t: nat)
    requires Submitting(s, t) && |Step(s, Act(t)).tape| > |s.tape|
    ensures var s' := Step(s, Act(t));
            var ops, price := s'.TodoOf(t), s'.tape[|s'.tape| - 1].price;
            if s.hands[t].triggered then forall op | op in ops :: !op.Collect?
            else ops != [] && ops[|ops| - 1] == Collect(s.hands[t].order.pair, price, [])
  {
    SubmissionWork(s, t);
    WorkReachable(s);
  }

  // ---------- What fired orders become ----------

  lemma {:induction false} BookValid(s: State, pair: string)
    requires Reachable(s)
    ensures s.BookOf(pair).Valid()
  {
    InvReachable(s);
  }

  /** A fired order prints as many trades as its submission makes, and leaves the book of that submission. */
  lemma {:induction false} FiredMatch(s: State, t: nat)
    requires Submitting(s, t) && s.hands[t].triggered
    ensures var o := s.hands[t].order;
            var s', r := Step(s, Act(t)), Submitted(s.BookOf(o.pair), Fired(o));
            s'.BookOf(o.pair) == r.book && |s'.tape| == |s.tape| + |r.trades|
  {
  }

  /** The fired order trades as in the greedy match, or not at all. */
  lemma {:induction false} FiredTrades(b: Book, o: Order)
    requires b.Valid() && (o.orderType.Limit? || o.orderType.Market?)
    ensures var r, es := Submitted(b, o), Flat(b.Side(Opposite(o.side)));
            r.trades == [] || r.trades == Greedy(o, es).trades
  {
    SubmitRefinesFlat(b, o);
    assert Visible(o) == o;
  }

  /** Price `x` is within limit price `price` of an order on side `side`. */
  predicate WithinLimit(side: Side, x: real, price: real) {
    if side.Buy? then x <= price else x >= price
  }

  lemma {:induction false} LimitOrderPrints(b: Book, o: Order, k: nat)
    requires b.Valid() && o.orderType.Limit? && k < |Submitted(b, o).trades|
    ensures WithinLimit(o.side, Submitted(b, o).trades[k].price, o.price)
  {
    FiredTrades(b, o);
    LimitPrints(o, Flat(b.Side(Opposite(o.side))), k);
  }

  /** A new print of a fired stop-limit order is a trade of a limit order at its price. */
  lemma {:induction false} FiredPrint(s: State, t: nat, i: nat) returns (b: Book, o: Order, k: nat)
    requires Submitting(s, t) && s.hands[t].triggered && s.hands[t].order.orderType.StopLimit?
    requires |s.tape| <= i < |Step(s, Act(t)).tape|
    ensures b.Valid() && o.orderType.Limit? && k < |Submitted(b, o).trades|
    ensures o.pair == s.hands[t].order.pair && o.side == s.hands[t].order.side && o.price == s.hands[t].order.price
    ensures Step(s, Act(t)).tape[i] == Print(o.pair, Submitted(b, o).trades[k].price)
  {
    BookValid(s, s.hands[t].order.pair);
    o := Fired(s.hands[t].order);
    b, k := s.BookOf(o.pair), i - |s.tape|;
    var prints := Prints(o.pair, Submitted(b, o).trades);
    assert Step(s, Act(t)).tape == s.tape + prints;
    assert (s.tape + prints)[i] == prints[k];
  }

  lemma {:induction false} FiredStopLimitPrints(s: State, t: nat, i: nat)
    requires Submitting(s, t) && s.hands[t].triggered && s.hands[t].order.orderType.StopLimit?
    requires |s.tape| <= i < |Step(s, Act(t)).tape|
    ensures var o, printed := s.hands[t].order, Step(s, Act(t)).tape[i];
            printed.pair == o.pair && WithinLimit(o.side, printed.price, o.price)
  {
    var b, fired, k := FiredPrint(s, t, i);
    LimitOrderPrints(b, fired, k);
  }

  lemma {:induction false} UntradedLimitRests(b: Book, o: Order)
    requires b.Valid() && o.orderType.Limit? && o.timeInForce == "GTC" && o.filled < o.quantity
    requires Submitted(b, o).trades == []
    ensures Entry(PriceToTicks(o.price), o) in Flat(Submitted(b, o).book.Side(o.side))
  {
    PlainMatches(b, o);
    NoTradeKeepsTaker(o, Flat(b.Side(Opposite(o.side))));
  }

  /**
   A fired stop-limit order is a limit order: no print of it is beyond its limit, and if it prints nothing it
   rests.
   */
  lemma {:induction false} FiredStopLimit(s: State, t: nat)
    requires Submitting(s, t) && s.hands[t].triggered && s.hands[t].order.orderType.StopLimit?
    ensures var o, s' := s.hands[t].order, Step(s, Act(t));
            && (forall i | |s.tape| <= i < |s'.tape| ::
                  s'.tape[i].pair == o.pair && WithinLimit(o.side, s'.tape[i].price, o.price))
            && (|s'.tape| == |s.tape| && o.timeInForce == "GTC" && o.filled < o.quantity ==>
                  Entry(PriceToTicks(o.price), o.(orderType := Limit, status := Open))
                    in Flat(if o.side.Buy? then s'.BookOf(o.pair).bids else s'.BookOf(o.pair).asks))
  {
    var o, s' := s.hands[t].order, Step(s, Act(t));
    forall i | |s.tape| <= i < |s'.tape|
      ensures s'.tape[i].pair == o.pair && WithinLimit(o.side, s'.tape[i].price, o.price)
    {
      FiredStopLimitPrints(s, t, i);
    }
    if |s'.tape| == |s.tape| && o.timeInForce == "GTC" && o.filled < o.quantity {
      BookValid(s, o.pair);
      FiredMatch(s, t);
      UntradedLimitRests(s.BookOf(o.pair), o.(orderType := Limit, status := Open));
    }
  }

  lemma {:induction false} NoTradeKeepsTaker(taker: Order, es: seq<Entry>)
    requires Greedy(taker, es).trades == []
    ensures Greedy(taker, es).taker == taker
  {
  }

  /**
   Fired stop-market and trailing orders are market orders: nothing of them rests, and unless they are fill-or-kill they
   trade, at whatever price, when there is anything to trade with.
   */
  lemma {:induction false} FiredMarket(s: State, t: nat)
    requires Submitting(s, t) && s.hands[t].triggered && !s.hands[t].order.orderType.StopLimit?
    ensures var o, s' := s.hands[t].order, Step(s, Act(t));
            var b, b' := s.BookOf(o.pair), s'.BookOf(o.pair);
            && (if o.side.Buy? then b'.bids == b.bids else b'.asks == b.asks)
            && (o.timeInForce != "FOK" && o.filled < o.quantity ==>
                  Flat(if o.side.Buy? then b.asks else b.bids) == [] || |s'.tape| > |s.tape|)
  {
    var o := s.hands[t].order;
    var b, fired := s.BookOf(o.pair), o.(orderType := Market, status := Open);
    InvReachable(s);
    FiredMatch(s, t);
    MarketNeverRests(b, fired);
  }

  lemma {:induction false} MarketNeverRests(b: Book, o: Order)
    requires b.Valid() && o.orderType.Market?
    ensures var r := Submitted(b, o);
            && r.book.Side(o.side) == b.Side(o.side)
            && (o.timeInForce != "FOK" && o.filled < o.quantity ==>
                  Flat(b.Side(Opposite(o.side))) == [] || r.trades != [])
  {
    SubmitRefinesFlat(b, o);
    assert Visible(o) == o;
  }

  // ---------- A new stop order ----------

  /**
   A new stop order is stored with the price read for it, whatever others do in between: the price of the front opposite
   level, which no live order there betters, or its own price when there is no level.
   */
  lemma {:induction false} StoredWithBest(s: State, t: nat, mid: seq<Action>)
    requires Reachable(s) && t in s.hands && !s.hands[t].triggered && s.hands[t].best == None && ByOthers(t, mid)
    requires var o := s.hands[t].order;
             o.orderType.StopLimit? || o.orderType.StopMarket? || o.orderType.TrailingStop?
    ensures var o, s' := s.hands[t].order, Step(Exec(Step(s, Act(t)), mid), Act(t));
            var ls := if o.side.Buy? then s.BookOf(o.pair).asks else s.BookOf(o.pair).bids;
            && o.id in s'.store && s'.store[o.id].order == o
            && var best := s'.store[o.id].bestPrice;
               if ls == [] then best == o.price
               else best == ls[0].tick as real / 1000000.0
                    && forall e | e in Flat(ls) ::
                         if o.side.Buy? then best <= e.tick as real / 1000000.0 else best >= e.tick as real / 1000000.0
  {
    var o, s1 := s.hands[t].order, Step(s, Act(t));
    var b := s.BookOf(o.pair);
    InvReachable(s);
    assert s1.hands[t] == s.hands[t].(best := Some(BestOpposite(b, o)));
    OthersKeepAll(s1, mid, t);
    var ls := b.Side(Opposite(o.side));
    if ls != [] { FlatWorse(Opposite(o.side), ls); }
  }

  /**
   A sweep for `op` notes entry `c`: it is of the swept pair, has a stop price and is at its firing price or
   beyond.
   */
  predicate Notes(op: Op, c: CondOrder)
    requires op.Collect?
  {
    c.order.pair == op.pair && c.order.stopPrice.Some? && Beyond(c.order.side, op.price, FiringPrice(c))
  }

  /** It does not note it, but it is a trailing stop of the pair, and another entry has been noted. */
  predicate Tightens(op: Op, c: CondOrder)
    requires op.Collect?
  {
    && !Notes(op, c) && op.hits != []
    && c.order.pair == op.pair && c.order.stopPrice.Some? && c.order.orderType.TrailingStop?
  }

  /** The better of two best prices: the lower for a buy, the higher for a sell. */
  function Tighter(side: Side, x: real, y: real): real {
    if side.Buy? then (if x < y then x else y) else if x > y then x else y
  }

  lemma {:induction false} FiresWhenNoted(s: State, id: OrderId, op: Op)
    requires StopsOk(s) && id in s.store && op.Collect?
    ensures Notes(op, s.store[id]) <==>
            s.store[id].order.pair == op.pair && s.store[id].order.stopPrice.Some? && Fires(s.store[id], op.price)
  {
    if s.store[id].order.stopPrice.Some? { FiresBeyond(s.store[id], op.price); }
  }

  /** A sweep looking at an entry notes it or leaves its notes as they are. */
  lemma {:induction false} LookNotes(s: State, t: nat, id: OrderId)
    requires Reachable(s) && t !in s.hands && s.TodoOf(t) != [] && s.TodoOf(t)[0].Collect? && id in s.store
    ensures var op := s.TodoOf(t)[0];
            Step(s, Look(t, id)).TodoOf(t) ==
              [op.(hits := if Notes(op, s.store[id]) then op.hits + [id] else op.hits)] + s.TodoOf(t)[1..]
  {
    var op := s.TodoOf(t)[0];
    InvReachable(s);
    FiresWhenNoted(s, id, op);
    assert op.(hits := op.hits) == op && [op] + s.TodoOf(t)[1..] == s.TodoOf(t);
  }

  /** A trailing stop it does not note tightens the best price of the last entry noted. No other best price changes. */
  lemma {:induction false} LookTightens(s: State, t: nat, id: OrderId)
    requires Reachable(s) && t !in s.hands && s.TodoOf(t) != [] && s.TodoOf(t)[0].Collect? && id in s.store
    ensures var op, s' := s.TodoOf(t)[0], Step(s, Look(t, id));
            && s'.store.Keys == s.store.Keys
            && forall x | x in s.store ::
                 var l := s.store[x];
                 s'.store[x] == if Tightens(op, s.store[id]) && x == op.hits[|op.hits| - 1]
                                then CondOrder(l.order, Tighter(l.order.side, op.price, l.bestPrice)) else l
  {
    InvReachable(s);
    FiresWhenNoted(s, id, s.TodoOf(t)[0]);
  }

  /** A sweep that has looked enough takes what it noted, in the order noted, before whatever else was left. */
  lemma {:induction false} SweepTakesNoted(s: State, t: nat, i: nat)
    requires t !in s.hands && s.TodoOf(t) != [] && s.TodoOf(t)[0].Collect?
    requires i < |Step(s, Act(t)).TodoOf(t)|
    ensures var hits, rest, ops := s.TodoOf(t)[0].hits, s.TodoOf(t)[1..], Step(s, Act(t)).TodoOf(t);
            |ops| == |hits| + |rest| && ops[i] == if i < |hits| then Take(hits[i]) else rest[i - |hits|]
  {
    assert Step(s, Act(t)) == ActOp(s, t);
  }

  // ---------- What is lost ----------

  /** A crash of the thread that has an order in hand ends that order for good, although its row is there. */
  lemma {:induction false} CrashLosesOrder(s: State, t: nat)
    requires Reachable(s) && t in s.hands
    ensures var id := s.hands[t].order.id;
            id in Step(s, Crash(t)).rows && Gone(Step(s, Crash(t)), id)
  {
    var id, s' := s.hands[t].order.id, Step(s, Crash(t));
    InvReachable(s);
    InvStep(s, Crash(t));
    assert Held(s, id);
    assert s'.hands == s.hands - {t} && s'.store == s.store && s'.books == s.books;
    forall u | u in s'.hands ensures s'.hands[u].order.id != id {
    }
    assert forall p | p in s.books && Live(s.books[p], id) :: SubmittedId(s, id);
    GoneIff(s', id);
  }

  /** When the lookup before it fails, a leg is dropped from the store but stays live in its book. */
  lemma {:induction false} FailedLookupKeepsLeg(s: State, t: nat, leg: OrderId, pair: string)
    requires Reachable(s) && t !in s.hands && |s.TodoOf(t)| >= 2
    requires s.TodoOf(t)[0] == CancelInBook(leg) && s.TodoOf(t)[1] == DropStored(leg)
    requires pair in s.books && Live(s.books[pair], leg)
    ensures var s' := Step(Step(s, LookupFails(t)), Act(t));
            leg !in s'.store && pair in s'.books && Live(s'.books[pair], leg)
  {
    var s1 := Step(s, LookupFails(t));
    assert s1.TodoOf(t) == s.TodoOf(t)[1..] && s1.books == s.books;
    assert Step(s1, Act(t)).books == s.books;
  }
}
