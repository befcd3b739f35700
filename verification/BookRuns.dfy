/**
 Whole runs of submissions and cancellations on one book that starts empty.
 A command's position in the run is the arrival time of its order.
 */
module BookRuns {
  import opened Ticks
  import opened Orders
  import opened Ladder
  import opened Matching
  import opened Books

  datatype Command = Submit(order: Order) | Cancel(id: OrderId)

  function Step(b: Book, c: Command): Outcome {
    match c
    case Submit(o) => Submitted(b, o)
    case Cancel(id) => Outcome(AfterCancel(b, id).book, [])
  }

  lemma {:induction false} StepValid(b: Book, c: Command)
    requires b.Valid()
    ensures Step(b, c).book.Valid()
  {
    match c
    case Submit(o) => SubmittedValid(b, o);
    case Cancel(id) => CancelledValid(b, id);
  }

  function Run(cmds: seq<Command>): (r: Outcome)
    ensures r.book.Valid()
  {
    if cmds == [] then Outcome(EMPTY_BOOK, [])
    else
      var before := Run(cmds[..|cmds| - 1]);
      var c := cmds[|cmds| - 1];
      StepValid(before.book, c);
      var now := Step(before.book, c);
      Outcome(now.book, before.trades + now.trades)
  }

  lemma {:induction false} RunSnoc(cmds: seq<Command>, c: Command)
    ensures var before, now := Run(cmds), Run(cmds + [c]);
            var s := Step(before.book, c);
            now == Outcome(s.book, before.trades + s.trades)
  {
  }

  // ---------- Arrival ----------

  /** When order `id` was first submitted; the length of the run if it never was. */
  function Arrival(cmds: seq<Command>, id: OrderId): (k: nat)
    ensures k <= |cmds|
    ensures k < |cmds| ==> cmds[k].Submit? && cmds[k].order.id == id
    ensures k == |cmds| ==> forall i | 0 <= i < |cmds| :: !(cmds[i].Submit? && cmds[i].order.id == id)
  {
    if cmds == [] then 0
    else if cmds[0].Submit? && cmds[0].order.id == id then 0
    else 1 + Arrival(cmds[1..], id)
  }

  lemma {:induction false} ArrivalSnoc(cmds: seq<Command>, c: Command, id: OrderId)
    ensures Arrival(cmds, id) < |cmds| ==> Arrival(cmds + [c], id) == Arrival(cmds, id)
    ensures Arrival(cmds, id) == |cmds| && c.Submit? && c.order.id == id ==> Arrival(cmds + [c], id) == |cmds|
    ensures Arrival(cmds, id) == |cmds| && !(c.Submit? && c.order.id == id) ==> Arrival(cmds + [c], id) == |cmds| + 1
  {
    if cmds == [] {
      assert (cmds + [c])[1..] == [];
    } else {
      assert (cmds + [c])[1..] == cmds[1..] + [c];
      if !(cmds[0].Submit? && cmds[0].order.id == id) {
        ArrivalSnoc(cmds[1..], c, id);
      }
    }
  }

  /** What order entry guarantees: positive quantity, nothing filled yet, and an id never used before. */
  ghost predicate WellFormed(cmds: seq<Command>) {
    forall i | 0 <= i < |cmds| && cmds[i].Submit? ::
      var o := cmds[i].order;
      o.quantity > 0.0 && o.filled == 0.0 && Arrival(cmds[..i], o.id) == i
  }

  lemma {:induction false} WellFormedSnoc(cmds: seq<Command>, c: Command)
    requires WellFormed(cmds + [c])
    ensures WellFormed(cmds)
    ensures c.Submit? ==> c.order.quantity > 0.0 && c.order.filled == 0.0 && Arrival(cmds, c.order.id) == |cmds|
  {
    var all := cmds + [c];
    forall i | 0 <= i < |cmds| && cmds[i].Submit?
      ensures var o := cmds[i].order; o.quantity > 0.0 && o.filled == 0.0 && Arrival(cmds[..i], o.id) == i
    {
      assert all[i] == cmds[i] && all[..i] == cmds[..i];
    }
    assert all[|cmds|] == c && all[..|cmds|] == cmds;
  }

  // ---------- The invariant ----------

  /** `a` stands before `b` in the line of side `side`: better tick, or the same tick and earlier arrival. */
  ghost predicate Ahead(side: Side, cmds: seq<Command>, a: Entry, b: Entry) {
    && a.order.id != b.order.id
    && (Better(side, a.tick, b.tick) ||
        (a.tick == b.tick && Arrival(cmds, a.order.id) < Arrival(cmds, b.order.id)))
  }

  ghost predicate InLine(side: Side, cmds: seq<Command>, es: seq<Entry>) {
    forall i, j | 0 <= i < j < |es| :: Ahead(side, cmds, es[i], es[j])
  }

  /** A live order has something left, and its status says so once it has traded. */
  predicate LiveFill(o: Order) {
    0.0 <= o.filled < o.quantity && (o.filled > 0.0 ==> o.status == PartiallyFilled)
  }

  /** A live entry is an order of the run, at its rounded price, filled by exactly the trades that name it. */
  ghost predicate Backed(side: Side, cmds: seq<Command>, trades: seq<Trade>, e: Entry) {
    var o, k := e.order, Arrival(cmds, e.order.id);
    && k < |cmds|
    && cmds[k].order.side == side && o.side == side
    && cmds[k].order.price == o.price && cmds[k].order.quantity == o.quantity
    && e.tick == PriceToTicks(o.price)
    && o.filled == Traded(trades, o.id)
    && LiveFill(o)
  }

  ghost predicate AllBacked(side: Side, cmds: seq<Command>, trades: seq<Trade>, es: seq<Entry>) {
    forall i | 0 <= i < |es| :: Backed(side, cmds, trades, es[i])
  }

  /** A resting bid and a resting ask do not cross; on-grid ones do not even touch. */
  ghost predicate Apart(bid: Entry, ask: Entry) {
    && bid.tick <= ask.tick
    && (OnGrid(bid.order.price) && OnGrid(ask.order.price) ==> bid.tick < ask.tick)
  }

  ghost predicate Uncrossed(bids: seq<Entry>, asks: seq<Entry>) {
    forall x, y | x in bids && y in asks :: Apart(x, y)
  }

  ghost predicate NamesArrived(cmds: seq<Command>, trades: seq<Trade>) {
    forall id: OrderId | Arrival(cmds, id) == |cmds| :: Traded(trades, id) == 0.0
  }

  ghost predicate LineInv(side: Side, cmds: seq<Command>, trades: seq<Trade>, es: seq<Entry>) {
    InLine(side, cmds, es) && AllBacked(side, cmds, trades, es)
  }

  ghost predicate Inv(cmds: seq<Command>, trades: seq<Trade>, f: FlatBook) {
    && LineInv(Buy, cmds, trades, f.bids)
    && LineInv(Sell, cmds, trades, f.asks)
    && Uncrossed(f.bids, f.asks)
    && NamesArrived(cmds, trades)
  }

  // ---------- Facts about one line ----------

  lemma {:induction false} OpenOfAbsent(es: seq<Entry>, id: OrderId)
    requires forall i | 0 <= i < |es| :: es[i].order.id != id
    ensures OpenOf(es, id) == 0.0
  {
    if es != [] {
      assert forall i | 0 <= i < |es[1..]| :: es[1..][i] == es[i + 1];
      OpenOfAbsent(es[1..], id);
    }
  }

  lemma {:induction false} OpenOfUnique(es: seq<Entry>, k: nat)
    requires k < |es|
    requires forall i | 0 <= i < |es| && i != k :: es[i].order.id != es[k].order.id
    ensures OpenOf(es, es[k].order.id) == Remaining(es[k].order)
  {
    var id := es[k].order.id;
    assert es == es[..k] + ([es[k]] + es[k + 1..]);
    OpenOfAppend(es[..k], [es[k]] + es[k + 1..], id);
    OpenOfAbsent(es[..k], id);
    OpenOfAbsent(es[k + 1..], id);
    assert ([es[k]] + es[k + 1..])[1..] == es[k + 1..];
  }

  /** `r` is the end of `es`, its first entry possibly filled further. */
  ghost predicate EntrySuffix(r: seq<Entry>, es: seq<Entry>) {
    && |r| <= |es|
    && (forall i | 0 < i < |r| :: r[i] == es[|es| - |r| + i])
    && (r != [] ==>
          var e := es[|es| - |r|];
          r[0] == e.(order := e.order.(filled := r[0].order.filled, status := r[0].order.status)))
  }

  lemma {:induction false} GreedySuffix(taker: Order, es: seq<Entry>)
    ensures EntrySuffix(Greedy(taker, es).rest, es)
    decreases |es|
  {
    if !Done(taker) && es != [] && !Blocked(taker, es[0].tick) {
      var q := FillQuantity(taker, es[0].order);
      if Done(Fill(es[0].order, q)) {
        GreedySuffix(Fill(taker, q), es[1..]);
        var r := Greedy(taker, es).rest;
      }
    }
  }

  ghost predicate InRange(es: seq<Entry>) {
    forall e | e in es :: LiveFill(e.order)
  }

  lemma {:induction false} GreedyKeepsRange(taker: Order, es: seq<Entry>)
    requires InRange(es)
    ensures InRange(Greedy(taker, es).rest)
    ensures Greedy(taker, es).taker.filled >= taker.filled
    ensures var t := Greedy(taker, es).taker;
            t == taker || t.status == if Done(t) then Filled else PartiallyFilled
    decreases |es|
  {
    if !Done(taker) && es != [] && !Blocked(taker, es[0].tick) {
      assert es[0] in es;
      assert forall e | e in es[1..] :: e in es;
      var q := FillQuantity(taker, es[0].order);
      if Done(Fill(es[0].order, q)) {
        GreedyKeepsRange(Fill(taker, q), es[1..]);
      }
    }
  }

  /** A match that leaves the taker unfilled stopped because nothing is left or the rest is out of its price. */
  lemma {:induction false} GreedyStops(taker: Order, es: seq<Entry>)
    ensures var m := Greedy(taker, es);
            !Done(m.taker) && m.rest != [] ==> Blocked(taker, m.rest[0].tick)
    decreases |es|
  {
    if !Done(taker) && es != [] && !Blocked(taker, es[0].tick) {
      var q := FillQuantity(taker, es[0].order);
      if Done(Fill(es[0].order, q)) {
        GreedyStops(Fill(taker, q), es[1..]);
      }
    }
  }

  lemma {:induction false} GreedyKeepsTerms(taker: Order, es: seq<Entry>)
    ensures var t := Greedy(taker, es).taker;
            t == taker.(filled := t.filled, status := t.status)
    decreases |es|
  {
    if !Done(taker) && es != [] && !Blocked(taker, es[0].tick) {
      var q := FillQuantity(taker, es[0].order);
      if Done(Fill(es[0].order, q)) {
        GreedyKeepsTerms(Fill(taker, q), es[1..]);
      }
    }
  }

  // ---------- What each operation does to the invariant ----------

  lemma {:induction false} InvCommand(cmds: seq<Command>, c: Command, trades: seq<Trade>, f: FlatBook)
    requires Inv(cmds, trades, f)
    ensures Inv(cmds + [c], trades, f)
  {
    LineCommand(Buy, cmds, c, trades, f.bids);
    LineCommand(Sell, cmds, c, trades, f.asks);
    forall id: OrderId | Arrival(cmds + [c], id) == |cmds + [c]| ensures Traded(trades, id) == 0.0 {
      ArrivalSnoc(cmds, c, id);
    }
  }

  lemma {:induction false} LineCommand(side: Side, cmds: seq<Command>, c: Command, trades: seq<Trade>, es: seq<Entry>)
    requires LineInv(side, cmds, trades, es)
    ensures LineInv(side, cmds + [c], trades, es)
    ensures forall i | 0 <= i < |es| :: Arrival(cmds + [c], es[i].order.id) == Arrival(cmds, es[i].order.id)
  {
    forall i | 0 <= i < |es|
      ensures Arrival(cmds + [c], es[i].order.id) == Arrival(cmds, es[i].order.id)
      ensures Backed(side, cmds + [c], trades, es[i])
    {
      assert Backed(side, cmds, trades, es[i]);
      ArrivalSnoc(cmds, c, es[i].order.id);
    }
    forall i, j | 0 <= i < j < |es| ensures Ahead(side, cmds + [c], es[i], es[j]) {
      assert Ahead(side, cmds, es[i], es[j]);
    }
  }

  /** No id is on both sides of the book. */
  lemma {:induction false} SidesDisjoint(cmds: seq<Command>, trades: seq<Trade>, f: FlatBook, i: nat, j: nat)
    requires Inv(cmds, trades, f) && i < |f.bids| && j < |f.asks|
    ensures f.bids[i].order.id != f.asks[j].order.id
  {
  }

  lemma {:induction false} LineInRange(side: Side, cmds: seq<Command>, trades: seq<Trade>, es: seq<Entry>)
    requires LineInv(side, cmds, trades, es)
    ensures InRange(es) && AllOpen(es) && Ordered(side, es)
  {
  }

  lemma {:induction false} LineDistinct(side: Side, cmds: seq<Command>, es: seq<Entry>, k: nat)
    requires InLine(side, cmds, es) && k < |es|
    ensures forall j | 0 <= j < |es| && j != k :: es[j].order.id != es[k].order.id
  {
  }

  /** An entry and what is left of it are the only open quantity of its id in the line before and after. */
  lemma {:induction false} SuffixOpen(side: Side, cmds: seq<Command>, es: seq<Entry>, r: seq<Entry>, i: nat)
    requires InLine(side, cmds, es) && EntrySuffix(r, es) && i < |r|
    ensures var e := es[|es| - |r| + i];
            && r[i] == e.(order := e.order.(filled := r[i].order.filled, status := r[i].order.status))
            && OpenOf(es, e.order.id) == Remaining(e.order) && OpenOf(r, e.order.id) == Remaining(r[i].order)
  {
    SuffixInLine(side, cmds, es, r);
    LineDistinct(side, cmds, es, |es| - |r| + i);
    LineDistinct(side, cmds, r, i);
    OpenOfUnique(es, |es| - |r| + i);
    OpenOfUnique(r, i);
  }

  lemma {:induction false} MakerFilled(side: Side, cmds: seq<Command>, trades: seq<Trade>, es: seq<Entry>, taker: Order,
                                      i: nat)
    requires LineInv(side, cmds, trades, es)
    requires forall k | 0 <= k < |es| :: es[k].order.id != taker.id
    requires i < |Greedy(taker, es).rest|
    ensures Backed(side, cmds, trades + Greedy(taker, es).trades, Greedy(taker, es).rest[i])
  {
    var m := Greedy(taker, es);
    GreedySuffix(taker, es);
    LineInRange(side, cmds, trades, es);
    GreedyKeepsRange(taker, es);
    SuffixOpen(side, cmds, es, m.rest, i);
    var e := es[|es| - |m.rest| + i];
    GreedyLedger(taker, es, e.order.id);
    assert m.rest[i] in m.rest;
    FillBacked(side, cmds, trades, m.trades, e, m.rest[i]);
  }

  /** A live entry filled by what new trades executed under its id stays accounted for. */
  lemma {:induction false} FillBacked(side: Side, cmds: seq<Command>, trades: seq<Trade>, more: seq<Trade>, e: Entry,
                                     now: Entry)
    requires Backed(side, cmds, trades, e)
    requires now == e.(order := e.order.(filled := now.order.filled, status := now.order.status))
    requires Traded(more, e.order.id) == now.order.filled - e.order.filled
    requires LiveFill(now.order)
    ensures Backed(side, cmds, trades + more, now)
  {
    TradedAppend(trades, more, e.order.id);
  }

  lemma {:induction false} SuffixInLine(side: Side, cmds: seq<Command>, es: seq<Entry>, r: seq<Entry>)
    requires InLine(side, cmds, es) && EntrySuffix(r, es)
    ensures InLine(side, cmds, r)
  {
  }

  /** Ids that are not in the line are not traded as makers. */
  lemma {:induction false} StrangerUntraded(taker: Order, es: seq<Entry>, id: OrderId)
    requires id != taker.id
    requires forall k | 0 <= k < |es| :: es[k].order.id != id
    ensures Traded(Greedy(taker, es).trades, id) == 0.0
  {
    var m := Greedy(taker, es);
    GreedySuffix(taker, es);
    GreedyLedger(taker, es, id);
    OpenOfAbsent(es, id);
    var off := |es| - |m.rest|;
    forall i | 0 <= i < |m.rest| ensures m.rest[i].order.id != id {
      assert m.rest[i].order.id == es[off + i].order.id;
    }
    OpenOfAbsent(m.rest, id);
  }

  lemma {:induction false} SuffixTerms(r: seq<Entry>, es: seq<Entry>, e: Entry)
    requires EntrySuffix(r, es) && e in r
    ensures exists x :: x in es && x.tick == e.tick && x.order.price == e.order.price && x.order.id == e.order.id
  {
  }

  lemma {:induction false} SuffixUncrossed(f: FlatBook, side: Side, r: seq<Entry>)
    requires Uncrossed(f.bids, f.asks) && EntrySuffix(r, f.Side(side))
    ensures var g := f.WithSide(side, r); Uncrossed(g.bids, g.asks)
  {
    var g := f.WithSide(side, r);
    forall x, y | x in g.bids && y in g.asks ensures Apart(x, y) {
      SuffixTerms(r, f.Side(side), if side.Buy? then x else y);
      if side.Buy? {
        var x' :| x' in f.bids && x'.tick == x.tick && x'.order.price == x.order.price;
        assert Apart(x', y);
      } else {
        var y' :| y' in f.asks && y'.tick == y.tick && y'.order.price == y.order.price;
        assert Apart(x, y');
      }
    }
  }

  ghost predicate NewId(f: FlatBook, id: OrderId) {
    && (forall k | 0 <= k < |f.bids| :: f.bids[k].order.id != id)
    && (forall k | 0 <= k < |f.asks| :: f.asks[k].order.id != id)
  }

  lemma {:induction false} InvMatch(cmds: seq<Command>, trades: seq<Trade>, f: FlatBook, taker: Order)
    requires Inv(cmds, trades, f) && NewId(f, taker.id) && Arrival(cmds, taker.id) < |cmds|
    ensures var m := Greedy(taker, f.Side(Opposite(taker.side)));
            Inv(cmds, trades + m.trades, f.WithSide(Opposite(taker.side), m.rest))
  {
    var opp := Opposite(taker.side);
    var es := f.Side(opp);
    var own := f.Side(taker.side);
    var m := Greedy(taker, es);
    GreedySuffix(taker, es);
    SuffixInLine(opp, cmds, es, m.rest);
    SuffixUncrossed(f, opp, m.rest);
    forall i | 0 <= i < |m.rest| ensures Backed(opp, cmds, trades + m.trades, m.rest[i]) {
      MakerFilled(opp, cmds, trades, es, taker, i);
    }
    forall i | 0 <= i < |own| ensures Backed(taker.side, cmds, trades + m.trades, own[i]) {
      assert Backed(taker.side, cmds, trades, own[i]);
      forall k | 0 <= k < |es| ensures es[k].order.id != own[i].order.id {
        if taker.side.Buy? { SidesDisjoint(cmds, trades, f, i, k); } else { SidesDisjoint(cmds, trades, f, k, i); }
      }
      StrangerUntraded(taker, es, own[i].order.id);
      TradedAppend(trades, m.trades, own[i].order.id);
    }
    forall id: OrderId | Arrival(cmds, id) == |cmds| ensures Traded(trades + m.trades, id) == 0.0 {
      forall k | 0 <= k < |es| ensures es[k].order.id != id {
        assert Backed(opp, cmds, trades, es[k]);
      }
      StrangerUntraded(taker, es, id);
      TradedAppend(trades, m.trades, id);
    }
  }

  /** `e` may rest without crossing: every opposite order is outside its limit price. */
  ghost predicate Clear(side: Side, e: Entry, opposite: seq<Entry>) {
    forall x | x in opposite :: Outside(side, e.order.price, x.tick)
  }

  lemma {:induction false} InsertInLine(side: Side, cmds: seq<Command>, trades: seq<Trade>, es: seq<Entry>, e: Entry)
    requires LineInv(side, cmds, trades, es) && Backed(side, cmds, trades, e)
    requires forall i | 0 <= i < |es| :: Arrival(cmds, es[i].order.id) < Arrival(cmds, e.order.id)
    ensures LineInv(side, cmds, trades, Insert(side, es, e))
    ensures forall x | x in Insert(side, es, e) :: x == e || x in es
  {
    LineInRange(side, cmds, trades, es);
    var k := InsertSplits(side, es, e);
    var r := es[..k] + [e] + es[k..];
    forall i | 0 <= i < |r| ensures Backed(side, cmds, trades, r[i]) {
      if i != k { assert r[i] == es[if i < k then i else i - 1]; }
    }
    SplitInLine(side, cmds, es, e, k);
  }

  lemma {:induction false} SplitInLine(side: Side, cmds: seq<Command>, es: seq<Entry>, e: Entry, k: nat)
    requires InLine(side, cmds, es) && k <= |es|
    requires forall i | 0 <= i < |es| :: Arrival(cmds, es[i].order.id) < Arrival(cmds, e.order.id)
    requires forall i | 0 <= i < k :: !Better(side, e.tick, es[i].tick)
    requires forall i | k <= i < |es| :: Better(side, e.tick, es[i].tick)
    ensures InLine(side, cmds, es[..k] + [e] + es[k..])
  {
  }

  lemma {:induction false} InvRest(cmds: seq<Command>, trades: seq<Trade>, f: FlatBook, o: Order)
    requires Inv(cmds, trades, f)
    requires var e := Entry(PriceToTicks(o.price), o);
             && Backed(o.side, cmds, trades, e) && Clear(o.side, e, f.Side(Opposite(o.side)))
    requires forall k | 0 <= k < |f.Side(o.side)| :: Arrival(cmds, f.Side(o.side)[k].order.id) < Arrival(cmds, o.id)
    ensures Inv(cmds, trades, FlatRest(f, o))
  {
    var e, g := Entry(PriceToTicks(o.price), o), FlatRest(f, o);
    InsertInLine(o.side, cmds, trades, f.Side(o.side), e);
    forall x, y | x in g.bids && y in g.asks ensures Apart(x, y) {
      if o.side.Buy? && x == e {
        RoundsBelow(o.price, y.tick);
      } else if o.side.Sell? && y == e {
        RoundsAbove(o.price, x.tick);
      }
    }
  }

  lemma {:induction false} StrikeInLine(side: Side, cmds: seq<Command>, trades: seq<Trade>, es: seq<Entry>, id: OrderId)
    requires LineInv(side, cmds, trades, es)
    ensures LineInv(side, cmds, trades, Strike(es, id))
    ensures forall x | x in Strike(es, id) :: x in es
  {
    if Holds(es, id) {
      var k := StrikePresent(es, id);
      var r := es[..k] + es[k + 1..];
      forall i | 0 <= i < |r| ensures Backed(side, cmds, trades, r[i]) {
        assert r[i] == es[if i < k then i else i + 1];
      }
      forall i, j | 0 <= i < j < |r| ensures Ahead(side, cmds, r[i], r[j]) {
        assert Ahead(side, cmds, es[if i < k then i else i + 1], es[if j < k then j else j + 1]);
      }
    } else {
      StrikeAbsent(es, id);
    }
  }

  lemma {:induction false} InvCancel(cmds: seq<Command>, trades: seq<Trade>, f: FlatBook, id: OrderId)
    requires Inv(cmds, trades, f)
    ensures Inv(cmds, trades, FlatCancelled(f, id))
  {
    StrikeInLine(Buy, cmds, trades, f.bids, id);
    StrikeInLine(Sell, cmds, trades, f.asks, id);
  }
}
