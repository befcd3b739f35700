/**
 How an incoming order trades against the opposite side.
 `Greedy` is the simple form: it eats one flat list from the front.
 `Sweep` is what the engine does on levels and queues, empty levels included.
 */
module Matching {
  import opened Prelude
  import opened Orders
  import opened Ladder

  datatype Match = Match(trades: seq<Trade>, taker: Order, rest: seq<Entry>)

  function FillQuantity(taker: Order, maker: Order): real {
    Min(Remaining(taker), Remaining(maker))
  }

  function Greedy(taker: Order, es: seq<Entry>): Match
    decreases |es|
  {
    if Done(taker) || es == [] || Blocked(taker, es[0].tick) then Match([], taker, es)
    else
      var q := FillQuantity(taker, es[0].order);
      var maker := Fill(es[0].order, q);
      var trade := TradeOf(taker, es[0].order, es[0].tick, q);
      if Done(maker) then
        var m := Greedy(Fill(taker, q), es[1..]);
        Match([trade] + m.trades, m.taker, m.rest)
      else
        Match([trade], Fill(taker, q), [Entry(es[0].tick, maker)] + es[1..])
  }

  // ---------- What the greedy match is, without recursion ----------

  /** Open quantity of the first `k` entries. */
  function Cum(es: seq<Entry>, k: nat): real
    requires k <= |es|
  {
    if k == 0 then 0.0 else Remaining(es[0].order) + Cum(es[1..], k - 1)
  }

  ghost predicate AllOpen(es: seq<Entry>) {
    forall e | e in es :: Remaining(e.order) > 0.0
  }

  /** What is left of `es` after the first `n` entries traded, the last of them keeping `over` if that is positive. */
  function Leftover(es: seq<Entry>, n: nat, over: real): seq<Entry>
    requires n <= |es|
  {
    if n == 0 || over <= 0.0 then es[n..]
    else
      var o := es[n - 1].order;
      [Entry(es[n - 1].tick, o.(filled := o.quantity - over, status := PartiallyFilled))] + es[n..]
  }

  function TakerAfter(taker: Order, n: nat, offered: real): Order {
    if n == 0 then taker
    else Fill(taker, Min(Remaining(taker), offered))
  }

  /**
   Entry `i` is within the price limit and the entries before it leave the taker short, so it trades: as much as
   it has, or what is still needed.
   */
  ghost predicate TradesAt(taker: Order, es: seq<Entry>, i: nat, trade: Trade)
    requires i < |es|
  {
    var need := Remaining(taker);
    && !Blocked(taker, es[i].tick)
    && Cum(es, i) < need
    && trade == TradeOf(taker, es[i].order, es[i].tick, Min(Remaining(es[i].order), need - Cum(es, i)))
  }

  /** The greedy prefix, by cumulative quantity: which entries trade, how much, where it stops and what is left. */
  ghost predicate GreedyPrefix(taker: Order, es: seq<Entry>, m: Match) {
    var n, need := |m.trades|, Remaining(taker);
    && n <= |es|
    && (forall i | 0 <= i < n :: TradesAt(taker, es, i, m.trades[i]))
    && (n < |es| ==> Blocked(taker, es[n].tick) || need <= Cum(es, n))
    && m.taker == TakerAfter(taker, n, Cum(es, n))
    && m.rest == Leftover(es, n, Cum(es, n) - need)
  }

  lemma {:induction false} GreedyIsPrefix(taker: Order, es: seq<Entry>)
    requires AllOpen(es)
    ensures GreedyPrefix(taker, es, Greedy(taker, es))
    decreases |es|
  {
    var m := Greedy(taker, es);
    if Done(taker) || es == [] || Blocked(taker, es[0].tick) {
    } else {
      assert es[0] in es;
      var q := FillQuantity(taker, es[0].order);
      var taker' := Fill(taker, q);
      var m' := Greedy(taker', es[1..]);
      if Done(Fill(es[0].order, q)) {
        assert forall e | e in es[1..] :: e in es;
        GreedyIsPrefix(taker', es[1..]);
        GreedyPrefixStep(taker, es, m', m);
      } else {
        assert Cum(es, 1) == Remaining(es[0].order) + Cum(es[1..], 0);
      }
    }
  }

  lemma {:induction false} GreedyPrefixStep(taker: Order, es: seq<Entry>, m': Match, m: Match)
    requires AllOpen(es) && es != [] && !Done(taker) && !Blocked(taker, es[0].tick)
    requires Remaining(es[0].order) <= Remaining(taker)
    requires var q := FillQuantity(taker, es[0].order);
             && GreedyPrefix(Fill(taker, q), es[1..], m')
             && m == Match([TradeOf(taker, es[0].order, es[0].tick, q)] + m'.trades, m'.taker, m'.rest)
    ensures GreedyPrefix(taker, es, m)
  {
    var q := FillQuantity(taker, es[0].order);
    var taker', n := Fill(taker, q), |m.trades|;
    assert q == Remaining(es[0].order) by { assert es[0] in es; }
    forall i | 0 <= i < n ensures TradesAt(taker, es, i, m.trades[i]) {
      if i > 0 {
        TradesAtStep(taker, es, i, m.trades[i]);
      }
    }
    assert Cum(es, n) == q + Cum(es[1..], n - 1);
    if n < |es| { assert es[n] == es[1..][n - 1]; }
    assert es[n..] == es[1..][n - 1..];
    if n > 1 {
      assert es[n - 1] == es[1..][n - 2];
    }
  }

  lemma {:induction false} TradesAtStep(taker: Order, es: seq<Entry>, i: nat, trade: Trade)
    requires 0 < i < |es|
    requires TradesAt(Fill(taker, Remaining(es[0].order)), es[1..], i - 1, trade)
    ensures TradesAt(taker, es, i, trade)
  {
  }

  /** The description pins the outcome down: two outcomes that meet it are equal. */
  lemma {:induction false} GreedyPrefixUnique(taker: Order, es: seq<Entry>, a: Match, b: Match)
    requires GreedyPrefix(taker, es, a) && GreedyPrefix(taker, es, b)
    ensures a == b
  {
    var n, k := |a.trades|, |b.trades|;
    assert n < k ==> TradesAt(taker, es, n, b.trades[n]);
    assert k < n ==> TradesAt(taker, es, k, a.trades[k]);
    assert n == k;
    forall i | 0 <= i < n ensures a.trades[i] == b.trades[i] {
      assert TradesAt(taker, es, i, a.trades[i]) && TradesAt(taker, es, i, b.trades[i]);
    }
    assert a.trades == b.trades;
  }

  // ---------- What the engine does: levels and queues ----------

  datatype LevelMatch = LevelMatch(trades: seq<Trade>, taker: Order, levels: seq<Level>)

  function HeadLength(ls: seq<Level>): nat {
    if ls == [] then 0 else |ls[0].queue|
  }

  /** The levels with `queue` at the best tick; the level goes when its queue is empty. */
  function SetQueue(ls: seq<Level>, queue: seq<Order>): seq<Level>
    requires ls != []
  {
    if queue == [] then ls[1..] else [Level(ls[0].tick, queue)] + ls[1..]
  }

  function PopFront(ls: seq<Level>): seq<Level>
    requires ls != [] && ls[0].queue != []
  {
    SetQueue(ls, ls[0].queue[1..])
  }

  function SetFront(ls: seq<Level>, o: Order): seq<Level>
    requires ls != [] && ls[0].queue != []
  {
    SetQueue(ls, [o] + ls[0].queue[1..])
  }

  function Sweep(taker: Order, ls: seq<Level>): LevelMatch
    decreases |ls|, HeadLength(ls)
  {
    if Done(taker) || ls == [] || Blocked(taker, ls[0].tick) then LevelMatch([], taker, ls)
    else if ls[0].queue == [] then Sweep(taker, ls[1..])
    else
      var q := FillQuantity(taker, ls[0].queue[0]);
      var maker := Fill(ls[0].queue[0], q);
      var trade := TradeOf(taker, ls[0].queue[0], ls[0].tick, q);
      if Done(maker) then
        var m := Sweep(Fill(taker, q), PopFront(ls));
        LevelMatch([trade] + m.trades, m.taker, m.levels)
      else
        LevelMatch([trade], Fill(taker, q), SetFront(ls, maker))
  }

  /** The best queue after one fill at its front. */
  function NextQueue(taker: Order, queue: seq<Order>): seq<Order> {
    if queue == [] then []
    else
      var maker := Fill(queue[0], FillQuantity(taker, queue[0]));
      if Done(maker) then queue[1..] else [maker] + queue[1..]
  }

  /** The levels after one fill at the front, or after dropping an empty level. */
  function NextLevels(taker: Order, ls: seq<Level>): seq<Level>
    requires ls != []
  {
    SetQueue(ls, NextQueue(taker, ls[0].queue))
  }

  /** A sweep may be taken one fill at a time. */
  lemma {:induction false} SweepStep(taker: Order, ls: seq<Level>)
    requires !Done(taker) && ls != [] && !Blocked(taker, ls[0].tick)
    ensures ls[0].queue == [] ==> Sweep(taker, ls) == Sweep(taker, NextLevels(taker, ls))
    ensures ls[0].queue != [] ==>
              var q := FillQuantity(taker, ls[0].queue[0]);
              var trade := TradeOf(taker, ls[0].queue[0], ls[0].tick, q);
              Sweep(taker, ls) == Prepend([trade], Sweep(Fill(taker, q), NextLevels(taker, ls)))
  {
  }

  function Prepend(trades: seq<Trade>, m: LevelMatch): LevelMatch {
    m.(trades := trades + m.trades)
  }

  lemma {:induction false} PrependTwice(a: seq<Trade>, b: seq<Trade>, m: LevelMatch)
    ensures Prepend(a, Prepend(b, m)) == Prepend(a + b, m)
  {
  }

  lemma {:induction false} FlatHead(ls: seq<Level>)
    requires ls != [] && ls[0].queue != []
    ensures Flat(ls) != [] && Flat(ls)[0] == Entry(ls[0].tick, ls[0].queue[0])
    ensures Flat(ls)[1..] == Tagged(ls[0].tick, ls[0].queue[1..]) + Flat(ls[1..])
  {
  }

  lemma {:induction false} ConsAppend<T>(x: T, a: seq<T>, b: seq<T>)
    ensures ([x] + a) + b == [x] + (a + b)
    ensures (([x] + a) + b)[0] == x && (([x] + a) + b)[1..] == a + b
  {
  }

  lemma {:induction false} FlatPopFront(ls: seq<Level>)
    requires ls != [] && ls[0].queue != []
    ensures Flat(ls) != [] && Flat(PopFront(ls)) == Flat(ls)[1..]
  {
  }

  lemma {:induction false} FlatSetFront(ls: seq<Level>, o: Order)
    requires ls != [] && ls[0].queue != []
    ensures Flat(ls) != [] && Flat(SetFront(ls, o)) == [Entry(ls[0].tick, o)] + Flat(ls)[1..]
  {
  }

  /** A price limit that stops at one level stops at every worse price. */
  lemma {:induction false} BlockedBeyond(taker: Order, a: int, b: int)
    requires Blocked(taker, a) && !Better(Opposite(taker.side), b, a)
    ensures Blocked(taker, b)
  {
  }

  /** The engine's sweep over levels and queues is the greedy match on the flat list. */
  lemma {:induction false} SweepIsGreedy(taker: Order, ls: seq<Level>)
    requires Sorted(Opposite(taker.side), ls)
    ensures var s := Sweep(taker, ls);
            Greedy(taker, Flat(ls)) == Match(s.trades, s.taker, Flat(s.levels))
    decreases |ls|, HeadLength(ls)
  {
    if Done(taker) || ls == [] {
    } else if Blocked(taker, ls[0].tick) {
      if Flat(ls) != [] {
        FlatOrdered(Opposite(taker.side), ls);
        FlatWorse(Opposite(taker.side), ls);
        BlockedBeyond(taker, ls[0].tick, Flat(ls)[0].tick);
      }
    } else if ls[0].queue == [] {
      assert Flat(ls) == Flat(ls[1..]);
      SweepIsGreedy(taker, ls[1..]);
    } else {
      FlatHead(ls);
      var q := FillQuantity(taker, ls[0].queue[0]);
      var maker := Fill(ls[0].queue[0], q);
      if Done(maker) {
        FlatPopFront(ls);
        SweepIsGreedy(Fill(taker, q), PopFront(ls));
      } else {
        FlatSetFront(ls, maker);
      }
    }
  }

  lemma {:induction false} FlatWorse(side: Side, ls: seq<Level>)
    requires Sorted(side, ls) && ls != []
    ensures forall e | e in Flat(ls) :: !Better(side, e.tick, ls[0].tick)
  {
    FlatTicks(side, ls[1..], ls[0].tick);
  }

  /** `r` has the ticks of the last levels of `ls`. */
  ghost predicate TickSuffix(r: seq<Level>, ls: seq<Level>) {
    |r| <= |ls| && forall i | 0 <= i < |r| :: r[i].tick == ls[|ls| - |r| + i].tick
  }

  lemma {:induction false} TickSuffixTransitive(r: seq<Level>, mid: seq<Level>, ls: seq<Level>)
    requires TickSuffix(r, mid) && TickSuffix(mid, ls)
    ensures TickSuffix(r, ls)
  {
  }

  /** The levels left by a sweep are the last of the old ones, the first possibly with a shorter queue. */
  lemma {:induction false} SweepSuffix(taker: Order, ls: seq<Level>)
    ensures TickSuffix(Sweep(taker, ls).levels, ls)
    decreases |ls|, HeadLength(ls)
  {
    if !Done(taker) && ls != [] && !Blocked(taker, ls[0].tick) {
      if ls[0].queue == [] {
        SweepSuffix(taker, ls[1..]);
        TickSuffixTransitive(Sweep(taker, ls).levels, ls[1..], ls);
      } else {
        var q := FillQuantity(taker, ls[0].queue[0]);
        if Done(Fill(ls[0].queue[0], q)) {
          SweepSuffix(Fill(taker, q), PopFront(ls));
          TickSuffixTransitive(Sweep(taker, ls).levels, PopFront(ls), ls);
        }
      }
    }
  }

  lemma {:induction false} SweepNoEmpty(taker: Order, ls: seq<Level>)
    requires NoEmptyLevel(ls)
    ensures NoEmptyLevel(Sweep(taker, ls).levels)
    decreases |ls|, HeadLength(ls)
  {
    if !Done(taker) && ls != [] && !Blocked(taker, ls[0].tick) {
      var q := FillQuantity(taker, ls[0].queue[0]);
      if Done(Fill(ls[0].queue[0], q)) {
        SweepNoEmpty(Fill(taker, q), PopFront(ls));
      }
    }
  }

  lemma {:induction false} SweepSorted(taker: Order, ls: seq<Level>)
    requires Sorted(Opposite(taker.side), ls)
    ensures Sorted(Opposite(taker.side), Sweep(taker, ls).levels)
  {
    SweepSuffix(taker, ls);
  }

  // ---------- Accounting ----------

  /** Open quantity that entries of order `id` have in `es`. */
  function OpenOf(es: seq<Entry>, id: OrderId): real {
    if es == [] then 0.0
    else (if es[0].order.id == id then Remaining(es[0].order) else 0.0) + OpenOf(es[1..], id)
  }

  /** Everything traded is what the taker was filled by. */
  lemma {:induction false} GreedyFillsTaker(taker: Order, es: seq<Entry>)
    ensures var m := Greedy(taker, es);
            SumQuantity(m.trades) == m.taker.filled - taker.filled
    decreases |es|
  {
    if Done(taker) || es == [] || Blocked(taker, es[0].tick) {
    } else {
      var q := FillQuantity(taker, es[0].order);
      var trade := TradeOf(taker, es[0].order, es[0].tick, q);
      if Done(Fill(es[0].order, q)) {
        GreedyFillsTaker(Fill(taker, q), es[1..]);
        assert ([trade] + Greedy(Fill(taker, q), es[1..]).trades)[1..] == Greedy(Fill(taker, q), es[1..]).trades;
      } else {
        assert SumQuantity([trade]) == q;
      }
    }
  }

  /** For every id, what the trades executed is what left the list plus what the taker gained. */
  lemma {:induction false} GreedyLedger(taker: Order, es: seq<Entry>, id: OrderId)
    ensures var m := Greedy(taker, es);
            Traded(m.trades, id) ==
              OpenOf(es, id) - OpenOf(m.rest, id) + (if id == taker.id then m.taker.filled - taker.filled else 0.0)
    decreases |es|
  {
    if Done(taker) || es == [] || Blocked(taker, es[0].tick) {
    } else {
      var q := FillQuantity(taker, es[0].order);
      var trade := TradeOf(taker, es[0].order, es[0].tick, q);
      if Done(Fill(es[0].order, q)) {
        var m := Greedy(Fill(taker, q), es[1..]);
        GreedyLedger(Fill(taker, q), es[1..], id);
        assert ([trade] + m.trades)[1..] == m.trades;
      } else {
        assert Traded([trade], id) == trade.QuantityOf(id) + Traded([], id);
        var head := Entry(es[0].tick, Fill(es[0].order, q));
        assert ([head] + es[1..])[1..] == es[1..];
      }
    }
  }

  lemma {:induction false} OpenOfAppend(a: seq<Entry>, b: seq<Entry>, id: OrderId)
    ensures OpenOf(a + b, id) == OpenOf(a, id) + OpenOf(b, id)
  {
    if a == [] {
      assert a + b == b;
    } else {
      assert (a + b)[1..] == a[1..] + b;
      OpenOfAppend(a[1..], b, id);
    }
  }

  lemma {:induction false} InsertLedger(side: Side, es: seq<Entry>, e: Entry, id: OrderId)
    ensures OpenOf(Insert(side, es, e), id) == OpenOf(es, id) + OpenOf([e], id)
  {
    if es == [] || Better(side, e.tick, es[0].tick) {
      OpenOfAppend([e], es, id);
    } else {
      InsertLedger(side, es[1..], e, id);
      assert Insert(side, es, e)[1..] == Insert(side, es[1..], e);
    }
  }

  /** The open quantity that striking `id` takes off the list. */
  function StruckQuantity(es: seq<Entry>, id: OrderId): real {
    if es == [] then 0.0
    else if es[0].order.id == id then Remaining(es[0].order)
    else StruckQuantity(es[1..], id)
  }

  lemma {:induction false} StrikeLedger(es: seq<Entry>, cancelled: OrderId, id: OrderId)
    ensures OpenOf(es, id) ==
            OpenOf(Strike(es, cancelled), id) + (if id == cancelled then StruckQuantity(es, cancelled) else 0.0)
  {
    if es != [] && es[0].order.id != cancelled {
      StrikeLedger(es[1..], cancelled, id);
      assert Strike(es, cancelled)[1..] == Strike(es[1..], cancelled);
    }
  }
}
