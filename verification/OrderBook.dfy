/** The order book object: two sets of levels and the last traded price, updated in place. */
module OrderBooks {
  import opened Prelude
  import opened Ticks
  import opened Orders
  import opened Ladder
  import opened Matching
  import opened Books

  class OrderBook {
    var bids: seq<Level>
    var asks: seq<Level>
    var lastPrice: Option<real>

    function State(): Book
      reads this
    {
      Book(bids, asks, lastPrice)
    }

    constructor ()
      ensures State() == EMPTY_BOOK
    {
      bids, asks, lastPrice := [], [], None;
    }

    /**
     Takes an incoming order: rejects, matches, rests or drops it.
     On a sorted book the result is the flat specification, unless an empty level blocks a post-only order.
     */
    method Submit(order: Order) returns (trades: seq<Trade>)
      modifies this
      ensures Outcome(State(), trades) == Submitted(old(State()), order)
      ensures old(State()).Valid() ==> State().Valid()
      ensures old(State()).Valid() && !PhantomBlocks(old(State()), order) ==>
                FlatOutcome(Flatten(State()), trades) == FlatSubmitted(old(Flatten(State())), order)
    {
      ghost var before := State();
      if order.orderType.PostOnly? {
        SubmitPostOnly(order);
        trades := [];
      } else {
        trades := SubmitTaker(order);
      }
      if before.Valid() {
        SubmitRefinesFlat(before, order);
        SubmittedValid(before, order);
      }
    }

    /** The post-only branch of a submission. */
    method SubmitPostOnly(order: Order)
      requires order.orderType.PostOnly?
      modifies this
      ensures State() == Submitted(old(State()), order).book
    {
      var wouldMatch := false;
      match order.side {
        case Buy => if asks != [] { wouldMatch := TicksToPrice(asks[0].tick) <= order.price; }
        case Sell => if bids != [] { wouldMatch := TicksToPrice(bids[0].tick) >= order.price; }
      }
      if wouldMatch {
        return;
      }
      bids := WithLevel(Buy, bids, PriceToTicks(order.price));
      Rest(order.(orderType := Limit));
    }

    /** The rest of a submission: fill-or-kill check, iceberg split, matching, and what becomes of the remainder. */
    method SubmitTaker(order: Order) returns (trades: seq<Trade>)
      requires !order.orderType.PostOnly?
      modifies this
      ensures Outcome(State(), trades) == Submitted(old(State()), order)
    {
      if order.orderType.FOK? || order.timeInForce == "FOK" {
        var available := AvailableQtyAtPrice(order.side, order.price);
        if available < order.quantity - FOK_SLACK {
          return [];
        }
      }

      var taker, hidden := order, 0.0;
      if order.orderType.Iceberg? {
        var peak := if order.icebergPeak.Some? then order.icebergPeak.value else order.quantity;
        hidden := order.quantity - Min(peak, order.quantity);
        taker := order.(quantity := Min(peak, order.quantity));
      }
      ghost var visible := taker;
      assert visible == Visible(order) && hidden == Hidden(order);

      match order.side {
        case Buy => trades, taker := MatchAsks(taker);
        case Sell => trades, taker := MatchBids(taker);
      }
      SweepKeepsTerms(visible, old(State()).Side(Opposite(order.side)));
      RestRemainder(order, taker, hidden);
    }

    /**
     Cancels or rests what `order` has left after matching as `taker`; an iceberg rests with its hidden part
     shown.
     */
    method RestRemainder(order: Order, taker: Order, hidden: real)
      requires hidden == Hidden(order)
      requires taker.side == order.side && taker.orderType == order.orderType
      modifies this
      ensures State() == if RestsAfter(order, taker) then AddResting(old(State()), Unmasked(order, taker))
                         else old(State())
    {
      var isFok := order.orderType.FOK? || order.timeInForce == "FOK";
      var isIoc := order.orderType.IOC? || order.timeInForce == "IOC";
      if isIoc && taker.filled < taker.quantity {
        // The unfilled part is cancelled.
      } else if taker.filled < taker.quantity && !taker.orderType.Market? && !isFok {
        var resting := taker;
        if hidden > 0.0 {
          resting := resting.(quantity := resting.quantity + hidden);
        }
        Rest(resting);
      }
    }

    /** The buy-side loop: one resting ask, or one empty level, at a time. */
    method MatchAsks(order: Order) returns (trades: seq<Trade>, taker: Order)
      requires order.side == Buy
      modifies this`asks, this`lastPrice
      ensures LevelMatch(trades, taker, asks) == Sweep(order, old(asks))
      ensures lastPrice == LastPrice(old(lastPrice), trades)
    {
      trades, taker := [], order;
      while taker.filled < taker.quantity
        invariant taker.side == Buy
        invariant Sweep(order, old(asks)) == Prepend(trades, Sweep(taker, asks))
        invariant lastPrice == LastPrice(old(lastPrice), trades)
        decreases |asks|, HeadLength(asks), if Done(taker) then 0 else 1
      {
        if asks == [] {
          break;
        }
        var best, queue := asks[0].tick, asks[0].queue;
        if PriceChecked(taker) && TicksToPrice(best) > taker.price {
          break;
        }
        SweepStep(taker, asks);
        if queue != [] {
          ghost var done := trades;
          var trade;
          taker, queue, trade := ExecuteFront(taker, best, queue);
          PrependTwice(done, [trade], Sweep(taker, SetQueue(asks, queue)));
          trades := trades + [trade];
          lastPrice := Some(trade.price);
        }
        asks := if queue == [] then asks[1..] else [Level(best, queue)] + asks[1..];
      }
    }

    /** The sell-side loop, over the bids. */
    method MatchBids(order: Order) returns (trades: seq<Trade>, taker: Order)
      requires order.side == Sell
      modifies this`bids, this`lastPrice
      ensures LevelMatch(trades, taker, bids) == Sweep(order, old(bids))
      ensures lastPrice == LastPrice(old(lastPrice), trades)
    {
      trades, taker := [], order;
      while taker.filled < taker.quantity
        invariant taker.side == Sell
        invariant Sweep(order, old(bids)) == Prepend(trades, Sweep(taker, bids))
        invariant lastPrice == LastPrice(old(lastPrice), trades)
        decreases |bids|, HeadLength(bids), if Done(taker) then 0 else 1
      {
        if bids == [] {
          break;
        }
        var best, queue := bids[0].tick, bids[0].queue;
        if PriceChecked(taker) && TicksToPrice(best) < taker.price {
          break;
        }
        SweepStep(taker, bids);
        if queue != [] {
          ghost var done := trades;
          var trade;
          taker, queue, trade := ExecuteFront(taker, best, queue);
          PrependTwice(done, [trade], Sweep(taker, SetQueue(bids, queue)));
          trades := trades + [trade];
          lastPrice := Some(trade.price);
        }
        bids := if queue == [] then bids[1..] else [Level(best, queue)] + bids[1..];
      }
    }

    /** One fill: the taker against the order at the front of the best queue, which leaves the queue when it is done. */
    method ExecuteFront(order: Order, tick: int, orders: seq<Order>)
      returns (taker: Order, queue: seq<Order>, trade: Trade)
      requires orders != []
      ensures var q := FillQuantity(order, orders[0]);
              taker == Fill(order, q) && queue == NextQueue(order, orders)
              && trade == TradeOf(order, orders[0], tick, q)
    {
      taker, queue := order, orders;
      var resting := queue[0];
      var quantity := Min(taker.quantity - taker.filled, resting.quantity - resting.filled);
      taker := taker.(filled := taker.filled + quantity);
      resting := resting.(filled := resting.filled + quantity);
      resting := resting.(status := if resting.filled >= resting.quantity then Filled else PartiallyFilled);
      taker := taker.(status := if taker.filled >= taker.quantity then Filled else PartiallyFilled);
      var price := TicksToPrice(tick);
      match taker.side {
        case Buy => trade := Trade(taker.pair, price, quantity, taker.id, resting.id, taker.user, resting.user);
        case Sell => trade := Trade(taker.pair, price, quantity, resting.id, taker.id, resting.user, taker.user);
      }
      if resting.filled >= resting.quantity {
        queue := queue[1..];
      } else {
        queue := [resting] + queue[1..];
      }
    }

    method Rest(order: Order)
      modifies this
      ensures State() == AddResting(old(State()), order)
    {
      match order.side {
        case Buy => bids := PushBack(Buy, bids, PriceToTicks(order.price), order);
        case Sell => asks := PushBack(Sell, asks, PriceToTicks(order.price), order);
      }
    }

    function AvailableQtyAtPrice(side: Side, price: real): (q: real)
      reads this
      ensures State().Valid() ==>
                q == OpenQuantity(Eligible(side, Flatten(State()).Side(Opposite(side)), price))
    {
      var ls := if side.Buy? then asks else bids;
      assert Sorted(Opposite(side), ls) ==>
          Available(side, ls, price) == OpenQuantity(Eligible(side, Flat(ls), price)) by {
        if Sorted(Opposite(side), ls) {
          AvailableIsEligible(side, ls, price);
        }
      }
      Available(side, ls, price)
    }

    /** Removes order `id`. The flag says only that a level was emptied by the removal. */
    method Cancel(id: OrderId) returns (flag: bool)
      modifies this
      ensures CancelOutcome(State(), flag) == AfterCancel(old(State()), id)
      ensures old(State()).Valid() ==> State().Valid()
    {
      if State().Valid() {
        CancelledValid(State(), id);
      }
      bids, flag := RemoveFrom(bids, id);
      if !flag {
        asks, flag := RemoveFrom(asks, id);
      }
    }

    /** Walks the levels of one side to the first that holds `id` and takes the order out of its queue. */
    method RemoveFrom(ls: seq<Level>, id: OrderId) returns (left: seq<Level>, emptied: bool)
      ensures Removal(left, emptied) == Remove(ls, id)
    {
      var i := 0;
      while i < |ls|
        invariant 0 <= i <= |ls|
        invariant forall k | 0 <= k < i :: Position(ls[k].queue, id).None?
      {
        var pos := Position(ls[i].queue, id);
        if pos.Some? {
          RemoveAt(ls, id, i);
          var queue := Without(ls[i].queue, pos.value);
          if queue == [] {
            return ls[..i] + ls[i + 1..], true;
          }
          return ls[..i] + ([Level(ls[i].tick, queue)] + ls[i + 1..]), false;
        }
        i := i + 1;
      }
      RemoveNowhere(ls, id);
      return ls, false;
    }
  }

  /** Levels without the id are passed over. */
  lemma {:induction false} RemovePast(head: seq<Level>, tail: seq<Level>, id: OrderId)
    requires forall k | 0 <= k < |head| :: Position(head[k].queue, id).None?
    ensures var r := Remove(tail, id);
            Remove(head + tail, id) == Removal(head + r.levels, r.emptied)
  {
    if head == [] {
      assert head + tail == tail;
    } else {
      var h, rest := head[0], head[1..];
      assert head == [h] + rest;
      assert forall k | 0 <= k < |rest| :: rest[k] == head[k + 1];
      RemovePast(rest, tail, id);
      ConsAppend(h, rest, tail);
      ConsAppend(h, rest, Remove(tail, id).levels);
    }
  }

  /** Removal acts on the first level that has the id. */
  lemma {:induction false} RemoveAt(ls: seq<Level>, id: OrderId, i: nat)
    requires i < |ls| && Position(ls[i].queue, id).Some?
    requires forall k | 0 <= k < i :: Position(ls[k].queue, id).None?
    ensures var queue := Without(ls[i].queue, Position(ls[i].queue, id).value);
            Remove(ls, id) == if queue == [] then Removal(ls[..i] + ls[i + 1..], true)
                              else Removal(ls[..i] + ([Level(ls[i].tick, queue)] + ls[i + 1..]), false)
  {
    var front, back := ls[..i], [ls[i]] + ls[i + 1..];
    assert ls == front + back;
    RemovePast(front, back, id);
    assert back[1..] == ls[i + 1..];
  }

  lemma {:induction false} RemoveNowhere(ls: seq<Level>, id: OrderId)
    requires forall k | 0 <= k < |ls| :: Position(ls[k].queue, id).None?
    ensures Remove(ls, id) == Removal(ls, false)
  {
    RemovePast(ls, [], id);
    assert ls + [] == ls;
  }
}
