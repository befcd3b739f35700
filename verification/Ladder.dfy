/**
 One side of the order book: price levels, best first, each a FIFO queue of orders.
 The sorted map of the source is kept as its key-ordered sequence of levels.
 A level may be empty. `Flat` forgets the levels and lists the live orders by price, then arrival.
 */
module Ladder {
  import opened Prelude
  import opened Orders

  datatype Level = Level(tick: int, queue: seq<Order>)
  datatype Entry = Entry(tick: int, order: Order)

  /** On the book side `side`, tick `a` is a strictly better price than tick `b`. */
  predicate Better(side: Side, a: int, b: int) {
    match side
    case Buy => a > b
    case Sell => a < b
  }

  ghost predicate Sorted(side: Side, ls: seq<Level>) {
    forall i, j | 0 <= i < j < |ls| :: Better(side, ls[i].tick, ls[j].tick)
  }

  ghost predicate NoEmptyLevel(ls: seq<Level>) {
    forall i | 0 <= i < |ls| :: ls[i].queue != []
  }

  function Tagged(tick: int, queue: seq<Order>): (es: seq<Entry>)
    ensures |es| == |queue|
    ensures forall i | 0 <= i < |es| :: es[i] == Entry(tick, queue[i])
  {
    seq(|queue|, i requires 0 <= i < |queue| => Entry(tick, queue[i]))
  }

  function Flat(ls: seq<Level>): seq<Entry> {
    if ls == [] then [] else Tagged(ls[0].tick, ls[0].queue) + Flat(ls[1..])
  }

  /** The flat list is in price order. */
  ghost predicate Ordered(side: Side, es: seq<Entry>) {
    forall i, j | 0 <= i < j < |es| :: !Better(side, es[j].tick, es[i].tick)
  }

  lemma {:induction false} FlatTicks(side: Side, ls: seq<Level>, bound: int)
    requires forall i | 0 <= i < |ls| :: Better(side, bound, ls[i].tick)
    ensures forall e | e in Flat(ls) :: Better(side, bound, e.tick)
  {
    if ls != [] {
      FlatTicks(side, ls[1..], bound);
    }
  }

  lemma {:induction false} FlatOrdered(side: Side, ls: seq<Level>)
    requires Sorted(side, ls)
    ensures Ordered(side, Flat(ls))
  {
    if ls != [] {
      FlatOrdered(side, ls[1..]);
      FlatTicks(side, ls[1..], ls[0].tick);
      var head, tail := Tagged(ls[0].tick, ls[0].queue), Flat(ls[1..]);
      forall i: int, j: int | 0 <= i < j < |head + tail|
        ensures !Better(side, Flat(ls)[j].tick, Flat(ls)[i].tick)
      {
        if i < |head| <= j {
          assert (head + tail)[j] in tail;
        } else if |head| <= i {
          assert (head + tail)[j] == tail[j - |head|] && (head + tail)[i] == tail[i - |head|];
        }
      }
    }
  }

  // ---------- Adding a resting order ----------

  /** `entry(tick).or_default()`: makes sure there is a level at `tick`. */
  function WithLevel(side: Side, ls: seq<Level>, tick: int): seq<Level> {
    if ls == [] || Better(side, tick, ls[0].tick) then [Level(tick, [])] + ls
    else if ls[0].tick == tick then ls
    else [ls[0]] + WithLevel(side, ls[1..], tick)
  }

  /** `entry(tick).or_default().push_back(o)`. */
  function PushBack(side: Side, ls: seq<Level>, tick: int, o: Order): seq<Level> {
    if ls == [] || Better(side, tick, ls[0].tick) then [Level(tick, [o])] + ls
    else if ls[0].tick == tick then [Level(tick, ls[0].queue + [o])] + ls[1..]
    else [ls[0]] + PushBack(side, ls[1..], tick, o)
  }

  /** Where an order arriving at `tick` queues: behind every entry that is not strictly worse. */
  function Insert(side: Side, es: seq<Entry>, e: Entry): seq<Entry> {
    if es == [] || Better(side, e.tick, es[0].tick) then [e] + es
    else [es[0]] + Insert(side, es[1..], e)
  }

  /**
   In a price-ordered list the newcomer goes to the one place with no worse entry before and only worse ones
   after.
   */
  lemma {:induction false} InsertSplits(side: Side, es: seq<Entry>, e: Entry) returns (k: nat)
    requires Ordered(side, es)
    ensures k <= |es| && Insert(side, es, e) == es[..k] + [e] + es[k..]
    ensures forall i | 0 <= i < k :: !Better(side, e.tick, es[i].tick)
    ensures forall i | k <= i < |es| :: Better(side, e.tick, es[i].tick)
  {
    if es == [] || Better(side, e.tick, es[0].tick) {
      k := 0;
      assert es[..0] == [] && es[0..] == es;
    } else {
      var k' := InsertSplits(side, es[1..], e);
      k := k' + 1;
      assert es[..k] == [es[0]] + es[1..][..k'];
      assert es[k..] == es[1..][k'..];
      forall i | 0 <= i < |es| && (i < k || k <= i)
        ensures i < k ==> !Better(side, e.tick, es[i].tick)
        ensures k <= i ==> Better(side, e.tick, es[i].tick)
      {
        if i > 0 { assert es[i] == es[1..][i - 1]; }
      }
    }
  }

  lemma {:induction false} SortedCons(side: Side, l: Level, ls: seq<Level>)
    requires Sorted(side, ls)
    requires forall x | x in ls :: Better(side, l.tick, x.tick)
    ensures Sorted(side, [l] + ls)
  {
  }

  lemma {:induction false} SortedTail(side: Side, ls: seq<Level>)
    requires ls != [] && Sorted(side, ls)
    ensures Sorted(side, ls[1..])
    ensures forall x | x in ls[1..] :: Better(side, ls[0].tick, x.tick)
  {
  }

  /** Opening a level adds no order. */
  lemma {:induction false} WithLevelFlat(side: Side, ls: seq<Level>, tick: int)
    ensures Flat(WithLevel(side, ls, tick)) == Flat(ls)
  {
    var r := WithLevel(side, ls, tick);
    if ls == [] || Better(side, tick, ls[0].tick) {
      assert r[1..] == ls;
      assert Tagged(tick, []) == [];
    } else if ls[0].tick != tick {
      WithLevelFlat(side, ls[1..], tick);
      assert r[1..] == WithLevel(side, ls[1..], tick);
    }
  }

  /** Opening a level keeps the levels sorted and adds at most one empty level. */
  lemma {:induction false} WithLevelSorted(side: Side, ls: seq<Level>, tick: int)
    requires Sorted(side, ls)
    ensures Sorted(side, WithLevel(side, ls, tick))
    ensures forall l | l in WithLevel(side, ls, tick) :: l in ls || l == Level(tick, [])
  {
    if ls == [] || Better(side, tick, ls[0].tick) {
      SortedCons(side, Level(tick, []), ls);
    } else if ls[0].tick != tick {
      SortedTail(side, ls);
      WithLevelSorted(side, ls[1..], tick);
      SortedCons(side, ls[0], WithLevel(side, ls[1..], tick));
    }
  }

  /** Queueing on a level is insertion into the flat list. */
  lemma {:induction false} PushBackFlat(side: Side, ls: seq<Level>, tick: int, o: Order)
    requires Sorted(side, ls)
    ensures Flat(PushBack(side, ls, tick, o)) == Insert(side, Flat(ls), Entry(tick, o))
  {
    var e := Entry(tick, o);
    var r := PushBack(side, ls, tick, o);
    if ls == [] || Better(side, tick, ls[0].tick) {
      assert r[1..] == ls;
      assert Tagged(tick, [o]) == [e];
      if ls != [] {
        FlatTicks(side, ls, tick);
      }
    } else {
      SortedTail(side, ls);
      var head, tail := Tagged(ls[0].tick, ls[0].queue), Flat(ls[1..]);
      InsertPast(side, head, tail, e);
      if ls[0].tick == tick {
        assert r[1..] == ls[1..];
        assert Tagged(tick, ls[0].queue + [o]) == head + [e];
        FlatTicks(side, ls[1..], tick);
        assert (head + [e]) + tail == head + ([e] + tail);
      } else {
        PushBackFlat(side, ls[1..], tick, o);
        assert r[1..] == PushBack(side, ls[1..], tick, o);
      }
    }
  }

  /** Queueing on a level keeps the levels sorted. */
  lemma {:induction false} PushBackSorted(side: Side, ls: seq<Level>, tick: int, o: Order)
    requires Sorted(side, ls)
    ensures Sorted(side, PushBack(side, ls, tick, o))
    ensures forall l | l in PushBack(side, ls, tick, o) :: l.tick == tick || l in ls
  {
    if ls == [] || Better(side, tick, ls[0].tick) {
      if ls != [] {
        SortedTail(side, ls);
      }
      SortedCons(side, Level(tick, [o]), ls);
    } else {
      SortedTail(side, ls);
      if ls[0].tick == tick {
        SortedCons(side, Level(tick, ls[0].queue + [o]), ls[1..]);
      } else {
        PushBackSorted(side, ls[1..], tick, o);
        SortedCons(side, ls[0], PushBack(side, ls[1..], tick, o));
      }
    }
  }

  lemma {:induction false} PushBackNoEmpty(side: Side, ls: seq<Level>, tick: int, o: Order)
    requires NoEmptyLevel(ls)
    ensures NoEmptyLevel(PushBack(side, ls, tick, o))
  {
    if ls != [] && !Better(side, tick, ls[0].tick) && ls[0].tick != tick {
      PushBackNoEmpty(side, ls[1..], tick, o);
    }
  }

  lemma {:induction false} InsertPast(side: Side, head: seq<Entry>, tail: seq<Entry>, e: Entry)
    requires forall i | 0 <= i < |head| :: !Better(side, e.tick, head[i].tick)
    ensures Insert(side, head + tail, e) == head + Insert(side, tail, e)
  {
    if head == [] {
      assert head + tail == tail;
    } else {
      assert (head + tail)[1..] == head[1..] + tail;
      InsertPast(side, head[1..], tail, e);
      assert [head[0]] + (head[1..] + Insert(side, tail, e)) == head + Insert(side, tail, e);
    }
  }

  // ---------- Removing an order ----------

  /** First position of order `id` in a queue. */
  function Position(queue: seq<Order>, id: OrderId): (p: Option<nat>)
    ensures p.Some? ==> p.value < |queue| && queue[p.value].id == id
    ensures p.Some? ==> forall i | 0 <= i < p.value :: queue[i].id != id
    ensures p.None? ==> forall o | o in queue :: o.id != id
  {
    if queue == [] then None
    else if queue[0].id == id then Some(0)
    else match Position(queue[1..], id)
         case None => None
         case Some(p) => Some(p + 1)
  }

  function Without(queue: seq<Order>, p: nat): seq<Order>
    requires p < |queue|
  {
    queue[..p] + queue[p + 1..]
  }

  datatype Removal = Removal(levels: seq<Level>, emptied: bool)

  /** Takes the first order `id` off the side, and its level too when that empties it. */
  function Remove(ls: seq<Level>, id: OrderId): Removal {
    if ls == [] then Removal(ls, false)
    else match Position(ls[0].queue, id)
         case None =>
           var r := Remove(ls[1..], id);
           Removal([ls[0]] + r.levels, r.emptied)
         case Some(p) =>
           var queue := Without(ls[0].queue, p);
           if queue == [] then Removal(ls[1..], true)
           else Removal([Level(ls[0].tick, queue)] + ls[1..], false)
  }

  /** The flat list without its first entry for order `id`. */
  function Strike(es: seq<Entry>, id: OrderId): seq<Entry> {
    if es == [] then []
    else if es[0].order.id == id then es[1..]
    else [es[0]] + Strike(es[1..], id)
  }

  ghost predicate Holds(es: seq<Entry>, id: OrderId) {
    exists e :: e in es && e.order.id == id
  }

  lemma {:induction false} StrikePast(head: seq<Entry>, tail: seq<Entry>, id: OrderId)
    requires !Holds(head, id)
    ensures Strike(head + tail, id) == head + Strike(tail, id)
  {
    if head == [] {
      assert head + tail == tail;
    } else {
      assert head[0] in head;
      assert forall e | e in head[1..] :: e in head;
      assert (head + tail)[1..] == head[1..] + tail;
      StrikePast(head[1..], tail, id);
      assert [head[0]] + (head[1..] + Strike(tail, id)) == head + Strike(tail, id);
    }
  }

  /** Removing from a level is striking from the flat list. */
  lemma {:induction false} RemoveFlat(ls: seq<Level>, id: OrderId)
    ensures Flat(Remove(ls, id).levels) == Strike(Flat(ls), id)
  {
    if ls != [] {
      var r := Remove(ls, id).levels;
      var head, tail := Tagged(ls[0].tick, ls[0].queue), Flat(ls[1..]);
      match Position(ls[0].queue, id)
      case None =>
        RemoveFlat(ls[1..], id);
        StrikePast(head, tail, id);
        assert r[1..] == Remove(ls[1..], id).levels;
      case Some(p) =>
        StrikeAt(head, tail, p, id);
        var queue := Without(ls[0].queue, p);
        assert Tagged(ls[0].tick, queue) == head[..p] + head[p + 1..];
        if queue != [] {
          assert r[1..] == ls[1..];
        } else {
          assert Strike(Flat(ls), id) == tail;
        }
    }
  }

  lemma {:induction false} StrikeAt(head: seq<Entry>, tail: seq<Entry>, p: nat, id: OrderId)
    requires p < |head| && head[p].order.id == id
    requires forall i | 0 <= i < p :: head[i].order.id != id
    ensures Strike(head + tail, id) == (head[..p] + head[p + 1..]) + tail
  {
    var front, back := head[..p], [head[p]] + (head[p + 1..] + tail);
    assert head + tail == front + back;
    StrikePast(front, back, id);
    assert back[1..] == head[p + 1..] + tail;
  }

  /** Removing an order keeps the levels sorted. */
  lemma {:induction false} RemoveSorted(side: Side, ls: seq<Level>, id: OrderId)
    requires Sorted(side, ls)
    ensures Sorted(side, Remove(ls, id).levels)
  {
    if ls != [] {
      SortedTail(side, ls);
      match Position(ls[0].queue, id)
      case None =>
        RemoveSorted(side, ls[1..], id);
        RemoveBounded(side, ls[1..], id, ls[0].tick);
        SortedCons(side, ls[0], Remove(ls[1..], id).levels);
      case Some(p) =>
        SortedCons(side, Level(ls[0].tick, Without(ls[0].queue, p)), ls[1..]);
    }
  }

  lemma {:induction false} RemoveBounded(side: Side, ls: seq<Level>, id: OrderId, bound: int)
    requires forall x | x in ls :: Better(side, bound, x.tick)
    ensures forall x | x in Remove(ls, id).levels :: Better(side, bound, x.tick)
  {
    if ls != [] && Position(ls[0].queue, id).None? {
      RemoveBounded(side, ls[1..], id, bound);
    }
  }

  lemma {:induction false} RemoveNoEmpty(ls: seq<Level>, id: OrderId)
    requires NoEmptyLevel(ls)
    ensures NoEmptyLevel(Remove(ls, id).levels)
  {
    if ls != [] {
      RemoveNoEmpty(ls[1..], id);
    }
  }

  ghost predicate DistinctIds(es: seq<Entry>) {
    forall i, j | 0 <= i < j < |es| :: es[i].order.id != es[j].order.id
  }

  /** Striking an id that is not there changes nothing. */
  lemma {:induction false} StrikeAbsent(es: seq<Entry>, id: OrderId)
    requires !Holds(es, id)
    ensures Strike(es, id) == es
  {
    if es != [] {
      assert es[0] in es;
      assert forall e | e in es[1..] :: e in es;
      StrikeAbsent(es[1..], id);
    }
  }

  lemma {:induction false} WithoutTail(es: seq<Entry>, k: nat)
    requires k < |es| - 1
    ensures [es[0]] + (es[1..][..k] + es[1..][k + 1..]) == es[..k + 1] + es[k + 2..]
  {
    assert es[..k + 1] == [es[0]] + es[1..][..k];
    assert es[k + 2..] == es[1..][k + 1..];
  }

  /** Striking an id that is there drops its first entry and no other. */
  lemma {:induction false} StrikePresent(es: seq<Entry>, id: OrderId) returns (k: nat)
    requires Holds(es, id)
    ensures k < |es| && es[k].order.id == id
    ensures forall i | 0 <= i < k :: es[i].order.id != id
    ensures Strike(es, id) == es[..k] + es[k + 1..]
  {
    if es[0].order.id == id {
      k := 0;
    } else {
      var e :| e in es && e.order.id == id;
      assert e in es[1..];
      var k' := StrikePresent(es[1..], id);
      k := k' + 1;
      WithoutTail(es, k');
      forall i | 0 <= i < k ensures es[i].order.id != id {
        if i > 0 { assert es[i] == es[1..][i - 1]; }
      }
    }
  }
}
