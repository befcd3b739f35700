/**
 Empty bid levels. A post-only sell leaves one at its own tick; this module shows that matching, resting and
 cancelling never notice them, what depth shows of them, and the one order type that does stumble over them.
 */
module EmptyLevels {
  import opened Prelude
  import opened Ticks
  import opened Orders
  import opened Ladder
  import opened Matching
  import opened Books
  import opened FillRules
  import opened BookRuns
  import opened Reachable

  function Erase(ls: seq<Level>): seq<Level> {
    if ls == [] then []
    else if ls[0].queue == [] then Erase(ls[1..])
    else [ls[0]] + Erase(ls[1..])
  }

  function EraseBids(b: Book): Book {
    b.(bids := Erase(b.bids))
  }

  /** Two books with the same live orders and no empty ask level. */
  ghost predicate SameLive(a: Book, b: Book) {
    && a.Valid() && b.Valid()
    && NoEmptyLevel(a.asks) && NoEmptyLevel(b.asks)
    && Flatten(a) == Flatten(b)
  }

  lemma {:induction false} EraseKeeps(side: Side, ls: seq<Level>)
    requires Sorted(side, ls)
    ensures Flat(Erase(ls)) == Flat(ls)
    ensures Sorted(side, Erase(ls)) && NoEmptyLevel(Erase(ls))
    ensures forall l | l in Erase(ls) :: l in ls
  {
    if ls != [] {
      SortedTail(side, ls);
      EraseKeeps(side, ls[1..]);
      if ls[0].queue == [] {
        assert Tagged(ls[0].tick, ls[0].queue) + Flat(ls[1..]) == Flat(ls[1..]);
      } else {
        SortedCons(side, ls[0], Erase(ls[1..]));
        assert Erase(ls)[1..] == Erase(ls[1..]);
      }
    }
  }

  lemma {:induction false} EraseSameLive(b: Book)
    requires b.Valid() && NoEmptyLevel(b.asks)
    ensures SameLive(b, EraseBids(b))
  {
    EraseKeeps(Buy, b.bids);
  }

  // ---------- Asks never have an empty level ----------

  lemma {:induction false} StepKeepsAsksFull(b: Book, c: Command)
    requires NoEmptyLevel(b.asks)
    ensures NoEmptyLevel(Step(b, c).book.asks)
  {
    match c
    case Cancel(id) =>
      RemoveNoEmpty(b.asks, id);
    case Submit(o) =>
      if o.orderType.PostOnly? {
        if o.side.Sell? { PushBackNoEmpty(Sell, b.asks, PriceToTicks(o.price), o.(orderType := Limit)); }
      } else if o.side.Sell? {
        var rest := Unmasked(o, Sweep(Visible(o), b.bids).taker);
        SweepKeepsTerms(Visible(o), b.bids);
        PushBackNoEmpty(Sell, b.asks, PriceToTicks(rest.price), rest);
      } else {
        SweepNoEmpty(Visible(o), b.asks);
        SweepKeepsTerms(Visible(o), b.asks);
      }
  }

  lemma {:induction false} RunKeepsAsksFull(cmds: seq<Command>)
    ensures NoEmptyLevel(Run(cmds).book.asks)
  {
    if cmds != [] {
      RunKeepsAsksFull(cmds[..|cmds| - 1]);
      StepKeepsAsksFull(Run(cmds[..|cmds| - 1]).book, cmds[|cmds| - 1]);
    }
  }

  // ---------- Where an empty bid level comes from ----------

  predicate PostOnlySell(c: Command) {
    c.Submit? && c.order.orderType.PostOnly? && c.order.side.Sell?
  }

  ghost predicate EmptyAt(ls: seq<Level>, tick: int) {
    Level(tick, []) in ls
  }

  lemma {:induction false} SweepOpensNone(taker: Order, ls: seq<Level>, tick: int)
    requires EmptyAt(Sweep(taker, ls).levels, tick)
    ensures EmptyAt(ls, tick)
    decreases |ls|, HeadLength(ls)
  {
    if !Done(taker) && ls != [] && !Blocked(taker, ls[0].tick) {
      if ls[0].queue == [] {
        SweepOpensNone(taker, ls[1..], tick);
      } else {
        var q := FillQuantity(taker, ls[0].queue[0]);
        if Done(Fill(ls[0].queue[0], q)) { SweepOpensNone(Fill(taker, q), PopFront(ls), tick); }
      }
    }
  }

  lemma {:induction false} RemoveOpensNone(ls: seq<Level>, id: OrderId, tick: int)
    requires EmptyAt(Remove(ls, id).levels, tick)
    ensures EmptyAt(ls, tick)
  {
    if ls != [] && Position(ls[0].queue, id).None? && Level(tick, []) != ls[0] {
      RemoveOpensNone(ls[1..], id, tick);
    }
  }

  lemma {:induction false} PushBackOpensNone(side: Side, ls: seq<Level>, at: int, o: Order, tick: int)
    requires Sorted(side, ls) && EmptyAt(PushBack(side, ls, at, o), tick)
    ensures tick != at && EmptyAt(ls, tick)
  {
    if ls != [] && !Better(side, at, ls[0].tick) {
      SortedTail(side, ls);
      if ls[0].tick != at && Level(tick, []) != ls[0] { PushBackOpensNone(side, ls[1..], at, o, tick); }
    }
  }

  /** Command `c` on book `b` is a post-only sell that is accepted, at tick `tick`. */
  predicate OpensBid(b: Book, c: Command, tick: int) {
    PostOnlySell(c) && !WouldMatch(b, c.order) && PriceToTicks(c.order.price) == tick
  }

  /** One command leaves a bid level empty only where one was, or where it is a post-only sell that is accepted. */
  lemma {:induction false} StepOpens(b: Book, c: Command, tick: int)
    requires b.Valid() && EmptyAt(Step(b, c).book.bids, tick)
    ensures EmptyAt(b.bids, tick) || OpensBid(b, c, tick)
  {
    match c
    case Cancel(id) =>
      RemoveOpensNone(b.bids, id, tick);
    case Submit(o) =>
      var at := PriceToTicks(o.price);
      if Step(b, c).book.bids == b.bids {
      } else if o.orderType.PostOnly? {
        WithLevelSorted(Buy, b.bids, at);
        if o.side.Buy? { PushBackOpensNone(Buy, WithLevel(Buy, b.bids, at), at, o.(orderType := Limit), tick); }
      } else if o.side.Buy? {
        var rest := Unmasked(o, Sweep(Visible(o), b.asks).taker);
        SweepKeepsTerms(Visible(o), b.asks);
        PushBackOpensNone(Buy, b.bids, PriceToTicks(rest.price), rest, tick);
      } else {
        SweepKeepsTerms(Visible(o), b.bids);
        SweepOpensNone(Visible(o), b.bids, tick);
      }
  }

  /** Every empty bid level of any run stands at the tick of a post-only sell that was accepted earlier in it. */
  lemma {:induction false} EmptyLevelOrigin(cmds: seq<Command>, l: Level)
    requires l in Run(cmds).book.bids && l.queue == []
    ensures exists k :: 0 <= k < |cmds| && OpensBid(Run(cmds[..k]).book, cmds[k], l.tick)
  {
    assert l == Level(l.tick, []);
    assert cmds != [];
    var before, c := cmds[..|cmds| - 1], cmds[|cmds| - 1];
    StepOpens(Run(before).book, c, l.tick);
    if !OpensBid(Run(before).book, c, l.tick) {
      EmptyLevelOrigin(before, l);
      var k :| 0 <= k < |before| && OpensBid(Run(before[..k]).book, before[k], l.tick);
      assert before[..k] == cmds[..k];
    }
  }

  // ---------- Matching cannot see them ----------

  lemma {:induction false} StepSameLive(a: Book, b: Book, c: Command)
    requires SameLive(a, b) && !PostOnlySell(c)
    requires c.Cancel? ==> !(Holds(Flat(a.bids), c.id) && Holds(Flat(a.asks), c.id))
    ensures Step(a, c).trades == Step(b, c).trades
    ensures SameLive(Step(a, c).book, Step(b, c).book)
  {
    StepValid(a, c);
    StepValid(b, c);
    StepKeepsAsksFull(a, c);
    StepKeepsAsksFull(b, c);
    match c
    case Cancel(id) =>
      CancelRefinesFlat(a, id);
      CancelRefinesFlat(b, id);
    case Submit(o) =>
      if PhantomBlocks(a, o) { PhantomIsEmptyLevel(a, o); }
      if PhantomBlocks(b, o) { PhantomIsEmptyLevel(b, o); }
      SubmitRefinesFlat(a, o);
      SubmitRefinesFlat(b, o);
  }

  /** A run that starts from book `b`. */
  function RunFrom(b: Book, cmds: seq<Command>): Outcome {
    if cmds == [] then Outcome(b, [])
    else
      var before := RunFrom(b, cmds[..|cmds| - 1]);
      var now := Step(before.book, cmds[|cmds| - 1]);
      Outcome(now.book, before.trades + now.trades)
  }

  lemma {:induction false} RunContinues(first: seq<Command>, cmds: seq<Command>)
    ensures Run(first + cmds).book == RunFrom(Run(first).book, cmds).book
  {
    if cmds == [] {
      assert first + cmds == first;
    } else {
      var before, c := cmds[..|cmds| - 1], cmds[|cmds| - 1];
      assert first + cmds == (first + before) + [c];
      RunContinues(first, before);
      RunSnoc(first + before, c);
    }
  }

  lemma {:induction false} WellFormedPrefix(cmds: seq<Command>, n: nat)
    requires WellFormed(cmds) && n <= |cmds|
    ensures WellFormed(cmds[..n])
  {
    forall i | 0 <= i < n && cmds[..n][i].Submit?
      ensures var o := cmds[..n][i].order; o.quantity > 0.0 && o.filled == 0.0 && Arrival(cmds[..n][..i], o.id) == i
    {
      assert cmds[..n][..i] == cmds[..i];
      assert cmds[i].Submit?;
    }
  }

  /** In a reachable book no id is on both sides. */
  lemma {:induction false} OneSideOnly(cmds: seq<Command>, id: OrderId)
    requires WellFormed(cmds)
    ensures !(Holds(Flat(Run(cmds).book.bids), id) && Holds(Flat(Run(cmds).book.asks), id))
  {
    RunInv(cmds);
    var f := Flatten(Run(cmds).book);
    forall i, j | 0 <= i < |f.bids| && 0 <= j < |f.asks| ensures f.bids[i].order.id != f.asks[j].order.id {
      SidesDisjoint(cmds, Run(cmds).trades, f, i, j);
    }
  }

  /**
   Take any reachable book and erase its empty levels: any continuation without post-only sells then makes the same
   trades and ends with the same live orders.
   */
  lemma {:induction false} EmptyLevelsUnobservable(first: seq<Command>, cmds: seq<Command>)
    requires WellFormed(first + cmds)
    requires forall i | 0 <= i < |cmds| :: !PostOnlySell(cmds[i])
    ensures var b := Run(first).book;
            var r, e := RunFrom(b, cmds), RunFrom(EraseBids(b), cmds);
            r.trades == e.trades && SameLive(r.book, e.book)
  {
    var b := Run(first).book;
    if cmds == [] {
      RunKeepsAsksFull(first);
      EraseSameLive(b);
    } else {
      var before, c := cmds[..|cmds| - 1], cmds[|cmds| - 1];
      var all := first + cmds;
      assert all[..|all| - 1] == first + before;
      WellFormedPrefix(all, |all| - 1);
      assert forall i | 0 <= i < |before| :: before[i] == cmds[i];
      EmptyLevelsUnobservable(first, before);
      RunContinues(first, before);
      if c.Cancel? { OneSideOnly(first + before, c.id); }
      StepSameLive(RunFrom(b, before).book, RunFrom(EraseBids(b), before).book, c);
    }
  }

  // ---------- The order type that does see them ----------

  /**
   Once a post-only sell has rested, every later post-only sell at its tick or below is turned away, although the
   only thing it "would match" may be the empty level the first one left among the bids.
   */
  lemma {:induction false} PostOnlySellBlocksTheNext(b: Book, first: Order, next: Order)
    requires first.orderType.PostOnly? && first.side.Sell? && !WouldMatch(b, first)
    requires next.orderType.PostOnly? && next.side.Sell? && next.price <= TicksToPrice(PriceToTicks(first.price))
    ensures var after := Submitted(b, first).book;
            Submitted(after, next) == Outcome(after, [])
  {
  }

  /** A concrete run: two post-only sells at 10 on an empty book; the second is turned away with no bid in sight. */
  lemma {:induction false} PhantomExample() returns (first: Order, next: Order)
    ensures WellFormed([Submit(first), Submit(next)])
    ensures var after := Submitted(EMPTY_BOOK, first).book;
            && Flat(after.bids) == []
            && PhantomBlocks(after, next)
            && Submitted(after, next) == Outcome(after, [])
  {
    first := Order(1, "m", "BTC_USDT", Sell, PostOnly, 10.0, 1.0, 0.0, Open, None, None, None, None, "GTC");
    next := first.(id := 2);
    var cmds := [Submit(first), Submit(next)];
    assert cmds[..0] == [] && cmds[..1] == [Submit(first)];
    assert [Submit(first)][1..] == [];
    assert Arrival([Submit(first)], 2) == 1 + Arrival([], 2);
    var after := Submitted(EMPTY_BOOK, first).book;
    RestPostOnlyFlat(EMPTY_BOOK, first);
    TicksRoundTrip(10000000);
    assert TicksToPrice(10000000) == 10.0;
    PostOnlySellBlocksTheNext(EMPTY_BOOK, first, next);
    assert Flatten(EMPTY_BOOK).bids == [];
    assert Eligible(Sell, [], 10.0) == [];
  }

  // ---------- Depth ----------

  datatype Row = Row(price: real, quantity: real)

  datatype Depth = Depth(bids: seq<Row>, asks: seq<Row>)

  function RowOf(l: Level): Row {
    Row(TicksToPrice(l.tick), QueueOpen(l.queue))
  }

  function Rows(ls: seq<Level>): (rows: seq<Row>)
    ensures |rows| == |ls| && forall i | 0 <= i < |ls| :: rows[i] == RowOf(ls[i])
  {
    seq(|ls|, i requires 0 <= i < |ls| => RowOf(ls[i]))
  }

  function Take<T>(s: seq<T>, n: nat): seq<T> {
    if n < |s| then s[..n] else s
  }

  function DepthSnapshot(b: Book, levels: nat): Depth {
    Depth(Rows(Take(b.bids, levels)), Rows(Take(b.asks, levels)))
  }

  /** Bid prices strictly fall, ask prices strictly rise, and a shorter snapshot is the front of a longer one. */
  lemma {:induction false} DepthMonotone(b: Book, k: nat, n: nat)
    requires b.Valid() && k <= n
    ensures var d := DepthSnapshot(b, n);
            && (forall i, j | 0 <= i < j < |d.bids| :: d.bids[i].price > d.bids[j].price)
            && (forall i, j | 0 <= i < j < |d.asks| :: d.asks[i].price < d.asks[j].price)
    ensures DepthSnapshot(b, k).bids <= DepthSnapshot(b, n).bids && DepthSnapshot(b, k).asks <= DepthSnapshot(b, n).asks
  {
  }

  /** Open quantity of the live orders at one tick. */
  function OpenAt(es: seq<Entry>, tick: int): real {
    if es == [] then 0.0 else (if es[0].tick == tick then Remaining(es[0].order) else 0.0) + OpenAt(es[1..], tick)
  }

  lemma {:induction false} OpenAtAppend(a: seq<Entry>, b: seq<Entry>, tick: int)
    ensures OpenAt(a + b, tick) == OpenAt(a, tick) + OpenAt(b, tick)
  {
    if a == [] {
      assert a + b == b;
    } else {
      assert (a + b)[1..] == a[1..] + b;
      OpenAtAppend(a[1..], b, tick);
    }
  }

  lemma {:induction false} OpenAtTagged(t: int, queue: seq<Order>, tick: int)
    ensures OpenAt(Tagged(t, queue), tick) == if t == tick then QueueOpen(queue) else 0.0
  {
    if queue != [] {
      OpenAtTagged(t, queue[1..], tick);
      assert Tagged(t, queue)[1..] == Tagged(t, queue[1..]);
    }
  }

  lemma {:induction false} OpenAtNowhere(side: Side, ls: seq<Level>, tick: int)
    requires forall l | l in ls :: l.tick != tick
    ensures OpenAt(Flat(ls), tick) == 0.0
  {
    if ls != [] {
      assert ls[0] in ls;
      OpenAtNowhere(side, ls[1..], tick);
      OpenAtTagged(ls[0].tick, ls[0].queue, tick);
      OpenAtAppend(Tagged(ls[0].tick, ls[0].queue), Flat(ls[1..]), tick);
    }
  }

  /** A depth row shows exactly what the live orders at its tick have left. */
  lemma {:induction false} DepthRowIsOpenQuantity(side: Side, ls: seq<Level>, i: nat)
    requires Sorted(side, ls) && i < |ls|
    ensures Rows(ls)[i].quantity == OpenAt(Flat(ls), ls[i].tick)
  {
    var t := ls[i].tick;
    SortedTail(side, ls);
    OpenAtTagged(ls[0].tick, ls[0].queue, t);
    OpenAtAppend(Tagged(ls[0].tick, ls[0].queue), Flat(ls[1..]), t);
    if i == 0 {
      OpenAtNowhere(side, ls[1..], t);
    } else {
      assert Better(side, ls[0].tick, ls[i].tick);
      assert ls[i] == ls[1..][i - 1];
      DepthRowIsOpenQuantity(side, ls[1..], i - 1);
    }
  }

  /** Total of the rows whose price an order on side `side` with limit `price` would accept. */
  function SumWithin(side: Side, rows: seq<Row>, price: real): real {
    if rows == [] then 0.0
    else
      var outside := if side.Buy? then rows[0].price > price else rows[0].price < price;
      (if outside then 0.0 else rows[0].quantity) + SumWithin(side, rows[1..], price)
  }

  lemma {:induction false} AllOutside(side: Side, ls: seq<Level>, price: real)
    requires forall l | l in ls :: Outside(side, price, l.tick)
    ensures SumWithin(side, Rows(ls), price) == 0.0
  {
    if ls != [] {
      assert ls[0] in ls;
      AllOutside(side, ls[1..], price);
      assert Rows(ls)[1..] == Rows(ls[1..]);
    }
  }

  /** The full snapshot and the fill-or-kill scan agree at every limit price. */
  lemma {:induction false} DepthAgreesWithScan(side: Side, ls: seq<Level>, price: real)
    requires Sorted(Opposite(side), ls)
    ensures SumWithin(side, Rows(ls), price) == Available(side, ls, price)
  {
    if ls != [] {
      SortedTail(Opposite(side), ls);
      assert Rows(ls)[1..] == Rows(ls[1..]);
      if Outside(side, price, ls[0].tick) {
        forall l | l in ls[1..] ensures Outside(side, price, l.tick) {
          assert Better(Opposite(side), ls[0].tick, l.tick);
          assert side.Buy? ==> TicksToPrice(ls[0].tick) <= TicksToPrice(l.tick);
          assert side.Sell? ==> TicksToPrice(l.tick) <= TicksToPrice(ls[0].tick);
        }
        AllOutside(side, ls[1..], price);
      } else {
        DepthAgreesWithScan(side, ls[1..], price);
      }
    }
  }

  function LiveRows(rows: seq<Row>): seq<Row> {
    if rows == [] then []
    else if rows[0].quantity == 0.0 then LiveRows(rows[1..])
    else [rows[0]] + LiveRows(rows[1..])
  }

  lemma {:induction false} QueueOpenPositive(tick: int, queue: seq<Order>)
    requires AllOpen(Tagged(tick, queue)) && queue != []
    ensures QueueOpen(queue) > 0.0
  {
    assert Tagged(tick, queue)[0] in Tagged(tick, queue);
    if |queue| > 1 {
      forall e | e in Tagged(tick, queue[1..]) ensures Remaining(e.order) > 0.0 {
        var i :| 0 <= i < |queue| - 1 && e == Tagged(tick, queue[1..])[i];
        assert Tagged(tick, queue)[i + 1] in Tagged(tick, queue);
      }
      QueueOpenPositive(tick, queue[1..]);
    }
  }

  lemma {:induction false} RowsCons(l: Level, ls: seq<Level>)
    ensures Rows([l] + ls) == [RowOf(l)] + Rows(ls)
  {
  }

  /** The rows that show something are the rows of the levels that hold something. */
  lemma {:induction false} LiveRowsErase(ls: seq<Level>)
    requires AllOpen(Flat(ls))
    ensures LiveRows(Rows(ls)) == Rows(Erase(ls))
  {
    if ls != [] {
      var head, rest := Tagged(ls[0].tick, ls[0].queue), ls[1..];
      assert forall e | e in head || e in Flat(rest) :: e in Flat(ls);
      LiveRowsErase(rest);
      RowsCons(ls[0], rest);
      assert ls == [ls[0]] + rest;
      if ls[0].queue != [] {
        QueueOpenPositive(ls[0].tick, ls[0].queue);
        RowsCons(ls[0], Erase(rest));
      }
    }
  }

  lemma {:induction false} HeadCount(side: Side, ls: seq<Level>, i: nat)
    requires Sorted(side, ls) && ls != [] && i < |Flat(ls)|
    ensures Flat(ls)[i].tick == ls[0].tick <==> i < |ls[0].queue|
  {
    SortedTail(side, ls);
    FlatTicks(side, ls[1..], ls[0].tick);
    if i >= |ls[0].queue| {
      assert Flat(ls)[i] == Flat(ls[1..])[i - |ls[0].queue|];
      assert Flat(ls)[i] in Flat(ls[1..]);
    }
  }

  /** Levels without empty ones can be read off the flat list. */
  lemma {:induction false} FlatInjective(side: Side, a: seq<Level>, b: seq<Level>)
    requires Sorted(side, a) && Sorted(side, b) && NoEmptyLevel(a) && NoEmptyLevel(b)
    requires Flat(a) == Flat(b)
    ensures a == b
  {
    if a != [] { FlatHead(a); }
    if b != [] { FlatHead(b); }
    if a != [] && b != [] {
      var n, k := |a[0].queue|, |b[0].queue|;
      if n < |Flat(a)| { HeadCount(side, a, n); HeadCount(side, b, n); }
      if k < |Flat(a)| { HeadCount(side, a, k); HeadCount(side, b, k); }
      assert n == k;
      forall i | 0 <= i < n ensures a[0].queue[i] == b[0].queue[i] {
        assert Flat(a)[i] == Entry(a[0].tick, a[0].queue[i]);
        assert Flat(b)[i] == Entry(b[0].tick, b[0].queue[i]);
      }
      assert Flat(a)[n..] == Flat(a[1..]) && Flat(b)[n..] == Flat(b[1..]);
      SortedTail(side, a);
      SortedTail(side, b);
      FlatInjective(side, a[1..], b[1..]);
      assert a[0].queue == b[0].queue && a[0].tick == b[0].tick;
      assert a[0] == b[0];
      assert a == [a[0]] + a[1..];
      assert b == [b[0]] + b[1..];
    }
  }

  /** Books with the same live orders show the same depth, up to rows of quantity zero. */
  lemma {:induction false} DepthSameUpToZeroRows(a: Book, b: Book)
    requires SameLive(a, b) && OpenBook(a)
    ensures LiveRows(Rows(a.bids)) == LiveRows(Rows(b.bids))
    ensures Rows(a.asks) == Rows(b.asks)
  {
    LiveRowsErase(a.bids);
    LiveRowsErase(b.bids);
    EraseKeeps(Buy, a.bids);
    EraseKeeps(Buy, b.bids);
    FlatInjective(Buy, Erase(a.bids), Erase(b.bids));
    FlatInjective(Sell, a.asks, b.asks);
  }

  /**
   `rows` are the best `n` levels of a side, or all of them: each level's price and what the live orders there
   have left.
   */
  ghost predicate BestRows(ls: seq<Level>, n: nat, rows: seq<Row>) {
    && |rows| == (if n < |ls| then n else |ls|)
    && forall i | 0 <= i < |rows| ::
         rows[i].price == ls[i].tick as real / 1000000.0 && rows[i].quantity == OpenAt(Flat(ls), ls[i].tick)
  }

  lemma {:induction false} SideSnapshot(side: Side, ls: seq<Level>, n: nat)
    requires Sorted(side, ls)
    ensures BestRows(ls, n, Rows(Take(ls, n)))
  {
    var rows := Rows(Take(ls, n));
    forall i | 0 <= i < |rows|
      ensures rows[i].price == ls[i].tick as real / 1000000.0 && rows[i].quantity == OpenAt(Flat(ls), ls[i].tick)
    {
      DepthRowIsOpenQuantity(side, ls, i);
      assert rows[i] == Rows(ls)[i];
    }
  }

  /**
   A snapshot of `n` levels shows, on each side, the best `n` levels or all there are. Once it covers a side, its rows
   within any limit price sum to what the scan finds there.
   */
  lemma {:induction false} DepthSnapshotShows(b: Book, n: nat, price: real)
    requires b.Valid()
    ensures var d := DepthSnapshot(b, n);
            && BestRows(b.bids, n, d.bids) && BestRows(b.asks, n, d.asks)
            && (|b.asks| <= n ==> SumWithin(Buy, d.asks, price) == Available(Buy, b.asks, price))
            && (|b.bids| <= n ==> SumWithin(Sell, d.bids, price) == Available(Sell, b.bids, price))
  {
    SideSnapshot(Buy, b.bids, n);
    SideSnapshot(Sell, b.asks, n);
    DepthAgreesWithScan(Buy, b.asks, price);
    DepthAgreesWithScan(Sell, b.bids, price);
  }
}
