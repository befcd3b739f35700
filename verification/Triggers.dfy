/**
 The stop-order store beside the books, as a step machine.
 Request handlers run as threads whose atomic steps interleave in any way; a step is one operation under a book's
 lock or on one store entry. A sweep first looks at store entries one by one and notes those whose stop is met,
 then takes and submits them one at a time.
 */
module Triggers {
  import opened Prelude
  import opened Ticks
  import opened Orders
  import opened Ladder
  import opened Matching
  import opened Books
  import opened BookRuns

  datatype CondOrder = CondOrder(order: Order, bestPrice: real)

  /**
   An order a thread has in hand: just created (with the price read for it, once it is), or taken from the store
   by a sweep.
   */
  datatype Hand = Hand(order: Order, triggered: bool, best: Option<real>) {
    /** The order goes to the store, not to a book. */
    predicate ForStore() {
      order.orderType.IsConditional() && !triggered
    }
  }

  datatype Op =
    | CancelInBook(id: OrderId)
    | DropStored(id: OrderId)
    | Collect(pair: string, price: real, hits: seq<OrderId>)
    | Take(id: OrderId)

  datatype Print = Print(pair: string, price: real)

  /** A submission to a book: the order as created, whether a sweep made it, and how many trades had printed before. */
  datatype Submission = Submission(order: Order, triggered: bool, at: nat)

  datatype State = State(
    rows: map<OrderId, string>,
    store: map<OrderId, CondOrder>,
    books: map<string, Book>,
    hands: map<nat, Hand>,
    todo: map<nat, seq<Op>>,
    tape: seq<Print>,
    subs: seq<Submission>,
    revoked: set<OrderId>)
  {
    function BookOf(pair: string): Book {
      if pair in books then books[pair] else EMPTY_BOOK
    }

    function TodoOf(t: nat): seq<Op> {
      if t in todo then todo[t] else []
    }
  }

  const INITIAL := State(map[], map[], map[], map[], map[], [], [], {})

  datatype Action =
    | Create(thread: nat, order: Order)
    | RequestCancel(thread: nat, id: OrderId)
    | Act(thread: nat)
    | Look(thread: nat, id: OrderId)
    | LookupFails(thread: nat)
    | Crash(thread: nat)

  // ---------- The steps ----------

  /** The stop price of `o` is met by a trade at `price`. */
  predicate Meets(o: Order, price: real) {
    && o.stopPrice.Some?
    && match o.side
       case Buy => price >= o.stopPrice.value
       case Sell => price <= o.stopPrice.value
  }

  predicate Fires(c: CondOrder, price: real) {
    && c.order.stopPrice.Some?
    && match c.order.orderType
       case StopLimit => Meets(c.order, price)
       case StopMarket => Meets(c.order, price)
       case TrailingStop =>
         var pct := (if c.order.trailingPct.Some? then c.order.trailingPct.value else 1.0) / 100.0;
         if c.order.side.Buy? then price >= c.bestPrice * (1.0 + pct) else price <= c.bestPrice * (1.0 - pct)
       case _ => false
  }

  /** The order a fired stop order becomes. */
  function Fired(o: Order): Order {
    o.(orderType := if o.orderType.StopLimit? then Limit else Market, status := Open)
  }

  function BestOpposite(b: Book, o: Order): real {
    var ls := b.Side(Opposite(o.side));
    if ls == [] then o.price else TicksToPrice(ls[0].tick)
  }

  function UnlinkOps(link: Option<OrderId>): seq<Op> {
    match link
    case None => []
    case Some(id) => [CancelInBook(id), DropStored(id)]
  }

  /** What a handler still has to do after its submission traded: drop the linked leg and, for a new order, sweep. */
  function FollowUp(h: Hand, trades: seq<Trade>): seq<Op> {
    if trades == [] then []
    else UnlinkOps(h.order.ocoLink)
         + if h.triggered then [] else [Collect(h.order.pair, trades[|trades| - 1].price, [])]
  }

  function Prints(pair: string, trades: seq<Trade>): (ps: seq<Print>)
    ensures |ps| == |trades|
    ensures forall i | 0 <= i < |ps| :: ps[i] == Print(pair, trades[i].price)
  {
    seq(|trades|, i requires 0 <= i < |trades| => Print(pair, trades[i].price))
  }

  /** Reads the opposite price for a new conditional order, then stores it; any other order in hand is submitted. */
  function ActHand(s: State, t: nat): State
    requires t in s.hands
  {
    var h, s' := s.hands[t], s.(hands := s.hands - {t});
    var o := h.order;
    if h.ForStore() then
      match h.best
      case None => s.(hands := s.hands[t := h.(best := Some(BestOpposite(s.BookOf(o.pair), o)))])
      case Some(best) => s'.(store := s.store[o.id := CondOrder(o, best)])
    else
      var r := Submitted(s.BookOf(o.pair), if h.triggered then Fired(o) else o);
      s'.(books := s.books[o.pair := r.book],
          tape := s.tape + Prints(o.pair, r.trades),
          subs := s.subs + [Submission(o, h.triggered, |s.tape|)],
          todo := s.todo[t := FollowUp(h, r.trades) + s.TodoOf(t)])
  }

  function Takes(hits: seq<OrderId>): (ops: seq<Op>)
    ensures |ops| == |hits|
    ensures forall i | 0 <= i < |ops| :: ops[i] == Take(hits[i])
  {
    seq(|hits|, i requires 0 <= i < |hits| => Take(hits[i]))
  }

  function ActOp(s: State, t: nat): State
    requires s.TodoOf(t) != []
  {
    var rest := s.TodoOf(t)[1..];
    var s' := s.(todo := s.todo[t := rest]);
    match s.TodoOf(t)[0]
    case CancelInBook(id) =>
      if id in s.rows && s.rows[id] in s.books
      then s'.(books := s.books[s.rows[id] := AfterCancel(s.books[s.rows[id]], id).book])
      else s'
    case DropStored(id) =>
      if id in s.store then s'.(store := s.store - {id}, revoked := s.revoked + {id}) else s'
    case Collect(_, _, hits) =>
      s'.(todo := s.todo[t := Takes(hits) + rest])
    case Take(id) =>
      if id in s.store
      then s'.(store := s.store - {id}, hands := s.hands[t := Hand(s.store[id].order, true, None)])
      else s'
  }

  /**
   One entry seen by a sweep: noted when its stop is met; a trailing stop that is not updates the last noted
   entry.
   */
  function LookAt(s: State, t: nat, id: OrderId): State
    requires s.TodoOf(t) != [] && s.TodoOf(t)[0].Collect? && id in s.store
  {
    var op, rest, c := s.TodoOf(t)[0], s.TodoOf(t)[1..], s.store[id];
    if c.order.pair != op.pair || c.order.stopPrice.None? then s
    else if Fires(c, op.price) then s.(todo := s.todo[t := [op.(hits := op.hits + [id])] + rest])
    else if c.order.orderType.TrailingStop? && op.hits != [] && op.hits[|op.hits| - 1] in s.store then
      var last := op.hits[|op.hits| - 1];
      var l := s.store[last];
      var improves := if l.order.side.Buy? then op.price < l.bestPrice else op.price > l.bestPrice;
      if improves then s.(store := s.store[last := l.(bestPrice := op.price)]) else s
    else s
  }

  /**
   One step; an action that is not enabled changes nothing. `LookupFails` is the row lookup that precedes a book cancel
   failing: the book is skipped and the handler goes on to the store.
   */
  function Step(s: State, a: Action): State {
    match a
    case Create(t, o) =>
      if t in s.hands || t in s.todo || o.id in s.rows then s
      else s.(rows := s.rows[o.id := o.pair], hands := s.hands[t := Hand(o, false, None)], todo := s.todo[t := []])
    case RequestCancel(t, id) =>
      if t in s.hands || t in s.todo || id !in s.rows then s
      else s.(todo := s.todo[t := UnlinkOps(Some(id))])
    case Act(t) =>
      if t in s.hands then ActHand(s, t)
      else if s.TodoOf(t) != [] then ActOp(s, t)
      else s
    case Look(t, id) =>
      if t !in s.hands && s.TodoOf(t) != [] && s.TodoOf(t)[0].Collect? && id in s.store then LookAt(s, t, id) else s
    case LookupFails(t) =>
      if t !in s.hands && s.TodoOf(t) != [] && s.TodoOf(t)[0].CancelInBook?
      then s.(todo := s.todo[t := s.TodoOf(t)[1..]])
      else s
    case Crash(t) =>
      s.(hands := s.hands - {t}, todo := s.todo - {t})
  }

  function Exec(s: State, actions: seq<Action>): State
    decreases |actions|
  {
    if actions == [] then s else Exec(Step(s, actions[0]), actions[1..])
  }

  // ---------- The invariant ----------

  ghost predicate SubmittedId(s: State, id: OrderId) {
    exists i :: 0 <= i < |s.subs| && s.subs[i].order.id == id
  }

  ghost predicate Held(s: State, id: OrderId) {
    exists t :: t in s.hands && s.hands[t].order.id == id
  }

  ghost predicate Live(b: Book, id: OrderId) {
    Holds(Flat(b.bids), id) || Holds(Flat(b.asks), id)
  }

  /** A stop order has seen a trade of its pair at a price that meets its stop. */
  ghost predicate StopMet(tape: seq<Print>, o: Order) {
    o.orderType.StopLimit? || o.orderType.StopMarket? ==>
      exists k :: 0 <= k < |tape| && tape[k].pair == o.pair && Meets(o, tape[k].price)
  }

  ghost predicate RowsOk(s: State) {
    && (forall id | id in s.store :: id in s.rows)
    && (forall t | t in s.hands :: s.hands[t].order.id in s.rows)
    && (forall i | 0 <= i < |s.subs| :: s.subs[i].order.id in s.rows)
    && (forall id | id in s.revoked :: id in s.rows)
  }

  /** An id is in at most one place: the store, one thread's hand, or already submitted; a revoked one is in none. */
  ghost predicate PlacesOk(s: State) {
    && (forall id | id in s.store :: !Held(s, id) && !SubmittedId(s, id))
    && (forall t | t in s.hands :: !SubmittedId(s, s.hands[t].order.id))
    && (forall t, u | t in s.hands && u in s.hands && t != u :: s.hands[t].order.id != s.hands[u].order.id)
    && (forall i, j | 0 <= i < j < |s.subs| :: s.subs[i].order.id != s.subs[j].order.id)
    && (forall id | id in s.revoked :: id !in s.store && !Held(s, id) && !SubmittedId(s, id))
  }

  ghost predicate BooksOk(s: State) {
    forall p | p in s.books :: s.books[p].Valid() && forall id | Live(s.books[p], id) :: SubmittedId(s, id)
  }

  ghost predicate StopsOk(s: State) {
    && (forall id | id in s.store :: s.store[id].order.id == id && s.store[id].order.orderType.IsConditional())
    && (forall t | t in s.hands && s.hands[t].triggered ::
          s.hands[t].order.orderType.IsConditional() && StopMet(s.tape, s.hands[t].order))
    && (forall i | 0 <= i < |s.subs| ::
          && s.subs[i].at <= |s.tape|
          && (s.subs[i].triggered <==> s.subs[i].order.orderType.IsConditional())
          && StopMet(s.tape[..s.subs[i].at], s.subs[i].order))
  }

  /**
   An id noted by a sweep, if it is still stored, has a stop price that was met; and no thread is about to store
   it.
   */
  ghost predicate HitOk(s: State, id: OrderId) {
    && id in s.rows
    && (forall t | t in s.hands && s.hands[t].order.id == id :: s.hands[t].triggered)
    && (id in s.store ==> s.store[id].order.stopPrice.Some? && StopMet(s.tape, s.store[id].order))
  }

  ghost predicate OpOk(s: State, op: Op) {
    match op
    case Collect(pair, price, hits) => Print(pair, price) in s.tape && forall h | h in hits :: HitOk(s, h)
    case Take(id) => HitOk(s, id)
    case _ => true
  }

  ghost predicate TodoOk(s: State) {
    forall t, op | t in s.todo && op in s.todo[t] :: OpOk(s, op)
  }

  ghost predicate Inv(s: State) {
    RowsOk(s) && PlacesOk(s) && BooksOk(s) && StopsOk(s) && TodoOk(s)
  }

  // ---------- Ids in a book ----------

  lemma {:induction false} InsertIds(side: Side, es: seq<Entry>, e: Entry, id: OrderId)
    requires Holds(Insert(side, es, e), id)
    ensures id == e.order.id || Holds(es, id)
  {
    var x :| x in Insert(side, es, e) && x.order.id == id;
    if es == [] || Better(side, e.tick, es[0].tick) {
      assert x == e || x in es;
    } else if x == es[0] {
    } else {
      assert x in Insert(side, es[1..], e);
      InsertIds(side, es[1..], e, id);
      if Holds(es[1..], id) {
        var y :| y in es[1..] && y.order.id == id;
        assert y in es;
      }
    }
  }

  lemma {:induction false} StrikeIds(es: seq<Entry>, cancelled: OrderId, id: OrderId)
    requires Holds(Strike(es, cancelled), id)
    ensures Holds(es, id)
  {
    if Holds(es, cancelled) {
      var k := StrikePresent(es, cancelled);
      var x :| x in es[..k] + es[k + 1..] && x.order.id == id;
      assert x in es;
    } else {
      StrikeAbsent(es, cancelled);
    }
  }

  lemma {:induction false} SuffixIds(r: seq<Entry>, es: seq<Entry>, id: OrderId)
    requires EntrySuffix(r, es) && Holds(r, id)
    ensures Holds(es, id)
  {
  }

  /** A submission can make live only the order submitted. */
  lemma {:induction false} SubmitIds(b: Book, o: Order, id: OrderId)
    requires b.Valid() && Live(Submitted(b, o).book, id)
    ensures id == o.id || Live(b, id)
  {
    var f := Flatten(b);
    if PhantomBlocks(b, o) {
      PhantomTurnsAway(b, o);
    } else {
      SubmitRefinesFlat(b, o);
      var e := Entry(PriceToTicks(o.price), o.(orderType := Limit));
      if o.orderType.PostOnly? {
        if Holds(Insert(o.side, f.Side(o.side), e), id) { InsertIds(o.side, f.Side(o.side), e, id); }
      } else {
        MatchIds(f, o, id);
      }
    }
  }

  lemma {:induction false} MatchIds(f: FlatBook, o: Order, id: OrderId)
    ensures var r := FlatMatched(f, o).book;
            Holds(r.bids, id) || Holds(r.asks, id) ==> id == o.id || Holds(f.bids, id) || Holds(f.asks, id)
  {
    var opp := Opposite(o.side);
    var m := Greedy(Visible(o), f.Side(opp));
    GreedySuffix(Visible(o), f.Side(opp));
    GreedyKeepsTerms(Visible(o), f.Side(opp));
    if Holds(m.rest, id) { SuffixIds(m.rest, f.Side(opp), id); }
    var rest := Unmasked(o, m.taker);
    var e := Entry(PriceToTicks(rest.price), rest);
    if Holds(Insert(o.side, f.Side(o.side), e), id) { InsertIds(o.side, f.Side(o.side), e, id); }
  }

  lemma {:induction false} CancelIds(b: Book, cancelled: OrderId, id: OrderId)
    requires b.Valid() && Live(AfterCancel(b, cancelled).book, id)
    ensures Live(b, id)
  {
    RemoveFlat(b.bids, cancelled);
    RemoveFlat(b.asks, cancelled);
    if Holds(Strike(Flat(b.bids), cancelled), id) { StrikeIds(Flat(b.bids), cancelled, id); }
    if Holds(Strike(Flat(b.asks), cancelled), id) { StrikeIds(Flat(b.asks), cancelled, id); }
  }

  // ---------- Every step keeps the invariant ----------

  lemma {:induction false} StopMetGrows(tape: seq<Print>, more: seq<Print>, o: Order)
    requires StopMet(tape, o)
    ensures StopMet(tape + more, o)
  {
    if o.orderType.StopLimit? || o.orderType.StopMarket? {
      var k :| 0 <= k < |tape| && tape[k].pair == o.pair && Meets(o, tape[k].price);
      assert (tape + more)[k] == tape[k];
    }
  }

  /** Work lists stay sound when noted ids do and only thread `t` changes its list. */
  lemma {:induction false} TodoKeeps(s: State, s': State, t: nat)
    requires TodoOk(s)
    requires forall p | p in s.tape :: p in s'.tape
    requires forall id | HitOk(s, id) :: HitOk(s', id)
    requires forall u | u in s'.todo && u != t :: u in s.todo && s'.todo[u] == s.todo[u]
    requires t in s'.todo ==> forall op | op in s'.todo[t] :: OpOk(s', op)
    ensures TodoOk(s')
  {
    forall u, op | u in s'.todo && op in s'.todo[u] ensures OpOk(s', op) {
      if u != t {
        assert OpOk(s, op);
      }
    }
  }

  /** The rest of a thread's list is sound after any step that keeps noted ids sound. */
  lemma {:induction false} RestOk(s: State, s': State, t: nat, op: Op)
    requires TodoOk(s) && op in s.TodoOf(t)
    requires forall p | p in s.tape :: p in s'.tape
    requires forall id | HitOk(s, id) :: HitOk(s', id)
    ensures OpOk(s', op)
  {
    assert t in s.todo && OpOk(s, op);
  }

  /** Whose ids are held, when one thread's hand is emptied. */
  lemma {:induction false} HandEmptied(s: State, s': State, t: nat)
    requires t in s.hands && s'.hands == s.hands - {t}
    requires PlacesOk(s)
    ensures forall id :: Held(s', id) <==> Held(s, id) && id != s.hands[t].order.id
  {
    forall id ensures Held(s', id) <==> Held(s, id) && id != s.hands[t].order.id {
      if Held(s', id) {
        var u :| u in s'.hands && s'.hands[u].order.id == id;
        assert u in s.hands && s.hands[u].order.id == id;
      }
      if Held(s, id) && id != s.hands[t].order.id {
        var u :| u in s.hands && s.hands[u].order.id == id;
        assert u in s'.hands && s'.hands[u].order.id == id;
      }
    }
  }

  lemma {:induction false} StorePlaces(s: State, t: nat)
    requires Inv(s) && t in s.hands
    requires s.hands[t].ForStore() && s.hands[t].best.Some?
    ensures PlacesOk(ActHand(s, t))
  {
    var s' := ActHand(s, t);
    HandEmptied(s, s', t);
    assert forall id :: SubmittedId(s', id) <==> SubmittedId(s, id);
    assert Held(s, s.hands[t].order.id);
  }

  lemma {:induction false} InvStore(s: State, t: nat)
    requires Inv(s) && t in s.hands
    requires s.hands[t].ForStore() && s.hands[t].best.Some?
    ensures Inv(ActHand(s, t))
  {
    var s' := ActHand(s, t);
    StorePlaces(s, t);
    assert forall id :: SubmittedId(s', id) <==> SubmittedId(s, id);
    forall id | HitOk(s, id) ensures HitOk(s', id) {
      assert id != s.hands[t].order.id;
    }
    TodoSame(s, s');
  }

  /** Steps that leave the work lists alone need only keep noted ids sound. */
  lemma {:induction false} TodoSame(s: State, s': State)
    requires TodoOk(s) && s'.todo == s.todo
    requires forall p | p in s.tape :: p in s'.tape
    requires forall id | HitOk(s, id) :: HitOk(s', id)
    ensures TodoOk(s')
  {
    forall u, op | u in s'.todo && op in s'.todo[u] ensures OpOk(s', op) {
      assert OpOk(s, op);
    }
  }

  lemma {:induction false} SubmitPlaces(s: State, s': State, t: nat, sub: Submission)
    requires Inv(s) && t in s.hands && sub.order == s.hands[t].order
    requires s'.hands == s.hands - {t} && s'.subs == s.subs + [sub] && s'.store == s.store && s'.revoked == s.revoked
    ensures PlacesOk(s')
    ensures forall id :: SubmittedId(s', id) <==> SubmittedId(s, id) || id == sub.order.id
  {
    HandEmptied(s, s', t);
    forall id ensures SubmittedId(s', id) <==> SubmittedId(s, id) || id == sub.order.id {
      assert s'.subs[|s.subs|] == sub;
      if SubmittedId(s, id) {
        var i :| 0 <= i < |s.subs| && s.subs[i].order.id == id;
        assert s'.subs[i].order.id == id;
      }
    }
    assert Held(s, sub.order.id);
    forall i, j | 0 <= i < j < |s'.subs| ensures s'.subs[i].order.id != s'.subs[j].order.id {
      if j == |s.subs| { assert SubmittedId(s, s.subs[i].order.id); }
    }
  }

  lemma {:induction false} SubmitStops(s: State, s': State, t: nat, sub: Submission, more: seq<Print>)
    requires StopsOk(s) && t in s.hands && sub == Submission(s.hands[t].order, s.hands[t].triggered, |s.tape|)
    requires !s.hands[t].ForStore()
    requires s'.hands == s.hands - {t} && s'.subs == s.subs + [sub] && s'.store == s.store && s'.tape == s.tape + more
    ensures StopsOk(s')
  {
    forall u | u in s'.hands && s'.hands[u].triggered
      ensures s'.hands[u].order.orderType.IsConditional() && StopMet(s'.tape, s'.hands[u].order)
    {
      StopMetGrows(s.tape, more, s.hands[u].order);
    }
    forall i | 0 <= i < |s'.subs|
      ensures s'.subs[i].at <= |s'.tape|
      ensures s'.subs[i].triggered <==> s'.subs[i].order.orderType.IsConditional()
      ensures StopMet(s'.tape[..s'.subs[i].at], s'.subs[i].order)
    {
      if i < |s.subs| {
        assert s'.tape[..s.subs[i].at] == s.tape[..s.subs[i].at];
      } else {
        assert s'.tape[..|s.tape|] == s.tape;
      }
    }
  }

  /** Prints and an emptied hand keep noted ids sound. */
  lemma {:induction false} SubmitHits(s: State, s': State, t: nat, more: seq<Print>)
    requires s'.rows == s.rows && s'.store == s.store && s'.hands == s.hands - {t} && s'.tape == s.tape + more
    ensures forall id | HitOk(s, id) :: HitOk(s', id)
  {
    forall id | HitOk(s, id) ensures HitOk(s', id) {
      if id in s.store { StopMetGrows(s.tape, more, s.store[id].order); }
    }
  }

  lemma {:induction false} SubmitTodo(s: State, t: nat)
    requires Inv(s) && t in s.hands
    requires !s.hands[t].ForStore()
    ensures TodoOk(ActHand(s, t))
  {
    var s', h := ActHand(s, t), s.hands[t];
    var o := h.order;
    var trades := Submitted(s.BookOf(o.pair), if h.triggered then Fired(o) else o).trades;
    SubmitHits(s, s', t, Prints(o.pair, trades));
    forall op | op in s'.todo[t] ensures OpOk(s', op) {
      if op in s.TodoOf(t) {
        RestOk(s, s', t, op);
      } else if op.Collect? {
        assert op == Collect(o.pair, trades[|trades| - 1].price, []);
        assert Prints(o.pair, trades)[|trades| - 1] in s'.tape;
      }
    }
    TodoKeeps(s, s', t);
  }

  lemma {:induction false} SubmitRows(s: State, s': State, t: nat, sub: Submission)
    requires RowsOk(s) && t in s.hands && sub.order == s.hands[t].order
    requires s'.hands == s.hands - {t} && s'.subs == s.subs + [sub]
    requires s'.store == s.store && s'.rows == s.rows && s'.revoked == s.revoked
    ensures RowsOk(s')
  {
  }

  lemma {:induction false} InvSubmission(s: State, t: nat)
    requires Inv(s) && t in s.hands
    requires !s.hands[t].ForStore()
    ensures Inv(ActHand(s, t))
  {
    var s', h := ActHand(s, t), s.hands[t];
    var o, o' := h.order, if h.triggered then Fired(h.order) else h.order;
    var b := s.BookOf(o.pair);
    var sub := Submission(o, h.triggered, |s.tape|);
    SubmitRows(s, s', t, sub);
    SubmitPlaces(s, s', t, sub);
    SubmitStops(s, s', t, sub, Prints(o.pair, Submitted(b, o').trades));
    SubmitTodo(s, t);
    SubmitBooks(s, s', o.pair, o');
  }

  lemma {:induction false} SubmitBooks(s: State, s': State, pair: string, o: Order)
    requires BooksOk(s) && s'.books == s.books[pair := Submitted(s.BookOf(pair), o).book]
    requires forall id | SubmittedId(s, id) || id == o.id :: SubmittedId(s', id)
    ensures BooksOk(s')
  {
    var b := s.BookOf(pair);
    SubmittedValid(b, o);
    forall id | Live(Submitted(b, o).book, id) ensures SubmittedId(s', id) {
      SubmitIds(b, o, id);
      assert Live(b, id) ==> pair in s.books;
    }
  }

  /** A step that moves no order: the store keeps its orders, and hands, submissions, revocations and prints stay. */
  ghost predicate Unmoved(s: State, s': State) {
    && s'.rows == s.rows && s'.subs == s.subs && s'.revoked == s.revoked && s'.tape == s.tape
    && s'.hands.Keys == s.hands.Keys
    && (forall t | t in s.hands ::
          s'.hands[t].order == s.hands[t].order && s'.hands[t].triggered == s.hands[t].triggered)
    && s'.store.Keys == s.store.Keys && forall id | id in s.store :: s'.store[id].order == s.store[id].order
  }

  lemma {:induction false} UnmovedKeeps(s: State, s': State)
    requires RowsOk(s) && PlacesOk(s) && StopsOk(s) && Unmoved(s, s')
    ensures RowsOk(s') && PlacesOk(s') && StopsOk(s')
  {
    assert forall x :: (Held(s', x) <==> Held(s, x)) && (SubmittedId(s', x) <==> SubmittedId(s, x));
  }

  lemma {:induction false} UnmovedHits(s: State, s': State)
    requires Unmoved(s, s')
    ensures forall id :: HitOk(s', id) <==> HitOk(s, id)
    ensures forall id :: SubmittedId(s', id) <==> SubmittedId(s, id)
  {
  }

  lemma {:induction false} InvPriceRead(s: State, t: nat)
    requires Inv(s) && t in s.hands && s.hands[t].ForStore() && s.hands[t].best.None?
    ensures Inv(ActHand(s, t))
  {
    var s' := ActHand(s, t);
    UnmovedKeeps(s, s');
    UnmovedHits(s, s');
    TodoSame(s, s');
  }

  lemma {:induction false} InvLookupFails(s: State, t: nat)
    requires Inv(s)
    ensures Inv(Step(s, LookupFails(t)))
  {
    var s' := Step(s, LookupFails(t));
    if s' != s { InvOpDropped(s, s', t); }
  }

  /** A step that moves no order and only drops the first operation of one list. */
  lemma {:induction false} InvOpDropped(s: State, s': State, t: nat)
    requires Inv(s) && Unmoved(s, s') && BooksOk(s')
    requires s.TodoOf(t) != [] && s'.todo == s.todo[t := s.TodoOf(t)[1..]]
    ensures Inv(s')
  {
    UnmovedKeeps(s, s');
    UnmovedHits(s, s');
    SameHitsTodo(s, s', t);
  }

  lemma {:induction false} InvCancelInBook(s: State, t: nat)
    requires Inv(s) && s.TodoOf(t) != [] && s.TodoOf(t)[0].CancelInBook?
    ensures Inv(ActOp(s, t))
  {
    var s' := ActOp(s, t);
    CancelBooks(s, s', s.TodoOf(t)[0].id);
    InvOpDropped(s, s', t);
  }

  lemma {:induction false} CancelBooks(s: State, s': State, id: OrderId)
    requires BooksOk(s) && s'.subs == s.subs
    requires s'.books == if id in s.rows && s.rows[id] in s.books
                         then s.books[s.rows[id] := AfterCancel(s.books[s.rows[id]], id).book] else s.books
    ensures BooksOk(s')
  {
    assert forall x :: SubmittedId(s', x) <==> SubmittedId(s, x);
    if id in s.rows && s.rows[id] in s.books {
      var b := s.books[s.rows[id]];
      CancelledValid(b, id);
      forall x | Live(AfterCancel(b, id).book, x) ensures SubmittedId(s', x) {
        CancelIds(b, id, x);
      }
    }
  }

  /** A step that only drops the first operation of one list. */
  lemma {:induction false} SameHitsTodo(s: State, s': State, t: nat)
    requires TodoOk(s) && s.TodoOf(t) != [] && s'.todo == s.todo[t := s.TodoOf(t)[1..]]
    requires s'.tape == s.tape && forall id | HitOk(s, id) :: HitOk(s', id)
    ensures TodoOk(s')
  {
    forall op | op in s'.todo[t] ensures OpOk(s', op) {
      RestOk(s, s', t, op);
    }
    TodoKeeps(s, s', t);
  }

  lemma {:induction false} DropPlaces(s: State, s': State, id: OrderId)
    requires PlacesOk(s) && id in s.store
    requires s'.hands == s.hands && s'.subs == s.subs && s'.store == s.store - {id} && s'.revoked == s.revoked + {id}
    ensures PlacesOk(s')
  {
  }

  lemma {:induction false} InvDropStored(s: State, t: nat)
    requires Inv(s) && s.TodoOf(t) != [] && s.TodoOf(t)[0].DropStored?
    ensures Inv(ActOp(s, t))
  {
    var s', id := ActOp(s, t), s.TodoOf(t)[0].id;
    assert forall x :: SubmittedId(s', x) <==> SubmittedId(s, x);
    SameHitsTodo(s, s', t);
    if id in s.store {
      DropPlaces(s, s', id);
    } else {
      UnmovedKeeps(s, s');
    }
  }

  lemma {:induction false} InvCollectEnds(s: State, t: nat)
    requires Inv(s) && s.TodoOf(t) != [] && s.TodoOf(t)[0].Collect?
    ensures Inv(ActOp(s, t))
  {
    var s', hits := ActOp(s, t), s.TodoOf(t)[0].hits;
    UnmovedKeeps(s, s');
    UnmovedHits(s, s');
    assert OpOk(s, s.TodoOf(t)[0]);
    forall op | op in s'.todo[t] ensures OpOk(s', op) {
      if op in Takes(hits) {
        assert op.id in hits;
      } else {
        RestOk(s, s', t, op);
      }
    }
    TodoKeeps(s, s', t);
  }

  lemma {:induction false} TakePlaces(s: State, s': State, t: nat, id: OrderId)
    requires RowsOk(s) && PlacesOk(s) && StopsOk(s) && t !in s.hands && id in s.store
    requires s'.store == s.store - {id} && s'.hands == s.hands[t := Hand(s.store[id].order, true, None)]
    requires s'.subs == s.subs && s'.revoked == s.revoked
    ensures PlacesOk(s')
  {
  }

  lemma {:induction false} TakeStops(s: State, s': State, t: nat, id: OrderId)
    requires StopsOk(s) && HitOk(s, id) && id in s.store
    requires s'.store == s.store - {id} && s'.hands == s.hands[t := Hand(s.store[id].order, true, None)]
    requires s'.subs == s.subs && s'.tape == s.tape
    ensures StopsOk(s')
  {
  }

  lemma {:induction false} InvTake(s: State, t: nat)
    requires Inv(s) && t !in s.hands && s.TodoOf(t) != [] && s.TodoOf(t)[0].Take?
    ensures Inv(ActOp(s, t))
  {
    var s', id := ActOp(s, t), s.TodoOf(t)[0].id;
    assert forall x :: SubmittedId(s', x) <==> SubmittedId(s, x);
    assert OpOk(s, s.TodoOf(t)[0]);
    SameHitsTodo(s, s', t);
    if id in s.store {
      TakePlaces(s, s', t, id);
      TakeStops(s, s', t, id);
    } else {
      UnmovedKeeps(s, s');
    }
  }

  /** The entry just looked at is noted only when a print of its pair meets its stop. */
  lemma {:induction false} FiringIsMet(s: State, id: OrderId, pair: string, price: real)
    requires RowsOk(s) && PlacesOk(s) && StopsOk(s) && id in s.store && Print(pair, price) in s.tape
    requires s.store[id].order.pair == pair && Fires(s.store[id], price)
    ensures HitOk(s, id)
  {
  }

  lemma {:induction false} LookUnmoved(s: State, t: nat, id: OrderId)
    requires s.TodoOf(t) != [] && s.TodoOf(t)[0].Collect? && id in s.store
    ensures var s' := LookAt(s, t, id);
            Unmoved(s, s') && s'.books == s.books
  {
  }

  /** A sweep's list is sound after it notes an id that is. */
  lemma {:induction false} NotedTodo(s: State, s': State, t: nat, id: OrderId)
    requires TodoOk(s) && s.TodoOf(t) != [] && s.TodoOf(t)[0].Collect? && HitOk(s, id) && Unmoved(s, s')
    requires var op := s.TodoOf(t)[0];
             s'.todo == s.todo[t := [op.(hits := op.hits + [id])] + s.TodoOf(t)[1..]]
    ensures TodoOk(s')
  {
    UnmovedHits(s, s');
    assert OpOk(s, s.TodoOf(t)[0]);
    forall x | x in s'.todo[t] ensures OpOk(s', x) {
      if x != s'.todo[t][0] {
        RestOk(s, s', t, x);
      }
    }
    TodoKeeps(s, s', t);
  }

  lemma {:induction false} LookTodo(s: State, t: nat, id: OrderId)
    requires Inv(s) && s.TodoOf(t) != [] && s.TodoOf(t)[0].Collect? && id in s.store
    ensures TodoOk(LookAt(s, t, id))
  {
    var s', op, c := LookAt(s, t, id), s.TodoOf(t)[0], s.store[id];
    LookUnmoved(s, t, id);
    UnmovedHits(s, s');
    if c.order.pair == op.pair && c.order.stopPrice.Some? && Fires(c, op.price) {
      assert OpOk(s, op);
      FiringIsMet(s, id, op.pair, op.price);
      NotedTodo(s, s', t, id);
    } else {
      TodoSame(s, s');
    }
  }

  lemma {:induction false} InvLook(s: State, t: nat, id: OrderId)
    requires Inv(s) && s.TodoOf(t) != [] && s.TodoOf(t)[0].Collect? && id in s.store
    ensures Inv(LookAt(s, t, id))
  {
    var s' := LookAt(s, t, id);
    LookUnmoved(s, t, id);
    LookTodo(s, t, id);
    UnmovedKeeps(s, s');
    UnmovedHits(s, s');
  }

  lemma {:induction false} CreatePlaces(s: State, s': State, t: nat, o: Order)
    requires RowsOk(s) && PlacesOk(s) && t !in s.hands && o.id !in s.rows
    requires s'.hands == s.hands[t := Hand(o, false, None)]
    requires s'.store == s.store && s'.subs == s.subs && s'.revoked == s.revoked
    ensures PlacesOk(s')
  {
    HandGained(s, s', t, o);
    assert forall x :: SubmittedId(s', x) <==> SubmittedId(s, x);
    assert forall x | x in s.store || SubmittedId(s, x) || x in s.revoked :: x in s.rows;
  }

  lemma {:induction false} CreateTodo(s: State, t: nat, o: Order)
    requires TodoOk(s) && t !in s.hands && t !in s.todo && o.id !in s.rows
    ensures TodoOk(Step(s, Create(t, o)))
  {
    var s' := Step(s, Create(t, o));
    forall id | HitOk(s, id) ensures HitOk(s', id) {
      assert id != o.id;
    }
    TodoKeeps(s, s', t);
  }

  lemma {:induction false} InvCreate(s: State, t: nat, o: Order)
    requires Inv(s)
    ensures Inv(Step(s, Create(t, o)))
  {
    var s' := Step(s, Create(t, o));
    if s' != s {
      assert forall x :: SubmittedId(s', x) <==> SubmittedId(s, x);
      CreatePlaces(s, s', t, o);
      CreateTodo(s, t, o);
    }
  }

  lemma {:induction false} InvRequestCancel(s: State, t: nat, id: OrderId)
    requires Inv(s)
    ensures Inv(Step(s, RequestCancel(t, id)))
  {
    var s' := Step(s, RequestCancel(t, id));
    UnmovedKeeps(s, s');
    UnmovedHits(s, s');
    TodoKeeps(s, s', t);
  }

  lemma {:induction false} CrashPlaces(s: State, s': State, t: nat)
    requires PlacesOk(s) && s'.hands == s.hands - {t}
    requires s'.store == s.store && s'.subs == s.subs && s'.revoked == s.revoked
    ensures PlacesOk(s')
  {
  }

  lemma {:induction false} InvCrash(s: State, t: nat)
    requires Inv(s)
    ensures Inv(Step(s, Crash(t)))
  {
    var s' := Step(s, Crash(t));
    assert forall x :: SubmittedId(s', x) <==> SubmittedId(s, x);
    CrashPlaces(s, s', t);
    TodoKeeps(s, s', t);
  }

  lemma {:induction false} HandGained(s: State, s': State, t: nat, o: Order)
    requires t !in s.hands && s'.hands == s.hands[t := Hand(o, false, None)]
    ensures forall x :: Held(s', x) <==> Held(s, x) || x == o.id
  {
    forall x ensures Held(s', x) <==> Held(s, x) || x == o.id {
      if Held(s', x) {
        var u :| u in s'.hands && s'.hands[u].order.id == x;
        assert u == t || u in s.hands;
      }
      if Held(s, x) {
        var u :| u in s.hands && s.hands[u].order.id == x;
        assert u in s'.hands && s'.hands[u].order.id == x;
      }
      assert s'.hands[t].order.id == o.id;
    }
  }

  lemma {:induction false} InvStep(s: State, a: Action)
    requires Inv(s)
    ensures Inv(Step(s, a))
  {
    match a
    case Act(t) =>
      if t in s.hands {
        if !s.hands[t].ForStore() { InvSubmission(s, t); }
        else if s.hands[t].best.None? { InvPriceRead(s, t); }
        else { InvStore(s, t); }
      } else if s.TodoOf(t) != [] {
        match s.TodoOf(t)[0]
        case CancelInBook(_) => InvCancelInBook(s, t);
        case DropStored(_) => InvDropStored(s, t);
        case Collect(_, _, _) => InvCollectEnds(s, t);
        case Take(_) => InvTake(s, t);
      }
    case Look(t, id) =>
      if t !in s.hands && s.TodoOf(t) != [] && s.TodoOf(t)[0].Collect? && id in s.store { InvLook(s, t, id); }
    case Create(t, o) => InvCreate(s, t, o);
    case RequestCancel(t, id) => InvRequestCancel(s, t, id);
    case LookupFails(t) => InvLookupFails(s, t);
    case Crash(t) => InvCrash(s, t);
  }

  /** The invariant holds after any interleaving of any handlers. */
  lemma {:induction false} InvExec(s: State, actions: seq<Action>)
    requires Inv(s)
    ensures Inv(Exec(s, actions))
    decreases |actions|
  {
    if actions != [] {
      InvStep(s, actions[0]);
      InvExec(Step(s, actions[0]), actions[1..]);
    }
  }

  lemma {:induction false} InvInitial()
    ensures Inv(INITIAL)
  {
  }

  ghost predicate Reachable(s: State) {
    exists actions :: s == Exec(INITIAL, actions)
  }

  lemma {:induction false} InvReachable(s: State)
    requires Reachable(s)
    ensures Inv(s)
  {
    var actions :| s == Exec(INITIAL, actions);
    InvInitial();
    InvExec(INITIAL, actions);
  }

  // ---------- Main results ----------

  /** An order id is never both in the store and live in a book. */
  lemma {:induction false} NeverStoredAndLive(s: State, id: OrderId, pair: string)
    requires Reachable(s) && pair in s.books
    ensures !(id in s.store && Live(s.books[pair], id))
  {
    InvReachable(s);
  }

  /** Every order is submitted at most once, over all interleavings of creates, sweeps and cancels. */
  lemma {:induction false} SubmittedAtMostOnce(s: State, i: nat, j: nat)
    requires Reachable(s) && i < j < |s.subs|
    ensures s.subs[i].order.id != s.subs[j].order.id
  {
    InvReachable(s);
  }

  /**
   A stop order is submitted only by a sweep, and only after a trade of its pair printed at a price that meets its
   stop.
   */
  lemma {:induction false} StopsFireAfterTheirPrice(s: State, i: nat)
    requires Reachable(s) && i < |s.subs|
    requires s.subs[i].order.orderType.StopLimit? || s.subs[i].order.orderType.StopMarket?
    ensures s.subs[i].triggered && s.subs[i].at <= |s.tape|
    ensures var o := s.subs[i].order;
            exists k ::
              && 0 <= k < s.subs[i].at && s.tape[k].pair == o.pair && o.stopPrice.Some?
              && if o.side.Buy? then s.tape[k].price >= o.stopPrice.value else s.tape[k].price <= o.stopPrice.value
  {
    InvReachable(s);
    var before := s.tape[..s.subs[i].at];
    assert StopMet(before, s.subs[i].order);
    var k :| 0 <= k < |before| && before[k].pair == s.subs[i].order.pair && Meets(s.subs[i].order, before[k].price);
    assert s.tape[k] == before[k];
  }

  lemma {:induction false} RevokedStep(s: State, a: Action)
    ensures s.revoked <= Step(s, a).revoked
  {
  }

  lemma {:induction false} RevokedGrows(s: State, actions: seq<Action>)
    ensures s.revoked <= Exec(s, actions).revoked
    decreases |actions|
  {
    if actions != [] {
      RevokedStep(s, actions[0]);
      RevokedGrows(Step(s, actions[0]), actions[1..]);
    }
  }

  lemma {:induction false} ReachableExtends(s: State, actions: seq<Action>)
    requires Reachable(s)
    ensures Reachable(Exec(s, actions))
  {
    var first :| s == Exec(INITIAL, first);
    ExecAppend(INITIAL, first, actions);
    assert Exec(s, actions) == Exec(INITIAL, first + actions);
  }

  lemma {:induction false} ExecAppend(s: State, a: seq<Action>, b: seq<Action>)
    ensures Exec(s, a + b) == Exec(Exec(s, a), b)
    decreases |a|
  {
    if a == [] {
      assert a + b == b;
    } else {
      assert (a + b)[0] == a[0] && (a + b)[1..] == a[1..] + b;
      ExecAppend(Step(s, a[0]), a[1..], b);
    }
  }

  /**
   A leg that its linked order (or a cancel request) takes out of the store is gone for good: whatever runs afterwards,
   in whatever order, it is never submitted, stored or live again. In particular a sweep that noted it earlier skips it.
   */
  lemma {:induction false} DroppedLegNeverFires(s: State, t: nat, id: OrderId, more: seq<Action>)
    requires Reachable(s) && t !in s.hands && s.TodoOf(t) != [] && s.TodoOf(t)[0] == DropStored(id) && id in s.store
    ensures var after := Exec(Step(s, Act(t)), more);
            && id !in after.store && !SubmittedId(after, id)
            && forall pair | pair in after.books :: !Live(after.books[pair], id)
  {
    var s' := Step(s, Act(t));
    assert s' == Exec(s, [Act(t)]) by {
      assert [Act(t)][1..] == [];
      assert Exec(s, [Act(t)]) == Exec(Step(s, [Act(t)][0]), [Act(t)][1..]);
    }
    ReachableExtends(s, [Act(t)]);
    ReachableExtends(s', more);
    InvReachable(Exec(s', more));
    RevokedGrows(s', more);
    assert id in s'.revoked;
  }
}
