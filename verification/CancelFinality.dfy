/**
 When a cancel request really ends an order. The request takes the order out of its book and, as a separate step, out
 of the store; any handlers may run in between and afterwards.
 */
module CancelFinality {
  import opened Prelude
  import opened Ticks
  import opened Orders
  import opened Ladder
  import opened Matching
  import opened Books
  import BookRuns
  import opened Triggers

  // ---------- An order that is in nobody's hands stays so ----------

  /** `id` is known but out of the store and out of every hand. */
  ghost predicate Settled(s: State, id: OrderId) {
    id in s.rows && id !in s.store && !Held(s, id)
  }

  lemma {:induction false} NotHeld(s: State, id: OrderId)
    requires !Held(s, id)
    ensures forall u | u in s.hands :: s.hands[u].order.id != id
  {
  }

  /** A hand after a step is one from before, a newly created order, or an order taken from the store. */
  ghost predicate HandFrom(s: State, u: nat, h: Hand) {
    (u in s.hands && s.hands[u].order == h.order) || h.order.id !in s.rows || h.order.id in s.store
  }

  lemma {:induction false} OpHands(s: State, t: nat)
    requires StopsOk(s) && t !in s.hands && s.TodoOf(t) != []
    ensures var s' := ActOp(s, t);
            s'.rows == s.rows && forall u | u in s'.hands :: HandFrom(s, u, s'.hands[u])
  {
    match s.TodoOf(t)[0]
    case Take(id) =>
    case _ => assert ActOp(s, t).hands == s.hands;
  }

  lemma {:induction false} ActHands(s: State, t: nat)
    requires StopsOk(s)
    ensures var s' := Step(s, Act(t));
            s'.rows == s.rows && forall u | u in s'.hands :: HandFrom(s, u, s'.hands[u])
  {
    if t !in s.hands && s.TodoOf(t) != [] { OpHands(s, t); }
  }

  lemma {:induction false} StepHands(s: State, a: Action)
    requires StopsOk(s)
    ensures var s' := Step(s, a);
            s.rows.Keys <= s'.rows.Keys && forall u | u in s'.hands :: HandFrom(s, u, s'.hands[u])
  {
    match a
    case Act(t) => ActHands(s, t);
    case Look(t, id) => assert Step(s, a).hands == s.hands;
    case _ =>
  }

  lemma {:induction false} StepStore(s: State, a: Action, id: OrderId)
    requires id !in s.store && !Held(s, id)
    ensures id !in Step(s, a).store
  {
    NotHeld(s, id);
  }

  lemma {:induction false} SettledHands(s: State, a: Action, id: OrderId)
    requires StopsOk(s) && Settled(s, id)
    ensures Settled(Step(s, a), id)
  {
    NotHeld(s, id);
    StepHands(s, a);
    StepStore(s, a, id);
    forall u | u in Step(s, a).hands ensures Step(s, a).hands[u].order.id != id {
      assert HandFrom(s, u, Step(s, a).hands[u]);
    }
  }

  lemma {:induction false} StepSubs(s: State, a: Action)
    ensures var s' := Step(s, a);
            s'.subs == s.subs
            || (a.Act? && a.thread in s.hands && exists at: nat ::
                  s'.subs == s.subs + [Submission(s.hands[a.thread].order, s.hands[a.thread].triggered, at)])
  {
    if a.Act? && a.thread in s.hands {
      var s', h := Step(s, a), s.hands[a.thread];
      if s'.subs != s.subs {
        assert s'.subs == s.subs + [Submission(h.order, h.triggered, |s.tape|)];
      }
    }
  }

  lemma {:induction false} SettledStep(s: State, a: Action, id: OrderId)
    requires Inv(s) && Settled(s, id)
    ensures Settled(Step(s, a), id)
    ensures SubmittedId(Step(s, a), id) <==> SubmittedId(s, id)
  {
    var s' := Step(s, a);
    SettledHands(s, a, id);
    StepSubs(s, a);
    if s'.subs != s.subs {
      NotHeld(s, id);
      assert s'.subs[..|s.subs|] == s.subs;
      if SubmittedId(s, id) {
        var i :| 0 <= i < |s.subs| && s.subs[i].order.id == id;
        assert s'.subs[i].order.id == id;
      }
    }
  }

  lemma {:induction false} SettledForever(s: State, actions: seq<Action>, id: OrderId)
    requires Inv(s) && Settled(s, id)
    ensures Settled(Exec(s, actions), id)
    ensures SubmittedId(Exec(s, actions), id) <==> SubmittedId(s, id)
    decreases |actions|
  {
    if actions != [] {
      SettledStep(s, actions[0], id);
      InvStep(s, actions[0]);
      SettledForever(Step(s, actions[0]), actions[1..], id);
    }
  }

  /** `id` is live in no book. */
  ghost predicate NotLive(s: State, id: OrderId) {
    forall p | p in s.books :: !Live(s.books[p], id)
  }

  lemma {:induction false} SubmissionNotLive(s: State, t: nat, id: OrderId)
    requires Inv(s) && t in s.hands && !s.hands[t].ForStore() && s.hands[t].order.id != id && NotLive(s, id)
    ensures NotLive(ActHand(s, t), id)
  {
    var h := s.hands[t];
    var o, b := if h.triggered then Fired(h.order) else h.order, s.BookOf(h.order.pair);
    assert b.Valid() && !Live(b, id);
    if Live(Submitted(b, o).book, id) { SubmitIds(b, o, id); }
  }

  lemma {:induction false} CancelNotLive(s: State, t: nat, id: OrderId)
    requires Inv(s) && s.TodoOf(t) != [] && s.TodoOf(t)[0].CancelInBook? && NotLive(s, id)
    ensures NotLive(ActOp(s, t), id)
  {
    var cancelled := s.TodoOf(t)[0].id;
    if cancelled in s.rows && s.rows[cancelled] in s.books {
      var b := s.books[s.rows[cancelled]];
      if Live(AfterCancel(b, cancelled).book, id) { CancelIds(b, cancelled, id); }
    }
  }

  lemma {:induction false} OpBooks(s: State, t: nat)
    requires s.TodoOf(t) != [] && !s.TodoOf(t)[0].CancelInBook?
    ensures ActOp(s, t).books == s.books
  {
  }

  /** Only a submission and a cancel in a book change a book. */
  lemma {:induction false} BooksChange(s: State, a: Action)
    requires Step(s, a).books != s.books
    ensures a.Act?
    ensures if a.thread in s.hands then !s.hands[a.thread].ForStore()
            else s.TodoOf(a.thread) != [] && s.TodoOf(a.thread)[0].CancelInBook?
  {
    match a
    case Act(t) =>
      if t !in s.hands && s.TodoOf(t) != [] && !s.TodoOf(t)[0].CancelInBook? { OpBooks(s, t); }
    case Look(t, id) =>
      if Step(s, a) != s { LookUnmoved(s, t, id); }
    case _ =>
  }

  lemma {:induction false} NotLiveStep(s: State, a: Action, id: OrderId)
    requires Inv(s) && !Held(s, id) && NotLive(s, id)
    ensures NotLive(Step(s, a), id)
  {
    if Step(s, a).books != s.books {
      BooksChange(s, a);
      NotHeld(s, id);
      if a.thread in s.hands { SubmissionNotLive(s, a.thread, id); } else { CancelNotLive(s, a.thread, id); }
    }
  }

  lemma {:induction false} NotLiveForever(s: State, actions: seq<Action>, id: OrderId)
    requires Inv(s) && Settled(s, id) && NotLive(s, id)
    ensures NotLive(Exec(s, actions), id)
    decreases |actions|
  {
    if actions != [] {
      NotLiveStep(s, actions[0], id);
      SettledStep(s, actions[0], id);
      InvStep(s, actions[0]);
      NotLiveForever(Step(s, actions[0]), actions[1..], id);
    }
  }

  // ---------- When an order is gone for good ----------

  ghost predicate GoneAt(s: State, now: State, id: OrderId) {
    id !in now.store && (SubmittedId(now, id) <==> SubmittedId(s, id)) && NotLive(now, id)
  }

  /** From `s` on, whatever runs, `id` is never stored, never submitted again, and live in no book. */
  ghost predicate Gone(s: State, id: OrderId) {
    forall more: seq<Action> :: GoneAt(s, Exec(s, more), id)
  }

  lemma {:induction false} ExecOne(s: State, a: Action)
    ensures Exec(s, [a]) == Step(s, a)
  {
    assert [a][1..] == [];
    assert Exec(s, [a]) == Exec(Step(s, [a][0]), [a][1..]);
  }

  lemma {:induction false} ExecTwo(s: State, a: Action, b: Action)
    ensures Exec(s, [a, b]) == Step(Step(s, a), b)
  {
    assert [a, b] == [a] + [b];
    ExecAppend(s, [a], [b]);
    ExecOne(s, a);
    ExecOne(Step(s, a), b);
  }

  /** A thread with an order in hand stores or submits it in its next one or two steps. */
  lemma {:induction false} HandPlaces(s: State, u: nat) returns (more: seq<Action>)
    requires Inv(s) && u in s.hands
    ensures var id := s.hands[u].order.id;
            && !SubmittedId(s, id)
            && (id in Exec(s, more).store || SubmittedId(Exec(s, more), id))
  {
    var h := s.hands[u];
    if h.ForStore() && h.best.None? {
      more := [Act(u), Act(u)];
      ExecTwo(s, Act(u), Act(u));
      assert Step(s, Act(u)).hands[u].order == h.order;
    } else {
      more := [Act(u)];
      ExecOne(s, Act(u));
      if !h.ForStore() {
        assert Step(s, Act(u)).subs[|s.subs|].order.id == h.order.id;
      }
    }
  }

  /** Exactly the orders out of the store, out of every hand and out of every book are gone for good. */
  lemma {:induction false} GoneIff(s: State, id: OrderId)
    requires Inv(s) && id in s.rows
    ensures Gone(s, id) <==> Settled(s, id) && NotLive(s, id)
  {
    if Settled(s, id) && NotLive(s, id) {
      forall more: seq<Action> ensures GoneAt(s, Exec(s, more), id) {
        SettledForever(s, more, id);
        NotLiveForever(s, more, id);
      }
    } else if Held(s, id) {
      var u :| u in s.hands && s.hands[u].order.id == id;
      var more := HandPlaces(s, u);
      assert !GoneAt(s, Exec(s, more), id);
    } else {
      assert Exec(s, []) == s;
      assert !GoneAt(s, Exec(s, []), id);
    }
  }

  // ---------- The two steps of a cancel request ----------

  /**
   The step that takes an order out of the store ends it for good exactly when, at that moment, no handler has the
   order in hand and no book holds it.
   */
  lemma {:induction false} StoreRemovalFinalIff(s: State, t: nat, id: OrderId)
    requires Reachable(s) && t !in s.hands && s.TodoOf(t) != [] && s.TodoOf(t)[0] == DropStored(id) && id in s.rows
    ensures Gone(Step(s, Act(t)), id) <==> !Held(s, id) && NotLive(s, id)
  {
    InvReachable(s);
    InvStep(s, Act(t));
    var s' := Step(s, Act(t));
    assert s'.hands == s.hands && s'.rows == s.rows && s'.books == s.books && id !in s'.store;
    assert Held(s', id) <==> Held(s, id);
    GoneIff(s', id);
  }

  ghost predicate ByOthers(t: nat, actions: seq<Action>) {
    forall i | 0 <= i < |actions| :: actions[i].thread != t
  }

  /** Thread `t` has what it had: its work list, and a hand if it had one. */
  ghost predicate SameWork(s: State, s': State, t: nat) {
    && (t in s'.hands <==> t in s.hands) && (t in s'.todo <==> t in s.todo)
    && (t in s.todo ==> s'.todo[t] == s.todo[t])
    && (t in s.hands ==> s'.hands[t] == s.hands[t])
    && s.rows.Keys <= s'.rows.Keys
  }

  lemma {:induction false} OthersAct(s: State, u: nat, t: nat)
    requires u != t
    ensures SameWork(s, Step(s, Act(u)), t)
  {
    if u in s.hands {
      OthersActHand(s, u, t);
    } else if s.TodoOf(u) != [] {
      OthersActOp(s, u, t);
    }
  }

  lemma {:induction false} OthersActHand(s: State, u: nat, t: nat)
    requires u != t && u in s.hands
    ensures SameWork(s, ActHand(s, u), t)
  {
  }

  lemma {:induction false} OthersActOp(s: State, u: nat, t: nat)
    requires u != t && s.TodoOf(u) != []
    ensures SameWork(s, ActOp(s, u), t)
  {
  }

  lemma {:induction false} OthersKeep(s: State, a: Action, t: nat)
    requires a.thread != t
    ensures SameWork(s, Step(s, a), t)
  {
    match a
    case Act(u) => OthersAct(s, u, t);
    case Look(u, id) =>
    case _ =>
  }

  /** What other threads do leaves thread `t`'s work where it was. */
  lemma {:induction false} OthersKeepAll(s: State, actions: seq<Action>, t: nat)
    requires ByOthers(t, actions)
    ensures t in Exec(s, actions).hands <==> t in s.hands
    ensures t in s.hands ==> Exec(s, actions).hands[t] == s.hands[t]
    ensures Exec(s, actions).TodoOf(t) == s.TodoOf(t) && s.rows.Keys <= Exec(s, actions).rows.Keys
    decreases |actions|
  {
    if actions != [] {
      assert forall i | 0 <= i < |actions[1..]| :: actions[1..][i] == actions[i + 1];
      OthersKeep(s, actions[0], t);
      OthersKeepAll(Step(s, actions[0]), actions[1..], t);
    }
  }

  /** Thread `t` is about to run a cancel request for `id`. */
  ghost predicate Cancelling(s: State, t: nat, id: OrderId) {
    Reachable(s) && t !in s.hands && s.TodoOf(t) == [CancelInBook(id), DropStored(id)] && id in s.rows
  }

  /** Between the two steps of thread `t`'s cancel request, after `mid` by other threads. */
  function MidCancel(s: State, t: nat, mid: seq<Action>): State {
    Exec(Step(s, Act(t)), mid)
  }

  /** Once thread `t`'s cancel request is through, with `mid` by other threads in between. */
  function CancelDone(s: State, t: nat, mid: seq<Action>): State {
    Step(MidCancel(s, t, mid), Act(t))
  }

  lemma {:induction false} ReachableStep(s: State, a: Action)
    requires Reachable(s)
    ensures Reachable(Step(s, a))
  {
    ExecOne(s, a);
    ReachableExtends(s, [a]);
  }

  lemma {:induction false} BookStep(s: State, t: nat, id: OrderId)
    requires Cancelling(s, t, id)
    ensures var s' := Step(s, Act(t));
            && Reachable(s') && s'.TodoOf(t) == [DropStored(id)]
            && s'.hands == s.hands && s'.rows == s.rows && s'.subs == s.subs && s'.store == s.store
  {
    ReachableStep(s, Act(t));
    assert s.TodoOf(t)[1..] == [DropStored(id)];
  }

  /**
   A cancel request, with anything run by other threads between its two steps, ends its order for good exactly when
   no handler has the order in hand, and no book holds it, as the second step runs.
   */
  lemma {:induction false} CancelFinalIff(s: State, t: nat, mid: seq<Action>, id: OrderId)
    requires Cancelling(s, t, id) && ByOthers(t, mid)
    ensures var m := MidCancel(s, t, mid);
            Gone(CancelDone(s, t, mid), id) <==> !Held(m, id) && NotLive(m, id)
  {
    BookStep(s, t, id);
    var s' := Step(s, Act(t));
    ReachableExtends(s', mid);
    OthersKeepAll(s', mid, t);
    StoreRemovalFinalIff(MidCancel(s, t, mid), t, id);
  }

  // ---------- An order is live at most once, in the book of its pair ----------

  lemma {:induction false} InsertDistinct(side: Side, es: seq<Entry>, e: Entry)
    requires DistinctIds(es) && !Holds(es, e.order.id)
    ensures DistinctIds(Insert(side, es, e))
  {
    var r := Insert(side, es, e);
    if es == [] || Better(side, e.tick, es[0].tick) {
      assert forall i | 0 <= i < |es| :: es[i] in es;
    } else {
      assert es[0] in es;
      assert forall x | x in es[1..] :: x in es;
      InsertDistinct(side, es[1..], e);
      forall i, j | 0 <= i < j < |r| ensures r[i].order.id != r[j].order.id {
        if i == 0 && r[j].order.id == es[0].order.id {
          assert r[j] in Insert(side, es[1..], e);
          InsertIds(side, es[1..], e, es[0].order.id);
        }
      }
    }
  }

  lemma {:induction false} SuffixDistinct(r: seq<Entry>, es: seq<Entry>)
    requires DistinctIds(es) && BookRuns.EntrySuffix(r, es)
    ensures DistinctIds(r)
  {
    var off := |es| - |r|;
    forall i, j | 0 <= i < j < |r| ensures r[i].order.id != r[j].order.id {
      assert es[off + i].order.id != es[off + j].order.id;
    }
  }

  lemma {:induction false} StrikeDistinct(es: seq<Entry>, id: OrderId)
    requires DistinctIds(es)
    ensures DistinctIds(Strike(es, id)) && !Holds(Strike(es, id), id)
  {
    if Holds(es, id) {
      var k := StrikePresent(es, id);
      var r := es[..k] + es[k + 1..];
      forall i, j | 0 <= i < j < |r| ensures r[i].order.id != r[j].order.id {
        assert es[if i < k then i else i + 1].order.id != es[if j < k then j else j + 1].order.id;
      }
      forall i | 0 <= i < |r| ensures r[i].order.id != id {
        assert if i < k then es[i].order.id != es[k].order.id else es[k].order.id != es[i + 1].order.id;
      }
    } else {
      StrikeAbsent(es, id);
    }
  }

  ghost predicate Disjoint(a: seq<Entry>, b: seq<Entry>) {
    forall id :: !(Holds(a, id) && Holds(b, id))
  }

  /** No id stands twice in a book. */
  ghost predicate OneEach(f: FlatBook) {
    DistinctIds(f.bids) && DistinctIds(f.asks) && Disjoint(f.bids, f.asks)
  }

  lemma {:induction false} RestOneEach(f: FlatBook, o: Order)
    requires OneEach(f) && !Holds(f.bids, o.id) && !Holds(f.asks, o.id)
    ensures OneEach(FlatRest(f, o))
  {
    var e := Entry(PriceToTicks(o.price), o);
    var own := f.Side(o.side);
    InsertDistinct(o.side, own, e);
    forall id | Holds(Insert(o.side, own, e), id) ensures !Holds(f.Side(Opposite(o.side)), id) {
      InsertIds(o.side, own, e, id);
    }
  }

  lemma {:induction false} MatchOneEach(f: FlatBook, o: Order)
    requires OneEach(f) && !Holds(f.bids, o.id) && !Holds(f.asks, o.id)
    ensures OneEach(FlatMatched(f, o).book)
  {
    var opp := Opposite(o.side);
    var es := f.Side(opp);
    var m := Greedy(Visible(o), es);
    BookRuns.GreedySuffix(Visible(o), es);
    BookRuns.GreedyKeepsTerms(Visible(o), es);
    SuffixDistinct(m.rest, es);
    forall id | Holds(m.rest, id) ensures Holds(es, id) {
      SuffixIds(m.rest, es, id);
    }
    var after := f.WithSide(opp, m.rest).(last := LastPrice(f.last, m.trades));
    if RestsAfter(o, m.taker) { RestOneEach(after, Unmasked(o, m.taker)); }
  }

  lemma {:induction false} SubmitOneEach(b: Book, o: Order)
    requires b.Valid() && OneEach(Flatten(b)) && !Live(b, o.id)
    ensures OneEach(Flatten(Submitted(b, o).book))
  {
    if PhantomBlocks(b, o) {
      PhantomTurnsAway(b, o);
    } else {
      SubmitRefinesFlat(b, o);
      if o.orderType.PostOnly? {
        RestOneEach(Flatten(b), o.(orderType := Limit));
      } else {
        MatchOneEach(Flatten(b), o);
      }
    }
  }

  lemma {:induction false} CancelOneEach(b: Book, id: OrderId)
    requires b.Valid() && OneEach(Flatten(b))
    ensures OneEach(Flatten(AfterCancel(b, id).book)) && !Live(AfterCancel(b, id).book, id)
  {
    CancelRefinesFlat(b, id);
    StrikeDistinct(Flat(b.bids), id);
    StrikeDistinct(Flat(b.asks), id);
    forall x | Holds(Strike(Flat(b.bids), id), x) ensures !Holds(Strike(Flat(b.asks), id), x) {
      StrikeIds(Flat(b.bids), id, x);
      if Holds(Strike(Flat(b.asks), id), x) { StrikeIds(Flat(b.asks), id, x); }
    }
  }

  ghost predicate SitedIn(s: State, o: Order) {
    o.id in s.rows && s.rows[o.id] == o.pair
  }

  ghost predicate BookSited(s: State, pair: string) {
    OneEach(Flatten(s.BookOf(pair))) && forall id | Live(s.BookOf(pair), id) :: id in s.rows && s.rows[id] == pair
  }

  /** Every order stored or in hand has the pair of its row. */
  ghost predicate OrdersSited(s: State) {
    && (forall id | id in s.store :: SitedIn(s, s.store[id].order))
    && (forall t | t in s.hands :: SitedIn(s, s.hands[t].order))
  }

  /** Every order is live, once, only in the book of its row's pair. */
  ghost predicate BooksSited(s: State) {
    forall p | p in s.books :: BookSited(s, p)
  }

  ghost predicate Sited(s: State) {
    OrdersSited(s) && BooksSited(s)
  }

  lemma {:induction false} SubmissionSited(s: State, t: nat)
    requires Inv(s) && Sited(s) && t in s.hands && !s.hands[t].ForStore()
    ensures BooksSited(ActHand(s, t))
  {
    var h, s' := s.hands[t], ActHand(s, t);
    var pair := h.order.pair;
    var o, b := if h.triggered then Fired(h.order) else h.order, s.BookOf(pair);
    assert !Live(b, o.id);
    SubmitOneEach(b, o);
    forall id | Live(Submitted(b, o).book, id) ensures id in s.rows && s.rows[id] == pair {
      SubmitIds(b, o, id);
    }
    OneBookSited(s, s', pair, Submitted(b, o).book);
  }

  lemma {:induction false} CancelSited(s: State, t: nat)
    requires Inv(s) && Sited(s) && s.TodoOf(t) != [] && s.TodoOf(t)[0].CancelInBook?
    ensures BooksSited(ActOp(s, t))
  {
    var s', id := ActOp(s, t), s.TodoOf(t)[0].id;
    if id in s.rows && s.rows[id] in s.books {
      var pair := s.rows[id];
      var b := s.books[pair];
      assert BookSited(s, pair);
      CancelOneEach(b, id);
      forall x | Live(AfterCancel(b, id).book, x) ensures x in s.rows && s.rows[x] == pair {
        CancelIds(b, id, x);
      }
      OneBookSited(s, s', pair, AfterCancel(b, id).book);
    } else {
      SameBooksSited(s, s');
    }
  }

  /** A step that changes one book keeps the others as they were. */
  lemma {:induction false} OneBookSited(s: State, s': State, pair: string, b: Book)
    requires BooksSited(s) && s'.books == s.books[pair := b] && s'.rows == s.rows
    requires OneEach(Flatten(b)) && forall id | Live(b, id) :: id in s.rows && s.rows[id] == pair
    ensures BooksSited(s')
  {
    forall p | p in s'.books ensures BookSited(s', p) {
      if p != pair { assert BookSited(s, p) && s'.BookOf(p) == s.BookOf(p); }
    }
  }

  lemma {:induction false} SameBooksSited(s: State, s': State)
    requires BooksSited(s) && s'.books == s.books
    requires forall id | id in s.rows :: id in s'.rows && s'.rows[id] == s.rows[id]
    ensures BooksSited(s')
  {
    forall p | p in s'.books ensures BookSited(s', p) {
      assert BookSited(s, p) && s'.BookOf(p) == s.BookOf(p);
    }
  }

  lemma {:induction false} UnmovedSited(s: State, s': State)
    requires OrdersSited(s) && Unmoved(s, s')
    ensures OrdersSited(s')
  {
  }

  /** Whatever becomes of a hand, its order has the pair of its row. */
  lemma {:induction false} HandMovesSited(s: State, s': State, t: nat)
    requires OrdersSited(s) && t in s.hands && s'.rows == s.rows && s'.hands == s.hands - {t}
    requires forall id | id in s'.store ::
               s'.store[id].order == s.hands[t].order || (id in s.store && s'.store[id] == s.store[id])
    ensures OrdersSited(s')
  {
    assert SitedIn(s, s.hands[t].order);
  }

  lemma {:induction false} HandOrdersSited(s: State, t: nat)
    requires OrdersSited(s) && t in s.hands
    ensures OrdersSited(ActHand(s, t))
  {
    if s.hands[t].ForStore() && s.hands[t].best.None? {
      UnmovedSited(s, ActHand(s, t));
    } else {
      HandMovesSited(s, ActHand(s, t), t);
    }
  }

  lemma {:induction false} HandSited(s: State, t: nat)
    requires Inv(s) && Sited(s) && t in s.hands
    ensures Sited(ActHand(s, t))
  {
    HandOrdersSited(s, t);
    if s.hands[t].ForStore() { SameBooksSited(s, ActHand(s, t)); } else { SubmissionSited(s, t); }
  }

  lemma {:induction false} OpOrdersSited(s: State, t: nat)
    requires OrdersSited(s) && s.TodoOf(t) != []
    ensures OrdersSited(ActOp(s, t))
  {
    var s' := ActOp(s, t);
    match s.TodoOf(t)[0]
    case Take(id) =>
      if id in s.store { assert SitedIn(s, s.store[id].order) && s'.rows == s.rows; }
    case DropStored(id) =>
      assert s'.rows == s.rows && s'.hands == s.hands;
    case _ =>
      assert s'.rows == s.rows && s'.hands == s.hands && s'.store == s.store;
  }

  lemma {:induction false} OpSited(s: State, t: nat)
    requires Inv(s) && Sited(s) && s.TodoOf(t) != []
    ensures Sited(ActOp(s, t))
  {
    OpOrdersSited(s, t);
    if s.TodoOf(t)[0].CancelInBook? { CancelSited(s, t); } else { SameBooksSited(s, ActOp(s, t)); }
  }

  lemma {:induction false} CreateSited(s: State, t: nat, o: Order)
    requires Inv(s) && Sited(s)
    ensures Sited(Step(s, Create(t, o)))
  {
    SameBooksSited(s, Step(s, Create(t, o)));
  }

  lemma {:induction false} LookSited(s: State, t: nat, id: OrderId)
    requires Sited(s) && s.TodoOf(t) != [] && s.TodoOf(t)[0].Collect? && id in s.store
    ensures Sited(LookAt(s, t, id))
  {
    var s' := LookAt(s, t, id);
    LookUnmoved(s, t, id);
    UnmovedSited(s, s');
    SameBooksSited(s, s');
  }

  lemma {:induction false} CrashSited(s: State, t: nat)
    requires Sited(s)
    ensures Sited(Step(s, Crash(t)))
  {
    SameBooksSited(s, Step(s, Crash(t)));
  }

  lemma {:induction false} QuietSited(s: State, a: Action)
    requires Sited(s) && (a.RequestCancel? || a.LookupFails?)
    ensures Sited(Step(s, a))
  {
    UnmovedSited(s, Step(s, a));
    SameBooksSited(s, Step(s, a));
  }

  lemma {:induction false} SitedStep(s: State, a: Action)
    requires Inv(s) && Sited(s)
    ensures Sited(Step(s, a))
  {
    match a
    case Act(t) =>
      if t in s.hands { HandSited(s, t); } else if s.TodoOf(t) != [] { OpSited(s, t); }
    case Look(t, id) =>
      if t !in s.hands && s.TodoOf(t) != [] && s.TodoOf(t)[0].Collect? && id in s.store { LookSited(s, t, id); }
    case Create(t, o) => CreateSited(s, t, o);
    case Crash(t) => CrashSited(s, t);
    case _ => QuietSited(s, a);
  }

  lemma {:induction false} SitedExec(s: State, actions: seq<Action>)
    requires Inv(s) && Sited(s)
    ensures Sited(Exec(s, actions))
    decreases |actions|
  {
    if actions != [] {
      InvStep(s, actions[0]);
      SitedStep(s, actions[0]);
      SitedExec(Step(s, actions[0]), actions[1..]);
    }
  }

  lemma {:induction false} SitedReachable(s: State)
    requires Reachable(s)
    ensures Sited(s)
  {
    var actions :| s == Exec(INITIAL, actions);
    InvInitial();
    SitedExec(INITIAL, actions);
  }

  /** A cancel in a book leaves its order live nowhere. */
  lemma {:induction false} BookStepNotLive(s: State, t: nat, id: OrderId)
    requires Reachable(s) && t !in s.hands && s.TodoOf(t) != [] && s.TodoOf(t)[0] == CancelInBook(id)
    ensures NotLive(Step(s, Act(t)), id)
  {
    InvReachable(s);
    SitedReachable(s);
    var s' := Step(s, Act(t));
    if id in s.rows && s.rows[id] in s.books {
      assert BookSited(s, s.rows[id]);
      CancelOneEach(s.books[s.rows[id]], id);
    }
    forall p | p in s'.books ensures !Live(s'.books[p], id) {
      if id !in s.rows || p != s.rows[id] { assert BookSited(s, p) && s'.books[p] == s.BookOf(p); }
    }
  }
}
