/**
 Custody of user funds: deposit credits, withdrawals and their routing, over a database whose statements and
 transactions are atomic and a message queue that may lose, repeat and reorder.
 */
module Custody {
  import opened Prelude

  const MAX_U64 := 0xFFFF_FFFF_FFFF_FFFF

  /** Withdrawals of this amount or more wait for the cold wallet. */
  const COLD_THRESHOLD := 10_000

  datatype Status = Queued | PendingColdWallet | Broadcasted | Approved

  datatype Deposit = Deposit(user: string, addr: string, amount: int, confirmed: bool)

  datatype Withdrawal = Withdrawal(id: nat, user: string, amount: nat, status: Status)

  datatype Event = Event(id: nat, amount: nat)

  datatype Vault = Vault(
    deposits: seq<Deposit>,
    balances: map<string, nat>,
    withdrawals: seq<Withdrawal>,
    sent: seq<Event>,
    buffer: seq<Event>)

  const EMPTY_VAULT := Vault([], map[], [], [], [])

  /** `to_u64().unwrap_or_default()`. */
  function ToU64(amount: int): nat {
    if 0 <= amount <= MAX_U64 then amount else 0
  }

  function SaturatingAdd(x: nat, y: nat): nat {
    if x + y <= MAX_U64 then x + y else MAX_U64
  }

  function BalanceOf(v: Vault, user: string): nat {
    if user in v.balances then v.balances[user] else 0
  }

  // ---------- Statements ----------

  /** The user of the open deposit at `addr`. */
  function OpenDeposit(ds: seq<Deposit>, addr: string): Option<string> {
    if ds == [] then None
    else if ds[0].addr == addr && !ds[0].confirmed then Some(ds[0].user)
    else OpenDeposit(ds[1..], addr)
  }

  /** Confirms every open deposit at `addr`. */
  function Confirm(ds: seq<Deposit>, addr: string, amount: int): seq<Deposit> {
    if ds == [] then []
    else
      [if ds[0].addr == addr && !ds[0].confirmed then ds[0].(amount := amount, confirmed := true) else ds[0]]
      + Confirm(ds[1..], addr, amount)
  }

  function SetStatus(ws: seq<Withdrawal>, id: nat, status: Status): (r: seq<Withdrawal>)
    ensures |r| == |ws|
    ensures forall i | 0 <= i < |ws| :: r[i] == if ws[i].id == id then ws[i].(status := status) else ws[i]
  {
    seq(|ws|, i requires 0 <= i < |ws| => if ws[i].id == id then ws[i].(status := status) else ws[i])
  }

  function Approval(ws: seq<Withdrawal>, id: nat): (r: seq<Withdrawal>)
    ensures |r| == |ws|
    ensures forall i | 0 <= i < |ws| ::
              r[i] == if ws[i].id == id && ws[i].status.PendingColdWallet? then ws[i].(status := Approved) else ws[i]
  {
    seq(|ws|, i requires 0 <= i < |ws| =>
      if ws[i].id == id && ws[i].status.PendingColdWallet? then ws[i].(status := Approved) else ws[i])
  }

  ghost predicate AddressKnown(v: Vault, addr: string) {
    exists i :: 0 <= i < |v.deposits| && v.deposits[i].addr == addr
  }

  ghost predicate IdKnown(v: Vault, id: nat) {
    exists i :: 0 <= i < |v.withdrawals| && v.withdrawals[i].id == id
  }

  // ---------- Transactions ----------

  /** A new deposit address; the column is unique. */
  ghost function Opened(v: Vault, user: string, addr: string): Vault {
    if AddressKnown(v, addr) then v else v.(deposits := v.deposits + [Deposit(user, addr, 0, false)])
  }

  function Credited(v: Vault, addr: string, amount: int): Vault {
    match OpenDeposit(v.deposits, addr)
    case None => v
    case Some(user) =>
      v.(deposits := Confirm(v.deposits, addr, amount),
         balances := v.balances[user := SaturatingAdd(BalanceOf(v, user), ToU64(amount))])
  }

  datatype Reply = NotFound | Conflict | Accepted

  function WithdrawReply(v: Vault, user: string, amount: nat): Reply {
    if user !in v.balances then NotFound
    else if v.balances[user] < amount then Conflict
    else Accepted
  }

  /** The debit, the row and, once committed, the event. */
  function Withdrawn(v: Vault, user: string, amount: nat, id: nat): Vault {
    if WithdrawReply(v, user, amount) != Accepted then v
    else v.(balances := v.balances[user := v.balances[user] - amount],
            withdrawals := v.withdrawals + [Withdrawal(id, user, amount, Queued)],
            sent := v.sent + [Event(id, amount)])
  }

  function Route(amount: nat): Status {
    if amount >= COLD_THRESHOLD then PendingColdWallet else Broadcasted
  }

  /** Routes events one after the other. */
  function Routed(ws: seq<Withdrawal>, items: seq<Event>): seq<Withdrawal> {
    if items == [] then ws
    else
      var before := Routed(ws, items[..|items| - 1]);
      var e := items[|items| - 1];
      SetStatus(before, e.id, Route(e.amount))
  }

  /** A flush takes the whole buffer and updates rows for the first `done` events; a database error loses the others. */
  function Flushed(v: Vault, done: nat): Vault {
    var n := if done <= |v.buffer| then done else |v.buffer|;
    v.(withdrawals := Routed(v.withdrawals, v.buffer[..n]), buffer := [])
  }

  // ---------- What the services do, row by row ----------

  /** Event `k` of `items` names row `id`, and no later one does. */
  ghost predicate NamesLast(items: seq<Event>, k: nat, id: nat) {
    k < |items| && items[k].id == id && forall j | k < j < |items| :: items[j].id != id
  }

  /**
   A flush that gets through the first `done` events of the buffer: a row they do not name stays; a row they name is
   broadcast or waits for the cold wallet as the last of them says.
   */
  ghost predicate FlushedRows(v: Vault, v': Vault, done: nat) {
    var items := v.buffer[..if done <= |v.buffer| then done else |v.buffer|];
    && v' == v.(withdrawals := v'.withdrawals, buffer := [])
    && |v'.withdrawals| == |v.withdrawals|
    && forall i | 0 <= i < |v.withdrawals| ::
         var w := v.withdrawals[i];
         && ((forall e | e in items :: e.id != w.id) ==> v'.withdrawals[i] == w)
         && (forall k: nat | NamesLast(items, k, w.id) ::
               v'.withdrawals[i] == w.(status := if items[k].amount < 10000 then Broadcasted else PendingColdWallet))
  }

  /**
   A credit for `received`: nothing without an open deposit at `addr`; else every open one there is confirmed with that
   amount, and the first one's user gains it, counted as nothing outside 64 bits and stopping at the largest balance.
   */
  ghost predicate CreditedRows(v: Vault, v': Vault, addr: string, received: int) {
    && v' == v.(deposits := v'.deposits, balances := v'.balances)
    && |v'.deposits| == |v.deposits|
    && (forall i | 0 <= i < |v.deposits| ::
          v'.deposits[i] == if v.deposits[i].addr == addr && !v.deposits[i].confirmed
                            then Deposit(v.deposits[i].user, addr, received, true) else v.deposits[i])
    && ((forall i | 0 <= i < |v.deposits| :: v.deposits[i].addr != addr || v.deposits[i].confirmed) ==> v' == v)
    && forall i: nat | FirstOpen(v.deposits, addr, i) ::
         var user := v.deposits[i].user;
         var gained := BalanceOf(v, user) + if 0 <= received <= 18446744073709551615 then received else 0;
         v'.balances == v.balances[user := if gained <= 18446744073709551615 then gained else 18446744073709551615]
  }

  ghost predicate FirstOpen(ds: seq<Deposit>, addr: string, i: nat) {
    && i < |ds| && ds[i].addr == addr && !ds[i].confirmed
    && forall j | 0 <= j < i :: ds[j].addr != addr || ds[j].confirmed
  }

  /** A withdrawal: refused without a balance row or with too little on it; else debited, recorded and announced. */
  ghost predicate WithdrawnRows(v: Vault, v': Vault, user: string, amount: nat, id: nat, reply: Reply) {
    if user !in v.balances then reply == NotFound && v' == v
    else if v.balances[user] < amount then reply == Conflict && v' == v
    else
      && reply == Accepted
      && v'.balances == v.balances[user := v.balances[user] - amount]
      && v'.withdrawals == v.withdrawals + [Withdrawal(id, user, amount, Queued)]
      && v'.sent == v.sent + [Event(id, amount)]
      && v'.deposits == v.deposits && v'.buffer == v.buffer
  }

  lemma {:induction false} NamesLastBefore(before: seq<Event>, last: Event, k: nat, id: nat)
    requires NamesLast(before + [last], k, id)
    ensures if last.id == id then k == |before| else NamesLast(before, k, id)
  {
    var items := before + [last];
    assert items[|before|] == last;
    assert forall j | 0 <= j < |before| :: items[j] == before[j];
  }

  lemma {:induction false} RoutedUnnamed(ws: seq<Withdrawal>, items: seq<Event>, i: nat)
    requires i < |ws| && forall e | e in items :: e.id != ws[i].id
    ensures |Routed(ws, items)| == |ws| && Routed(ws, items)[i] == ws[i]
  {
    if items != [] {
      assert items[|items| - 1] in items;
      RoutedUnnamed(ws, items[..|items| - 1], i);
    }
  }

  lemma {:induction false} RoutedNamed(ws: seq<Withdrawal>, items: seq<Event>, i: nat, k: nat)
    requires i < |ws| && NamesLast(items, k, ws[i].id)
    ensures |Routed(ws, items)| == |ws|
    ensures Routed(ws, items)[i] ==
            ws[i].(status := if items[k].amount < 10000 then Broadcasted else PendingColdWallet)
  {
    var before, last := items[..|items| - 1], items[|items| - 1];
    assert items == before + [last];
    NamesLastBefore(before, last, k, ws[i].id);
    RoutedShape(ws, before);
    if last.id != ws[i].id { RoutedNamed(ws, before, i, k); }
  }

  lemma {:induction false} FlushedMeans(v: Vault, done: nat)
    ensures FlushedRows(v, Flushed(v, done), done)
  {
    var items := v.buffer[..if done <= |v.buffer| then done else |v.buffer|];
    RoutedShape(v.withdrawals, items);
    forall i | 0 <= i < |v.withdrawals|
      ensures var w, w' := v.withdrawals[i], Flushed(v, done).withdrawals[i];
              && ((forall e | e in items :: e.id != w.id) ==> w' == w)
              && (forall k: nat | NamesLast(items, k, w.id) ::
                    w' == w.(status := if items[k].amount < 10000 then Broadcasted else PendingColdWallet))
    {
      if forall e | e in items :: e.id != v.withdrawals[i].id { RoutedUnnamed(v.withdrawals, items, i); }
      forall k: nat | NamesLast(items, k, v.withdrawals[i].id)
        ensures Flushed(v, done).withdrawals[i] ==
                v.withdrawals[i].(status := if items[k].amount < 10000 then Broadcasted else PendingColdWallet)
      {
        RoutedNamed(v.withdrawals, items, i, k);
      }
    }
  }

  lemma {:induction false} OpenDepositFirst(ds: seq<Deposit>, addr: string)
    ensures OpenDeposit(ds, addr).None? <==> forall i | 0 <= i < |ds| :: ds[i].addr != addr || ds[i].confirmed
    ensures forall i: nat | FirstOpen(ds, addr, i) :: OpenDeposit(ds, addr) == Some(ds[i].user)
  {
    if ds != [] && (ds[0].addr != addr || ds[0].confirmed) {
      OpenDepositFirst(ds[1..], addr);
      assert forall i | 0 < i < |ds| :: ds[i] == ds[1..][i - 1];
      forall i: nat | FirstOpen(ds, addr, i) ensures OpenDeposit(ds, addr) == Some(ds[i].user) {
        assert FirstOpen(ds[1..], addr, i - 1);
      }
    }
  }

  lemma {:induction false} CreditedMeans(v: Vault, addr: string, received: int)
    ensures CreditedRows(v, Credited(v, addr, received), addr, received)
  {
    OpenDepositFirst(v.deposits, addr);
    ConfirmShape(v.deposits, addr, received);
  }

  // ---------- The services ----------

  class Services {
    var deposits: seq<Deposit>
    var balances: map<string, nat>
    var withdrawals: seq<Withdrawal>
    var sent: seq<Event>
    var buffer: seq<Event>

    function State(): Vault
      reads this
    {
      Vault(deposits, balances, withdrawals, sent, buffer)
    }

    method CreditDeposit(addr: string, amount: int)
      modifies this
      ensures State() == Credited(old(State()), addr, amount)
      ensures CreditedRows(old(State()), State(), addr, amount)
    {
      CreditedMeans(State(), addr, amount);
      var deposit := OpenDeposit(deposits, addr);
      if deposit.None? {
        return;
      }
      var user := deposit.value;
      deposits := Confirm(deposits, addr, amount);
      var add := ToU64(amount);
      if user in balances {
        balances := balances[user := SaturatingAdd(balances[user], add)];
      } else {
        balances := balances[user := add];
      }
    }

    method Withdraw(user: string, amount: nat, id: nat) returns (reply: Reply)
      modifies this
      ensures reply == WithdrawReply(old(State()), user, amount)
      ensures State() == Withdrawn(old(State()), user, amount, id)
      ensures WithdrawnRows(old(State()), State(), user, amount, id, reply)
    {
      if user !in balances {
        return NotFound;
      }
      var current := balances[user];
      if current < amount {
        return Conflict;
      }
      var remaining := current - amount;
      balances := balances[user := remaining];
      withdrawals := withdrawals + [Withdrawal(id, user, amount, Queued)];
      sent := sent + [Event(id, amount)];
      return Accepted;
    }

    /** `done` is how many row updates succeed before a database error, if there is one. */
    method FlushWithdrawals(done: nat)
      modifies this
      ensures State() == Flushed(old(State()), done)
      ensures FlushedRows(old(State()), State(), done)
    {
      FlushedMeans(State(), done);
      if buffer == [] {
        return;
      }
      var items := buffer;
      buffer := [];
      var i := 0;
      while i < |items| && i < done
        invariant 0 <= i <= |items| && i <= done
        invariant withdrawals == Routed(old(withdrawals), items[..i])
        invariant buffer == [] && unchanged(`deposits) && unchanged(`balances) && unchanged(`sent)
      {
        var item := items[i];
        assert items[..i + 1][..i] == items[..i];
        if item.amount >= COLD_THRESHOLD {
          withdrawals := SetStatus(withdrawals, item.id, PendingColdWallet);
        } else {
          withdrawals := SetStatus(withdrawals, item.id, Broadcasted);
        }
        i := i + 1;
      }
    }
  }

  // ---------- Runs ----------

  datatype Action =
    | OpenAddress(user: string, addr: string)
    | Credit(addr: string, received: int)
    | RequestWithdrawal(user: string, amount: nat, id: nat)
    | Receive(k: nat)
    | Flush(done: nat)
    | Approve(id: nat)

  /** `Receive(k)` delivers the `k`-th event ever sent: any event, in any order, any number of times or never. */
  ghost function Step(v: Vault, a: Action): Vault {
    match a
    case OpenAddress(user, addr) => Opened(v, user, addr)
    case Credit(addr, received) => Credited(v, addr, received)
    case RequestWithdrawal(user, amount, id) => if IdKnown(v, id) then v else Withdrawn(v, user, amount, id)
    case Receive(k) => if k < |v.sent| then v.(buffer := v.buffer + [v.sent[k]]) else v
    case Flush(done) => Flushed(v, done)
    case Approve(id) => v.(withdrawals := Approval(v.withdrawals, id))
  }

  ghost function Exec(v: Vault, actions: seq<Action>): Vault
    decreases |actions|
  {
    if actions == [] then v else Exec(Step(v, actions[0]), actions[1..])
  }

  function CreditsOf(ds: seq<Deposit>, user: string): nat {
    if ds == [] then 0
    else (if ds[0].user == user && ds[0].confirmed then ToU64(ds[0].amount) else 0) + CreditsOf(ds[1..], user)
  }

  function WithdrawalsOf(ws: seq<Withdrawal>, user: string): nat {
    if ws == [] then 0 else (if ws[0].user == user then ws[0].amount else 0) + WithdrawalsOf(ws[1..], user)
  }

  ghost predicate UniqueAddresses(ds: seq<Deposit>) {
    forall i, j | 0 <= i < j < |ds| :: ds[i].addr != ds[j].addr
  }

  ghost predicate UniqueIds(ws: seq<Withdrawal>) {
    forall i, j | 0 <= i < j < |ws| :: ws[i].id != ws[j].id
  }

  /** An event names a row and carries that row's amount. */
  ghost predicate EventOk(ws: seq<Withdrawal>, e: Event) {
    forall i | 0 <= i < |ws| && ws[i].id == e.id :: ws[i].amount == e.amount
  }

  ghost predicate EventsOk(v: Vault) {
    && (forall e | e in v.sent :: EventOk(v.withdrawals, e) && IdKnown(v, e.id))
    && (forall e | e in v.buffer :: e in v.sent)
  }

  /** Hot-wallet rows are below the threshold; cold-wallet and approved rows are at or above it. */
  ghost predicate RoutedByThreshold(ws: seq<Withdrawal>) {
    forall i | 0 <= i < |ws| ::
      && (ws[i].status.Broadcasted? ==> ws[i].amount < COLD_THRESHOLD)
      && (ws[i].status.PendingColdWallet? || ws[i].status.Approved? ==> ws[i].amount >= COLD_THRESHOLD)
  }

  /** Balance plus withdrawals never exceeds the credits, and equals them while they fit a `u64`. */
  ghost predicate Solvent(v: Vault, user: string) {
    var held := BalanceOf(v, user) + WithdrawalsOf(v.withdrawals, user);
    && held <= CreditsOf(v.deposits, user)
    && (CreditsOf(v.deposits, user) <= MAX_U64 ==> held == CreditsOf(v.deposits, user))
  }

  ghost predicate Inv(v: Vault) {
    && UniqueAddresses(v.deposits) && UniqueIds(v.withdrawals) && EventsOk(v) && RoutedByThreshold(v.withdrawals)
    && forall user :: Solvent(v, user)
  }

  lemma {:induction false} CreditsAppend(ds: seq<Deposit>, d: Deposit, user: string)
    ensures CreditsOf(ds + [d], user) == CreditsOf(ds, user) + CreditsOf([d], user)
  {
    if ds == [] {
      assert ds + [d] == [d];
    } else {
      assert (ds + [d])[1..] == ds[1..] + [d];
      CreditsAppend(ds[1..], d, user);
    }
  }

  lemma {:induction false} WithdrawalsAppend(ws: seq<Withdrawal>, w: Withdrawal, user: string)
    ensures WithdrawalsOf(ws + [w], user) == WithdrawalsOf(ws, user) + (if w.user == user then w.amount else 0)
  {
    if ws == [] {
      assert ws + [w] == [w] && [w][1..] == [];
    } else {
      assert (ws + [w])[1..] == ws[1..] + [w];
      WithdrawalsAppend(ws[1..], w, user);
    }
  }

  /** Rows that agree on user and amount sum alike. */
  lemma {:induction false} SameAmounts(a: seq<Withdrawal>, b: seq<Withdrawal>, user: string)
    requires |a| == |b| && forall i | 0 <= i < |a| :: a[i].user == b[i].user && a[i].amount == b[i].amount
    ensures WithdrawalsOf(a, user) == WithdrawalsOf(b, user)
  {
    if a != [] {
      assert forall i | 0 <= i < |a[1..]| :: a[1..][i] == a[i + 1] && b[1..][i] == b[i + 1];
      SameAmounts(a[1..], b[1..], user);
    }
  }

  lemma {:induction false} ConfirmShape(ds: seq<Deposit>, addr: string, amount: int)
    ensures var r := Confirm(ds, addr, amount);
            |r| == |ds| && forall i | 0 <= i < |ds| ::
              r[i] == if ds[i].addr == addr && !ds[i].confirmed
                      then ds[i].(amount := amount, confirmed := true) else ds[i]
  {
    if ds != [] {
      ConfirmShape(ds[1..], addr, amount);
    }
  }

  lemma {:induction false} NothingToConfirm(ds: seq<Deposit>, addr: string, amount: int)
    requires forall i | 0 <= i < |ds| :: ds[i].addr != addr || ds[i].confirmed
    ensures OpenDeposit(ds, addr) == None && Confirm(ds, addr, amount) == ds
  {
    if ds != [] {
      assert forall i | 0 <= i < |ds[1..]| :: ds[1..][i] == ds[i + 1];
      NothingToConfirm(ds[1..], addr, amount);
    }
  }

  /** Confirming the one open deposit at an address adds its amount to its user's credits and to nobody else's. */
  lemma {:induction false} ConfirmCredits(ds: seq<Deposit>, addr: string, amount: int, user: string)
    requires UniqueAddresses(ds) && OpenDeposit(ds, addr).Some?
    ensures CreditsOf(Confirm(ds, addr, amount), user) ==
            CreditsOf(ds, user) + if OpenDeposit(ds, addr).value == user then ToU64(amount) else 0
  {
    var r := Confirm(ds, addr, amount);
    assert r[1..] == Confirm(ds[1..], addr, amount);
    if ds[0].addr == addr && !ds[0].confirmed {
      forall i | 0 <= i < |ds[1..]| ensures ds[1..][i].addr != addr {
        assert ds[0].addr != ds[i + 1].addr;
      }
      NothingToConfirm(ds[1..], addr, amount);
    } else {
      ConfirmCredits(ds[1..], addr, amount, user);
    }
  }

  lemma {:induction false} CreditedKeeps(v: Vault, addr: string, amount: int)
    requires Inv(v)
    ensures Inv(Credited(v, addr, amount))
  {
    var v' := Credited(v, addr, amount);
    if OpenDeposit(v.deposits, addr).Some? {
      ConfirmShape(v.deposits, addr, amount);
      forall user ensures Solvent(v', user) {
        assert Solvent(v, user);
        ConfirmCredits(v.deposits, addr, amount, user);
      }
      assert forall e | e in v.sent :: IdKnown(v', e.id) by {
        forall e | e in v.sent ensures IdKnown(v', e.id) {
          assert IdKnown(v, e.id);
        }
      }
    }
  }

  lemma {:induction false} OpenedKeeps(v: Vault, user: string, addr: string)
    requires Inv(v)
    ensures Inv(Opened(v, user, addr))
  {
    var v' := Opened(v, user, addr);
    if v' != v {
      var d := Deposit(user, addr, 0, false);
      forall u ensures Solvent(v', u) {
        assert Solvent(v, u);
        CreditsAppend(v.deposits, d, u);
        assert CreditsOf([d], u) == 0 + CreditsOf([], u);
      }
      SameRowsEvents(v, v');
    }
  }

  /** Events stay sound when withdrawals keep their ids and amounts and the queue only forgets or repeats. */
  lemma {:induction false} SameRowsEvents(v: Vault, v': Vault)
    requires EventsOk(v) && v'.sent == v.sent && (forall e | e in v'.buffer :: e in v.sent)
    requires |v'.withdrawals| == |v.withdrawals|
    requires forall i | 0 <= i < |v.withdrawals| ::
               v'.withdrawals[i].id == v.withdrawals[i].id && v'.withdrawals[i].amount == v.withdrawals[i].amount
    ensures EventsOk(v')
  {
  }

  lemma {:induction false} WithdrawnEvents(v: Vault, v': Vault, w: Withdrawal)
    requires EventsOk(v) && !IdKnown(v, w.id)
    requires v'.withdrawals == v.withdrawals + [w]
    requires v'.sent == v.sent + [Event(w.id, w.amount)] && v'.buffer == v.buffer
    ensures EventsOk(v')
  {
    assert v'.withdrawals[|v.withdrawals|] == w;
    forall e | e in v'.sent ensures EventOk(v'.withdrawals, e) && IdKnown(v', e.id) {
      if e in v.sent {
        assert EventOk(v.withdrawals, e) && IdKnown(v, e.id);
        var i :| 0 <= i < |v.withdrawals| && v.withdrawals[i].id == e.id;
        assert v'.withdrawals[i].id == e.id;
        assert e.id != w.id;
      } else {
        assert e == Event(w.id, w.amount);
        forall i | 0 <= i < |v'.withdrawals| && v'.withdrawals[i].id == e.id
          ensures v'.withdrawals[i].amount == e.amount
        {
          assert i < |v.withdrawals| ==> IdKnown(v, w.id);
        }
      }
    }
  }

  lemma {:induction false} WithdrawnKeeps(v: Vault, user: string, amount: nat, id: nat)
    requires Inv(v) && !IdKnown(v, id)
    ensures Inv(Withdrawn(v, user, amount, id))
  {
    var v' := Withdrawn(v, user, amount, id);
    if WithdrawReply(v, user, amount) == Accepted {
      var w := Withdrawal(id, user, amount, Queued);
      WithdrawnEvents(v, v', w);
      forall u ensures Solvent(v', u) {
        assert Solvent(v, u);
        WithdrawalsAppend(v.withdrawals, w, u);
      }
      forall i, j | 0 <= i < j < |v'.withdrawals| ensures v'.withdrawals[i].id != v'.withdrawals[j].id {
        if j == |v.withdrawals| { assert IdKnown(v, v.withdrawals[i].id); }
      }
    }
  }

  /** Routing changes statuses only, and puts each row on the side of the threshold its amount is on. */
  lemma {:induction false} RoutedShape(ws: seq<Withdrawal>, items: seq<Event>)
    ensures var r := Routed(ws, items);
            |r| == |ws| && forall i | 0 <= i < |ws| :: r[i] == ws[i].(status := r[i].status)
  {
    if items != [] {
      RoutedShape(ws, items[..|items| - 1]);
    }
  }

  lemma {:induction false} RoutedThreshold(ws: seq<Withdrawal>, items: seq<Event>)
    requires RoutedByThreshold(ws) && forall e | e in items :: EventOk(ws, e)
    ensures RoutedByThreshold(Routed(ws, items))
  {
    if items != [] {
      var before, e := items[..|items| - 1], items[|items| - 1];
      assert e in items;
      assert forall x | x in before :: x in items;
      RoutedThreshold(ws, before);
      RoutedShape(ws, before);
      var mid, r := Routed(ws, before), Routed(ws, items);
      forall i | 0 <= i < |r|
        ensures r[i].status.Broadcasted? ==> r[i].amount < COLD_THRESHOLD
        ensures r[i].status.PendingColdWallet? || r[i].status.Approved? ==> r[i].amount >= COLD_THRESHOLD
      {
        assert mid[i].id == ws[i].id && mid[i].amount == ws[i].amount;
      }
    }
  }

  lemma {:induction false} FlushedKeeps(v: Vault, done: nat)
    requires Inv(v)
    ensures Inv(Flushed(v, done))
  {
    var v', n := Flushed(v, done), if done <= |v.buffer| then done else |v.buffer|;
    var items := v.buffer[..n];
    RoutedShape(v.withdrawals, items);
    forall e | e in items ensures EventOk(v.withdrawals, e) {
      assert e in v.buffer && e in v.sent;
    }
    RoutedThreshold(v.withdrawals, items);
    SameRowsKeeps(v, v');
  }

  lemma {:induction false} SameRowsKeeps(v: Vault, v': Vault)
    requires Inv(v) && v'.deposits == v.deposits && v'.balances == v.balances && v'.sent == v.sent
    requires forall e | e in v'.buffer :: e in v.sent
    requires |v'.withdrawals| == |v.withdrawals|
    requires forall i | 0 <= i < |v.withdrawals| ::
               v'.withdrawals[i] == v.withdrawals[i].(status := v'.withdrawals[i].status)
    requires RoutedByThreshold(v'.withdrawals)
    ensures Inv(v')
  {
    SameRowsEvents(v, v');
    forall i, j | 0 <= i < j < |v'.withdrawals| ensures v'.withdrawals[i].id != v'.withdrawals[j].id {
      assert v.withdrawals[i].id != v.withdrawals[j].id;
    }
    forall u ensures Solvent(v', u) {
      assert Solvent(v, u);
      SameAmounts(v.withdrawals, v'.withdrawals, u);
    }
  }

  lemma {:induction false} StepKeeps(v: Vault, a: Action)
    requires Inv(v)
    ensures Inv(Step(v, a))
  {
    match a
    case OpenAddress(user, addr) => OpenedKeeps(v, user, addr);
    case Credit(addr, received) => CreditedKeeps(v, addr, received);
    case RequestWithdrawal(user, amount, id) => if !IdKnown(v, id) { WithdrawnKeeps(v, user, amount, id); }
    case Receive(k) => SameRowsKeeps(v, Step(v, a));
    case Flush(done) => FlushedKeeps(v, done);
    case Approve(id) => SameRowsKeeps(v, Step(v, a));
  }

  lemma {:induction false} ExecKeeps(v: Vault, actions: seq<Action>)
    requires Inv(v)
    ensures Inv(Exec(v, actions))
    decreases |actions|
  {
    if actions != [] {
      StepKeeps(v, actions[0]);
      ExecKeeps(Step(v, actions[0]), actions[1..]);
    }
  }

  // ---------- Main results ----------

  /**
   Over every trade-free run, with events lost, repeated and reordered and flushes failing midway: what a user holds
   plus what they withdrew never exceeds what was credited to them, and equals it while the credits fit a `u64`.
   */
  lemma {:induction false} FundsConserved(actions: seq<Action>, user: string)
    ensures var v := Exec(EMPTY_VAULT, actions);
            var held := BalanceOf(v, user) + WithdrawalsOf(v.withdrawals, user);
            && held <= CreditsOf(v.deposits, user)
            && (CreditsOf(v.deposits, user) <= MAX_U64 ==> held == CreditsOf(v.deposits, user))
  {
    ExecKeeps(EMPTY_VAULT, actions);
    assert Solvent(Exec(EMPTY_VAULT, actions), user);
  }

  /** Nothing at or above the threshold is broadcast, and nothing below it waits for or gets cold-wallet approval. */
  lemma {:induction false} ThresholdRespected(actions: seq<Action>, w: Withdrawal)
    requires w in Exec(EMPTY_VAULT, actions).withdrawals
    ensures w.status.Broadcasted? ==> w.amount < 10000
    ensures w.status.PendingColdWallet? || w.status.Approved? ==> w.amount >= 10000
  {
    ExecKeeps(EMPTY_VAULT, actions);
  }

  /** Once a deposit address is credited, its row never changes again and a further credit is a no-op. */
  lemma {:induction false} CreditedOnce(first: seq<Action>, more: seq<Action>, i: nat)
    requires var v := Exec(EMPTY_VAULT, first);
             i < |v.deposits| && v.deposits[i].confirmed
    ensures var v := Exec(EMPTY_VAULT, first);
            var v' := Exec(v, more);
            i < |v'.deposits| && v'.deposits[i] == v.deposits[i]
            && forall amount: int :: Credited(v', v.deposits[i].addr, amount) == v'
  {
    var v := Exec(EMPTY_VAULT, first);
    ExecKeeps(EMPTY_VAULT, first);
    ExecKeeps(v, more);
    ConfirmedStays(v, more, i);
    var v' := Exec(v, more);
    forall amount: int ensures Credited(v', v.deposits[i].addr, amount) == v' {
      forall j | 0 <= j < |v'.deposits| ensures v'.deposits[j].addr != v.deposits[i].addr || v'.deposits[j].confirmed {
        if j < i { assert v'.deposits[j].addr != v'.deposits[i].addr; }
        if i < j { assert v'.deposits[i].addr != v'.deposits[j].addr; }
      }
      NothingToConfirm(v'.deposits, v.deposits[i].addr, amount);
    }
  }

  lemma {:induction false} ConfirmedStays(v: Vault, actions: seq<Action>, i: nat)
    requires i < |v.deposits| && v.deposits[i].confirmed
    ensures i < |Exec(v, actions).deposits| && Exec(v, actions).deposits[i] == v.deposits[i]
    decreases |actions|
  {
    if actions != [] {
      var a := actions[0];
      if a.Credit? { ConfirmShape(v.deposits, a.addr, a.received); }
      assert i < |Step(v, a).deposits| && Step(v, a).deposits[i] == v.deposits[i];
      ConfirmedStays(Step(v, a), actions[1..], i);
    }
  }

  /**
   An approval survives a flush exactly when no event for that row is routed by it: a repeated event sends an approved
   row back to wait for the cold wallet.
   */
  lemma {:induction false} ApprovalSurvivesIff(v: Vault, done: nat, i: nat)
    requires i < |v.withdrawals| && v.withdrawals[i].status.Approved?
    ensures var n := if done <= |v.buffer| then done else |v.buffer|;
            |Flushed(v, done).withdrawals| == |v.withdrawals|
            && (Flushed(v, done).withdrawals[i].status.Approved? <==>
                forall e | e in v.buffer[..n] :: e.id != v.withdrawals[i].id)
  {
    var n := if done <= |v.buffer| then done else |v.buffer|;
    RoutedStatus(v.withdrawals, v.buffer[..n], i);
  }

  lemma {:induction false} RoutedStatus(ws: seq<Withdrawal>, items: seq<Event>, i: nat)
    requires i < |ws| && ws[i].status.Approved?
    ensures var r := Routed(ws, items);
            |r| == |ws| && r[i].id == ws[i].id && (r[i].status.Approved? <==> forall e | e in items :: e.id != ws[i].id)
  {
    if items != [] {
      var before, last := items[..|items| - 1], items[|items| - 1];
      RoutedStatus(ws, before, i);
      assert items == before + [last];
      assert last in items;
    }
  }

  lemma {:induction false} ExecSnoc(v: Vault, actions: seq<Action>, a: Action)
    ensures Exec(v, actions + [a]) == Step(Exec(v, actions), a)
    decreases |actions|
  {
    if actions == [] {
      assert actions + [a] == [a] && [a][1..] == [];
    } else {
      assert (actions + [a])[1..] == actions[1..] + [a];
      ExecSnoc(Step(v, actions[0]), actions[1..], a);
    }
  }

  /** The vault in which user "u" has withdrawn all of a deposit of 10,000, and the event is on its way. */
  function ColdVault(buffer: seq<Event>, status: Status): Vault {
    Vault([Deposit("u", "a", 10000, true)], map["u" := 0], [Withdrawal(1, "u", 10000, status)],
          [Event(1, 10000)], buffer)
  }

  lemma {:induction false} ColdVaultSteps()
    ensures var ready := Step(EMPTY_VAULT, OpenAddress("u", "a"));
            Step(Step(ready, Credit("a", 10000)), RequestWithdrawal("u", 10000, 1)) == ColdVault([], Queued)
  {
    var v1 := Vault([Deposit("u", "a", 0, false)], map[], [], [], []);
    var v2 := Vault([Deposit("u", "a", 10000, true)], map["u" := 10000], [], [], []);
    assert Step(EMPTY_VAULT, OpenAddress("u", "a")) == v1;
    assert Confirm(v1.deposits, "a", 10000) == v2.deposits by {
      assert v1.deposits[1..] == [] && Confirm([], "a", 10000) == [];
    }
    assert Step(v1, Credit("a", 10000)) == v2;
  }

  lemma {:induction false} ColdVaultReached() returns (actions: seq<Action>)
    ensures Exec(EMPTY_VAULT, actions) == ColdVault([], Queued)
  {
    var first, credit, withdraw := OpenAddress("u", "a"), Credit("a", 10000), RequestWithdrawal("u", 10000, 1);
    ColdVaultSteps();
    ExecSnoc(EMPTY_VAULT, [], first);
    ExecSnoc(EMPTY_VAULT, [] + [first], credit);
    ExecSnoc(EMPTY_VAULT, [] + [first] + [credit], withdraw);
    actions := [] + [first] + [credit] + [withdraw];
  }

  /** Delivering the event and flushing puts the row in the queue for the cold wallet, whatever it was before. */
  lemma {:induction false} ColdVaultFlushed(status: Status)
    ensures Step(Step(ColdVault([], status), Receive(0)), Flush(1)) == ColdVault([], PendingColdWallet)
  {
    var e := Event(1, 10000);
    var buffered := ColdVault([e], status);
    assert Step(ColdVault([], status), Receive(0)) == buffered;
    assert [e][..1] == [e] && [e][..0] == [];
    assert Routed(buffered.withdrawals, [e]) == SetStatus(Routed(buffered.withdrawals, []), 1, PendingColdWallet);
  }

  /**
   A run from the empty vault in which an approved withdrawal loses its approval to a second delivery of its
   event.
   */
  lemma {:induction false} ApprovalLost() returns (approved: seq<Action>, again: seq<Action>)
    ensures again == [Receive(0), Flush(1)]
    ensures Exec(EMPTY_VAULT, approved) == ColdVault([], Approved)
    ensures Exec(EMPTY_VAULT, approved + again) == ColdVault([], PendingColdWallet)
  {
    var actions := ColdVaultReached();
    again := [Receive(0), Flush(1)];
    FlushedAgain(actions, Queued);
    ExecSnoc(EMPTY_VAULT, actions + again, Approve(1));
    approved := actions + again + [Approve(1)];
    assert Exec(EMPTY_VAULT, approved) == ColdVault([], Approved);
    FlushedAgain(approved, Approved);
  }

  lemma {:induction false} FlushedAgain(actions: seq<Action>, status: Status)
    requires Exec(EMPTY_VAULT, actions) == ColdVault([], status)
    ensures Exec(EMPTY_VAULT, actions + [Receive(0), Flush(1)]) == ColdVault([], PendingColdWallet)
  {
    ExecSnoc(EMPTY_VAULT, actions, Receive(0));
    ExecSnoc(EMPTY_VAULT, actions + [Receive(0)], Flush(1));
    assert actions + [Receive(0), Flush(1)] == actions + [Receive(0)] + [Flush(1)];
    ColdVaultFlushed(status);
  }
}
