/**
 Two sessions made from matching keys, joined by two channels that keep order but may drop or corrupt messages.
 The steps of the two ends and the channels interleave in any way.
 */
module RatchetPair {
  import opened Prelude
  import opened Ratchet

  datatype End = Alice | Bob

  /** A message in flight, with its number in the sender's sequence and whether it is still as sent. */
  datatype Wire = Wire(message: Message, index: nat, genuine: bool)

  /** A processed message: its number, the number the receiver would have had next, and what decryption gave. */
  datatype Delivery = Delivery(index: nat, expected: nat, genuine: bool, result: Option<Bytes>)

  /** One direction: messages in flight, and the history of texts sent, deliveries and drops. */
  datatype Line = Line(wires: seq<Wire>, texts: seq<Bytes>, expected: nat, log: seq<Delivery>, drops: nat)

  datatype Net = Net(alice: Session, bob: Session, toBob: Line, toAlice: Line)

  datatype Action =
    | Send(from: End, text: Bytes, nonce: Bytes)
    | Deliver(to: End)
    | Drop(to: End)
    | Corrupt(to: End, at: nat, ciphertext: Bytes, nonce: Bytes)

  const EMPTY_LINE := Line([], [], 0, [], 0)

  /** Sessions for the key pairs of secrets `a` and `b`. */
  function Connect(c: Suite, a: Bytes, b: Bytes): Net {
    Net(SenderSession(c, a, c.public(b)), ReceiverSession(c, b, c.public(a)), EMPTY_LINE, EMPTY_LINE)
  }

  function SendOn(c: Suite, s: Session, l: Line, text: Bytes, nonce: Bytes): Line {
    l.(wires := l.wires + [Wire(MessageFor(c, s, text, nonce), |l.texts|, true)], texts := l.texts + [text])
  }

  function DeliverOn(c: Suite, s: Session, l: Line): Line
    requires l.wires != []
  {
    var w := l.wires[0];
    l.(wires := l.wires[1..], expected := w.index + 1,
       log := l.log + [Delivery(w.index, l.expected, w.genuine, Plaintext(c, s, w.message))])
  }

  function DropOn(l: Line): Line {
    if l.wires == [] then l else l.(wires := l.wires[1..], drops := l.drops + 1)
  }

  function CorruptOn(l: Line, at: nat, ciphertext: Bytes, nonce: Bytes): Line {
    if at >= |l.wires| then l
    else
      var w := l.wires[at];
      l.(wires := l.wires[at := w.(message := w.message.(ciphertext := ciphertext, nonce := nonce), genuine := false)])
  }

  function Step(c: Suite, n: Net, a: Action): Net {
    match a
    case Send(Alice, text, nonce) =>
      n.(alice := AfterEncrypt(c, n.alice), toBob := SendOn(c, n.alice, n.toBob, text, nonce))
    case Send(Bob, text, nonce) =>
      n.(bob := AfterEncrypt(c, n.bob), toAlice := SendOn(c, n.bob, n.toAlice, text, nonce))
    case Deliver(Bob) =>
      if n.toBob.wires == [] then n
      else n.(bob := AfterDecrypt(c, n.bob, n.toBob.wires[0].message), toBob := DeliverOn(c, n.bob, n.toBob))
    case Deliver(Alice) =>
      if n.toAlice.wires == [] then n
      else n.(alice := AfterDecrypt(c, n.alice, n.toAlice.wires[0].message),
                  toAlice := DeliverOn(c, n.alice, n.toAlice))
    case Drop(Bob) => n.(toBob := DropOn(n.toBob))
    case Drop(Alice) => n.(toAlice := DropOn(n.toAlice))
    case Corrupt(Bob, at, ciphertext, nonce) => n.(toBob := CorruptOn(n.toBob, at, ciphertext, nonce))
    case Corrupt(Alice, at, ciphertext, nonce) => n.(toAlice := CorruptOn(n.toAlice, at, ciphertext, nonce))
  }

  function Exec(c: Suite, n: Net, actions: seq<Action>): Net
    decreases |actions|
  {
    if actions == [] then n else Exec(c, Step(c, n, actions[0]), actions[1..])
  }

  function LineTo(n: Net, to: End): Line {
    if to.Alice? then n.toAlice else n.toBob
  }

  // ---------- The invariant of one direction ----------

  /** No message beyond the counter's range was delivered across a gap. */
  ghost predicate Clean(log: seq<Delivery>) {
    forall d | d in log :: d.index <= MAX_COUNTER || d.index == d.expected
  }

  /**
   A message in flight carries the sender's key and its (saturated) number; unless corrupted, its text sealed with
   its own chain key.
   */
  ghost predicate WireOk(c: Suite, start: Bytes, ratchetKey: Bytes, l: Line, w: Wire) {
    && l.expected <= w.index < |l.texts|
    && w.message.ratchetKey == ratchetKey
    && w.message.counter == Saturated(w.index)
    && (w.genuine ==>
          w.message.ciphertext == c.seal(c.messageKey(ChainAt(c, start, w.index)), w.message.nonce, l.texts[w.index]))
  }

  ghost predicate WiresOk(c: Suite, start: Bytes, ratchetKey: Bytes, l: Line) {
    && (forall i | 0 <= i < |l.wires| :: WireOk(c, start, ratchetKey, l, l.wires[i]))
    && (forall i, j | 0 <= i < j < |l.wires| :: l.wires[i].index < l.wires[j].index)
  }

  ghost predicate LogOk(l: Line) {
    && (forall d | d in l.log :: d.expected <= d.index < |l.texts|)
    && (Clean(l.log) ==> forall d | d in l.log && d.genuine :: d.result == Some(l.texts[d.index]))
  }

  /** Without drops nothing is skipped: what is in flight follows on from what was delivered. */
  ghost predicate NoGaps(l: Line) {
    l.drops == 0 ==>
      && l.expected + |l.wires| == |l.texts|
      && (forall i | 0 <= i < |l.wires| :: l.wires[i].index == l.expected + i)
      && (forall d | d in l.log :: d.index == d.expected)
  }

  ghost predicate DirectionInv(c: Suite, start: Bytes, sender: Session, receiver: Session, l: Line) {
    && sender.sendingChain == ChainAt(c, start, |l.texts|)
    && sender.sent == Saturated(|l.texts|)
    && receiver.receivingRatchet == c.public(sender.sendingRatchet)
    && l.expected <= |l.texts|
    && (Clean(l.log) ==>
          receiver.receivingChain == ChainAt(c, start, l.expected) && receiver.received == Saturated(l.expected))
    && WiresOk(c, start, c.public(sender.sendingRatchet), l)
    && LogOk(l)
    && NoGaps(l)
  }

  lemma {:induction false} SendKeeps(c: Suite, start: Bytes, sender: Session, receiver: Session, l: Line,
                                    text: Bytes, nonce: Bytes)
    requires DirectionInv(c, start, sender, receiver, l)
    ensures DirectionInv(c, start, AfterEncrypt(c, sender), receiver, SendOn(c, sender, l, text, nonce))
  {
    ChainNext(c, start, |l.texts|);
    var l' := SendOn(c, sender, l, text, nonce);
    forall i | 0 <= i < |l'.wires| ensures WireOk(c, start, c.public(sender.sendingRatchet), l', l'.wires[i]) {
      if i < |l.wires| {
        assert WireOk(c, start, c.public(sender.sendingRatchet), l, l.wires[i]);
      }
    }
    forall i, j | 0 <= i < j < |l'.wires| ensures l'.wires[i].index < l'.wires[j].index {
      assert WireOk(c, start, c.public(sender.sendingRatchet), l, l.wires[i]);
    }
  }

  /** A delivery across no gap, or within the counter's range, gives the receiver the message's own key. */
  lemma {:induction false} DeliveryKey(c: Suite, start: Bytes, ratchetKey: Bytes, receiver: Session, l: Line)
    requires l.wires != [] && WireOk(c, start, ratchetKey, l, l.wires[0])
    requires receiver.receivingRatchet == ratchetKey
    requires receiver.receivingChain == ChainAt(c, start, l.expected) && receiver.received == Saturated(l.expected)
    requires l.wires[0].index <= MAX_COUNTER || l.wires[0].index == l.expected
    ensures var w, r := l.wires[0], AfterDecrypt(c, receiver, l.wires[0].message);
            && r.receivingChain == ChainAt(c, start, w.index + 1) && r.received == Saturated(w.index + 1)
            && Plaintext(c, receiver, w.message) ==
               c.unseal(c.messageKey(ChainAt(c, start, w.index)), w.message.nonce, w.message.ciphertext)
  {
    var w := l.wires[0];
    SkipReachesKeyIff(l.expected, w.index);
    ChainAdds(c, start, l.expected, w.index - l.expected);
    ChainAdds(c, start, l.expected, w.index - l.expected + 1);
  }

  lemma {:induction false} DeliverKeepsWires(c: Suite, start: Bytes, ratchetKey: Bytes, receiver: Session, l: Line)
    requires WiresOk(c, start, ratchetKey, l) && l.wires != [] && NoGaps(l)
    ensures WiresOk(c, start, ratchetKey, DeliverOn(c, receiver, l)) && NoGaps(DeliverOn(c, receiver, l))
  {
  }

  lemma {:induction false} DeliverKeepsLog(c: Suite, start: Bytes, ratchetKey: Bytes, receiver: Session, l: Line)
    requires Lawful(c) && LogOk(l) && l.wires != [] && WireOk(c, start, ratchetKey, l, l.wires[0])
    requires receiver.receivingRatchet == ratchetKey
    requires Clean(l.log) ==>
               receiver.receivingChain == ChainAt(c, start, l.expected) && receiver.received == Saturated(l.expected)
    ensures var l', r := DeliverOn(c, receiver, l), AfterDecrypt(c, receiver, l.wires[0].message);
            && LogOk(l')
            && (Clean(l'.log) ==>
                  r.receivingChain == ChainAt(c, start, l'.expected) && r.received == Saturated(l'.expected))
  {
    var l', w := DeliverOn(c, receiver, l), l.wires[0];
    if Clean(l'.log) {
      assert forall d | d in l.log :: d in l'.log;
      assert l'.log[|l.log|] in l'.log;
      DeliveryKey(c, start, ratchetKey, receiver, l);
    }
  }

  lemma {:induction false} DeliverKeeps(c: Suite, start: Bytes, sender: Session, receiver: Session, l: Line)
    requires Lawful(c) && DirectionInv(c, start, sender, receiver, l) && l.wires != []
    ensures DirectionInv(c, start, sender, AfterDecrypt(c, receiver, l.wires[0].message), DeliverOn(c, receiver, l))
  {
    var ratchetKey := c.public(sender.sendingRatchet);
    assert WireOk(c, start, ratchetKey, l, l.wires[0]);
    DeliverKeepsWires(c, start, ratchetKey, receiver, l);
    DeliverKeepsLog(c, start, ratchetKey, receiver, l);
  }

  lemma {:induction false} DropKeeps(c: Suite, start: Bytes, sender: Session, receiver: Session, l: Line)
    requires DirectionInv(c, start, sender, receiver, l)
    ensures DirectionInv(c, start, sender, receiver, DropOn(l))
  {
  }

  lemma {:induction false} CorruptKeeps(c: Suite, start: Bytes, sender: Session, receiver: Session, l: Line,
                                        at: nat, ciphertext: Bytes, nonce: Bytes)
    requires DirectionInv(c, start, sender, receiver, l)
    ensures DirectionInv(c, start, sender, receiver, CorruptOn(l, at, ciphertext, nonce))
  {
  }

  // ---------- The pair ----------

  ghost predicate Inv(c: Suite, toBob: Bytes, toAlice: Bytes, n: Net) {
    DirectionInv(c, toBob, n.alice, n.bob, n.toBob) && DirectionInv(c, toAlice, n.bob, n.alice, n.toAlice)
  }

  /** Steps of one end leave the other direction's half of its session alone. */
  lemma {:induction false} HalvesIndependent(c: Suite, s: Session, msg: Message)
    ensures var e, d := AfterEncrypt(c, s), AfterDecrypt(c, s, msg);
            && e.receivingChain == s.receivingChain && e.received == s.received
            && e.receivingRatchet == s.receivingRatchet
            && d.sendingChain == s.sendingChain && d.sent == s.sent && d.sendingRatchet == s.sendingRatchet
            && e.sendingRatchet == s.sendingRatchet
            && (msg.ratchetKey == s.receivingRatchet ==> d.receivingRatchet == s.receivingRatchet)
  {
  }

  lemma {:induction false} StepKeeps(c: Suite, toBob: Bytes, toAlice: Bytes, n: Net, a: Action)
    requires Lawful(c) && Inv(c, toBob, toAlice, n)
    ensures Inv(c, toBob, toAlice, Step(c, n, a))
  {
    match a
    case Send(Alice, text, nonce) => SendKeeps(c, toBob, n.alice, n.bob, n.toBob, text, nonce);
    case Send(Bob, text, nonce) => SendKeeps(c, toAlice, n.bob, n.alice, n.toAlice, text, nonce);
    case Deliver(Bob) =>
      if n.toBob.wires != [] {
        DeliverKeeps(c, toBob, n.alice, n.bob, n.toBob);
        HalvesIndependent(c, n.bob, n.toBob.wires[0].message);
      }
    case Deliver(Alice) =>
      if n.toAlice.wires != [] {
        DeliverKeeps(c, toAlice, n.bob, n.alice, n.toAlice);
        HalvesIndependent(c, n.alice, n.toAlice.wires[0].message);
      }
    case Drop(Bob) => DropKeeps(c, toBob, n.alice, n.bob, n.toBob);
    case Drop(Alice) => DropKeeps(c, toAlice, n.bob, n.alice, n.toAlice);
    case Corrupt(Bob, at, ciphertext, nonce) => CorruptKeeps(c, toBob, n.alice, n.bob, n.toBob, at, ciphertext, nonce);
    case Corrupt(Alice, at, ciphertext, nonce) =>
      CorruptKeeps(c, toAlice, n.bob, n.alice, n.toAlice, at, ciphertext, nonce);
  }

  lemma {:induction false} ExecKeeps(c: Suite, toBob: Bytes, toAlice: Bytes, n: Net, actions: seq<Action>)
    requires Lawful(c) && Inv(c, toBob, toAlice, n)
    ensures Inv(c, toBob, toAlice, Exec(c, n, actions))
    decreases |actions|
  {
    if actions != [] {
      StepKeeps(c, toBob, toAlice, n, actions[0]);
      ExecKeeps(c, toBob, toAlice, Step(c, n, actions[0]), actions[1..]);
    }
  }

  /** Sessions made from matching keys start with matching chains, whichever end is which. */
  lemma {:induction false} ConnectKeeps(c: Suite, a: Bytes, b: Bytes)
    requires Lawful(c)
    ensures Connect(c, a, b).bob.rootKey == Connect(c, a, b).alice.rootKey
    ensures var n := Connect(c, a, b); Inv(c, n.alice.sendingChain, n.bob.sendingChain, n)
  {
  }

  // ---------- Main results ----------

  /** The texts that one end sent in a run, in order. */
  function SentTexts(actions: seq<Action>, from: End): seq<Bytes> {
    if actions == [] then []
    else (if actions[0].Send? && actions[0].from == from then [actions[0].text] else []) + SentTexts(actions[1..], from)
  }

  function Other(e: End): End {
    if e.Alice? then Bob else Alice
  }

  lemma {:induction false} TextsAreSent(c: Suite, n: Net, actions: seq<Action>, to: End)
    ensures LineTo(Exec(c, n, actions), to).texts == LineTo(n, to).texts + SentTexts(actions, Other(to))
    decreases |actions|
  {
    if actions != [] {
      var n' := Step(c, n, actions[0]);
      TextsAreSent(c, n', actions[1..], to);
      assert LineTo(n', to).texts ==
             LineTo(n, to).texts + (if actions[0].Send? && actions[0].from == Other(to) then [actions[0].text] else []);
    }
  }

  /**
   In any interleaving of sends, deliveries, drops and corruptions, every message that arrives as sent decrypts to the
   text its sender gave it, as long as no message numbered past the counter's range arrives across a gap. Corrupted
   messages harm nobody else.
   */
  lemma {:induction false} PairDecrypts(c: Suite, a: Bytes, b: Bytes, actions: seq<Action>, to: End,
                                                  d: Delivery)
    requires Lawful(c)
    requires var l := LineTo(Exec(c, Connect(c, a, b), actions), to);
             d in l.log && d.genuine && Clean(l.log)
    ensures var texts := SentTexts(actions, Other(to));
            d.index < |texts| && d.result == Some(texts[d.index])
  {
    var n := Connect(c, a, b);
    ConnectKeeps(c, a, b);
    ExecKeeps(c, n.alice.sendingChain, n.bob.sendingChain, n, actions);
    TextsAreSent(c, n, actions, to);
    assert LineTo(Exec(c, n, actions), to).texts == SentTexts(actions, Other(to));
  }

  /** With at most 2^32 messages each way, drops never matter: everything that arrives as sent decrypts. */
  lemma {:induction false} PairDecryptsDespiteLoss(c: Suite, a: Bytes, b: Bytes, actions: seq<Action>, to: End,
                                                  d: Delivery)
    requires Lawful(c) && |SentTexts(actions, Other(to))| <= MAX_COUNTER + 1
    requires d in LineTo(Exec(c, Connect(c, a, b), actions), to).log && d.genuine
    ensures var texts := SentTexts(actions, Other(to));
            d.index < |texts| && d.result == Some(texts[d.index])
  {
    var n := Connect(c, a, b);
    ConnectKeeps(c, a, b);
    ExecKeeps(c, n.alice.sendingChain, n.bob.sendingChain, n, actions);
    TextsAreSent(c, n, actions, to);
    assert Clean(LineTo(Exec(c, n, actions), to).log);
    PairDecrypts(c, a, b, actions, to, d);
  }

  lemma {:induction false} DropsCounted(c: Suite, n: Net, actions: seq<Action>, to: End)
    requires Drop(to) !in actions
    ensures LineTo(Exec(c, n, actions), to).drops == LineTo(n, to).drops
    decreases |actions|
  {
    if actions != [] {
      assert actions[0] in actions;
      assert forall x | x in actions[1..] :: x in actions;
      DropsCounted(c, Step(c, n, actions[0]), actions[1..], to);
    }
  }

  /** Without drops the pair keeps decrypting for any number of messages, past the point where the counters saturate. */
  lemma {:induction false} PairDecryptsForever(c: Suite, a: Bytes, b: Bytes, actions: seq<Action>, to: End,
                                                  d: Delivery)
    requires Lawful(c) && Drop(to) !in actions
    requires d in LineTo(Exec(c, Connect(c, a, b), actions), to).log && d.genuine
    ensures var texts := SentTexts(actions, Other(to));
            d.index < |texts| && d.result == Some(texts[d.index])
  {
    var n := Connect(c, a, b);
    ConnectKeeps(c, a, b);
    ExecKeeps(c, n.alice.sendingChain, n.bob.sendingChain, n, actions);
    DropsCounted(c, n, actions, to);
    assert Clean(LineTo(Exec(c, n, actions), to).log);
    PairDecrypts(c, a, b, actions, to, d);
  }

  // ---------- The channels ----------

  /** Every text sent was delivered, dropped or is still in flight. */
  ghost predicate Accounted(l: Line) {
    |l.texts| == |l.log| + |l.wires| + l.drops
  }

  lemma {:induction false} ExecAccounts(c: Suite, n: Net, actions: seq<Action>)
    requires Accounted(n.toBob) && Accounted(n.toAlice)
    ensures Accounted(Exec(c, n, actions).toBob) && Accounted(Exec(c, n, actions).toAlice)
    decreases |actions|
  {
    if actions != [] {
      ExecAccounts(c, Step(c, n, actions[0]), actions[1..]);
    }
  }

  /** Over any run, the messages sent one way are those delivered, those dropped and those in flight. */
  lemma {:induction false} MessagesAccounted(c: Suite, a: Bytes, b: Bytes, actions: seq<Action>, to: End)
    ensures var l := LineTo(Exec(c, Connect(c, a, b), actions), to);
            |SentTexts(actions, Other(to))| == |l.log| + |l.wires| + l.drops
  {
    var n := Connect(c, a, b);
    ExecAccounts(c, n, actions);
    TextsAreSent(c, n, actions, to);
    assert LineTo(Exec(c, n, actions), to).texts == SentTexts(actions, Other(to));
  }

  lemma {:induction false} ExecCons(c: Suite, n: Net, a: Action, rest: seq<Action>)
    ensures Exec(c, n, [a] + rest) == Exec(c, Step(c, n, a), rest)
  {
    assert ([a] + rest)[1..] == rest;
  }

  /** What is on its way to Bob: genuine messages, numbered from 0, and nothing delivered or dropped yet. */
  ghost predicate OnItsWay(l: Line, texts: seq<Bytes>) {
    && l.texts == texts && l.log == [] && l.drops == 0 && |l.wires| == |texts|
    && forall i | 0 <= i < |l.wires| :: l.wires[i].index == i && l.wires[i].genuine
  }

  lemma {:induction false} SentOn(c: Suite, n: Net, before: seq<Bytes>, text: Bytes, nonce: Bytes)
    requires OnItsWay(n.toBob, before)
    ensures OnItsWay(Step(c, n, Send(Alice, text, nonce)).toBob, before + [text])
  {
  }

  /** The first of three messages is dropped, the second corrupted; the two left are delivered. */
  lemma {:induction false} LossyEnd(c: Suite, n: Net, texts: seq<Bytes>, junk: Bytes, nonce: Bytes)
    requires OnItsWay(n.toBob, texts) && |texts| == 3
    ensures var lossy := Step(c, Step(c, n, Drop(Bob)), Corrupt(Bob, 0, junk, nonce));
            var l := Step(c, Step(c, lossy, Deliver(Bob)), Deliver(Bob)).toBob;
            && l.texts == texts && l.wires == [] && l.drops == 1 && |l.log| == 2
            && l.log[0].index == 1 && !l.log[0].genuine && l.log[1].index == 2 && l.log[1].genuine
  {
    var n1 := Step(c, n, Drop(Bob));
    var n2 := Step(c, n1, Corrupt(Bob, 0, junk, nonce));
    assert |n2.toBob.wires| == 2 && !n2.toBob.wires[0].genuine && n2.toBob.wires[1] == n.toBob.wires[2];
    var n3 := Step(c, n2, Deliver(Bob));
    assert n3.toBob.wires == [n.toBob.wires[2]];
  }

  /**
   A lossy run: of three messages the first is dropped and the second corrupted on the way. The two deliveries are of
   the second, not as sent, and of the third, which opens.
   */
  lemma {:induction false} LossyRun(c: Suite, a: Bytes, b: Bytes, t0: Bytes, t1: Bytes, t2: Bytes, nonce: Bytes,
                                   junk: Bytes)
    requires Lawful(c)
    ensures var run := [Send(Alice, t0, nonce)] + ([Send(Alice, t1, nonce)] + ([Send(Alice, t2, nonce)]
                       + ([Drop(Bob)] + ([Corrupt(Bob, 0, junk, nonce)] + ([Deliver(Bob)] + ([Deliver(Bob)] + []))))));
            var l := Exec(c, Connect(c, a, b), run).toBob;
            && |l.log| == 2 && l.wires == [] && l.drops == 1
            && l.log[0].index == 1 && !l.log[0].genuine
            && l.log[1].index == 2 && l.log[1].genuine && l.log[1].result == Some(t2)
  {
    var n0 := Connect(c, a, b);
    var s0, s1, s2 := Send(Alice, t0, nonce), Send(Alice, t1, nonce), Send(Alice, t2, nonce);
    var n1 := Step(c, n0, s0);
    var n2 := Step(c, n1, s1);
    var n3 := Step(c, n2, s2);
    SentOn(c, n0, [], t0, nonce);
    SentOn(c, n1, [] + [t0], t1, nonce);
    SentOn(c, n2, [] + [t0] + [t1], t2, nonce);
    var texts := [] + [t0] + [t1] + [t2];
    LossyEnd(c, n3, texts, junk, nonce);
    var drop, corrupt, deliver: Action := Drop(Bob), Corrupt(Bob, 0, junk, nonce), Deliver(Bob);
    var n4 := Step(c, n3, drop);
    var n5 := Step(c, n4, corrupt);
    var n6 := Step(c, n5, deliver);
    var n7 := Step(c, n6, deliver);
    var r7: seq<Action> := [];
    var r6 := [deliver] + r7;
    var r5 := [deliver] + r6;
    var r4 := [corrupt] + r5;
    var r3 := [drop] + r4;
    var r2 := [s2] + r3;
    var r1 := [s1] + r2;
    var r0 := [s0] + r1;
    ExecCons(c, n0, s0, r1);
    ExecCons(c, n1, s1, r2);
    ExecCons(c, n2, s2, r3);
    ExecCons(c, n3, drop, r4);
    ExecCons(c, n4, corrupt, r5);
    ExecCons(c, n5, deliver, r6);
    ExecCons(c, n6, deliver, r7);
    assert Exec(c, n0, r0) == n7;
    TextsAreSent(c, n0, r0, Bob);
    assert SentTexts(r0, Alice) == texts;
    assert n7.toBob.log[1] in n7.toBob.log;
    PairDecryptsDespiteLoss(c, a, b, r0, Bob, n7.toBob.log[1]);
  }
}
