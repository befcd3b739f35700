/**
 The symmetric-key ratchet session (section 2.2 of Signal's "The Double Ratchet Algorithm").
 Key agreement, hashing and authenticated encryption are parameters: `Suite` bundles them as functions, and
 `Lawful` is all that is ever assumed of them.
 */
module Ratchet {
  import opened Prelude

  type Bytes = seq<bv8>

  datatype Suite = Suite(
    agree: (Bytes, Bytes) -> Bytes,
    public: Bytes -> Bytes,
    hash: Bytes -> Bytes,
    derive: (Bytes, string) -> Bytes,
    next: Bytes -> Bytes,
    messageKey: Bytes -> Bytes,
    seal: (Bytes, Bytes, Bytes) -> Bytes,
    unseal: (Bytes, Bytes, Bytes) -> Option<Bytes>)

  /** Key agreement commutes, and opening a sealed text with its key and nonce gives back the text. */
  ghost predicate Lawful(c: Suite) {
    && (forall a, b :: c.agree(a, c.public(b)) == c.agree(b, c.public(a)))
    && (forall key, nonce, text :: c.unseal(key, nonce, c.seal(key, nonce, text)) == Some(text))
  }

  const MAX_COUNTER := 0xFFFF_FFFF

  /** A `u32` counter. */
  type Counter = n: nat | n <= MAX_COUNTER

  /** What a counter that saturates shows after `n` increments. */
  function Saturated(n: nat): Counter {
    if n <= MAX_COUNTER then n else MAX_COUNTER
  }

  /** `saturating_add(1)`. */
  function Bump(n: Counter): Counter {
    if n < MAX_COUNTER then n + 1 else MAX_COUNTER
  }

  datatype Session = Session(
    rootKey: Bytes,
    sendingChain: Bytes,
    receivingChain: Bytes,
    sendingRatchet: Bytes,
    receivingRatchet: Bytes,
    sent: Counter,
    received: Counter)

  datatype Message = Message(ratchetKey: Bytes, counter: Counter, ciphertext: Bytes, nonce: Bytes)

  /** The chain key `n` steps after `key`. */
  function ChainAt(c: Suite, key: Bytes, n: nat): Bytes
    decreases n
  {
    if n == 0 then key else ChainAt(c, c.next(key), n - 1)
  }

  lemma {:induction false} ChainAdds(c: Suite, key: Bytes, m: nat, n: nat)
    ensures ChainAt(c, ChainAt(c, key, m), n) == ChainAt(c, key, m + n)
    decreases m
  {
    if m > 0 {
      ChainAdds(c, c.next(key), m - 1, n);
    }
  }

  lemma {:induction false} ChainNext(c: Suite, key: Bytes, n: nat)
    ensures c.next(ChainAt(c, key, n)) == ChainAt(c, key, n + 1)
  {
    ChainAdds(c, key, n, 1);
    assert ChainAt(c, ChainAt(c, key, n), 1) == ChainAt(c, c.next(ChainAt(c, key, n)), 0);
  }

  // ---------- What the operations compute ----------

  function SenderSession(c: Suite, secret: Bytes, peer: Bytes): Session {
    var root := c.hash(c.agree(secret, peer));
    Session(root, c.derive(root, "initiator-send"), c.derive(root, "initiator-recv"), secret, peer, 0, 0)
  }

  function ReceiverSession(c: Suite, secret: Bytes, peer: Bytes): Session {
    var root := c.hash(c.agree(secret, peer));
    Session(root, c.derive(root, "initiator-recv"), c.derive(root, "initiator-send"), secret, peer, 0, 0)
  }

  function AfterEncrypt(c: Suite, s: Session): Session {
    s.(sendingChain := c.next(s.sendingChain), sent := Bump(s.sent))
  }

  function MessageFor(c: Suite, s: Session, text: Bytes, nonce: Bytes): Message {
    Message(c.public(s.sendingRatchet), s.sent, c.seal(c.messageKey(s.sendingChain), nonce, text), nonce)
  }

  /** A message under a new ratchet key restarts the receiving chain from a new root. */
  function Rekeyed(c: Suite, s: Session, ratchetKey: Bytes): Session {
    if s.receivingRatchet == ratchetKey then s
    else
      var root := c.hash(c.agree(s.sendingRatchet, ratchetKey));
      s.(receivingRatchet := ratchetKey, rootKey := root,
         receivingChain := c.derive(root, "initiator-send"), received := 0)
  }

  /** How far a message with this counter moves the receiving chain; a stale counter does not move it. */
  function ChainSteps(received: Counter, counter: Counter): nat {
    if received <= counter then counter - received + 1 else 0
  }

  function AfterDecrypt(c: Suite, s: Session, msg: Message): Session {
    var r := Rekeyed(c, s, msg.ratchetKey);
    r.(receivingChain := ChainAt(c, r.receivingChain, ChainSteps(r.received, msg.counter)),
       received := Bump(msg.counter))
  }

  function Plaintext(c: Suite, s: Session, msg: Message): Option<Bytes> {
    var r := Rekeyed(c, s, msg.ratchetKey);
    var n := ChainSteps(r.received, msg.counter);
    if n == 0 then None
    else c.unseal(c.messageKey(ChainAt(c, r.receivingChain, n - 1)), msg.nonce, msg.ciphertext)
  }

  // ---------- The session object ----------

  class RatchetSession {
    const suite: Suite
    var rootKey: Bytes
    var sendingChainKey: Bytes
    var receivingChainKey: Bytes
    var sendingRatchetKey: Bytes
    var receivingRatchetKey: Bytes
    var sendingCounter: Counter
    var receivingCounter: Counter

    function State(): Session
      reads this
    {
      Session(rootKey, sendingChainKey, receivingChainKey, sendingRatchetKey, receivingRatchetKey,
              sendingCounter, receivingCounter)
    }

    constructor InitSender(c: Suite, secret: Bytes, peer: Bytes)
      ensures suite == c && State() == SenderSession(c, secret, peer)
    {
      suite := c;
      var root := c.hash(c.agree(secret, peer));
      rootKey := root;
      sendingChainKey, receivingChainKey := c.derive(root, "initiator-send"), c.derive(root, "initiator-recv");
      sendingRatchetKey, receivingRatchetKey := secret, peer;
      sendingCounter, receivingCounter := 0, 0;
    }

    constructor InitReceiver(c: Suite, secret: Bytes, peer: Bytes)
      ensures suite == c && State() == ReceiverSession(c, secret, peer)
    {
      suite := c;
      var root := c.hash(c.agree(secret, peer));
      rootKey := root;
      sendingChainKey, receivingChainKey := c.derive(root, "initiator-recv"), c.derive(root, "initiator-send");
      sendingRatchetKey, receivingRatchetKey := secret, peer;
      sendingCounter, receivingCounter := 0, 0;
    }

    method Encrypt(text: Bytes, nonce: Bytes) returns (msg: Message)
      modifies this
      ensures msg == MessageFor(suite, old(State()), text, nonce)
      ensures State() == AfterEncrypt(suite, old(State()))
    {
      var key := suite.messageKey(sendingChainKey);
      sendingChainKey := suite.next(sendingChainKey);
      msg := Message(suite.public(sendingRatchetKey), sendingCounter, suite.seal(key, nonce, text), nonce);
      if sendingCounter < MAX_COUNTER {
        sendingCounter := sendingCounter + 1;
      }
    }

    /**
     Advances the receiving chain to the message's counter and opens the message; the state moves even when
     opening fails.
     */
    method Decrypt(msg: Message) returns (text: Option<Bytes>)
      modifies this
      ensures text == Plaintext(suite, old(State()), msg)
      ensures State() == AfterDecrypt(suite, old(State()), msg)
    {
      Rekey(msg.ratchetKey);
      var chain, key := SkipTo(receivingChainKey, receivingCounter, msg.counter);
      receivingChainKey := chain;
      receivingCounter := if msg.counter < MAX_COUNTER then msg.counter + 1 else MAX_COUNTER;
      match key
      case None => text := None;
      case Some(k) => text := suite.unseal(k, msg.nonce, msg.ciphertext);
    }

    method Rekey(ratchetKey: Bytes)
      modifies this
      ensures State() == Rekeyed(suite, old(State()), ratchetKey)
    {
      if receivingRatchetKey != ratchetKey {
        receivingRatchetKey := ratchetKey;
        rootKey := suite.hash(suite.agree(sendingRatchetKey, ratchetKey));
        receivingChainKey := suite.derive(rootKey, "initiator-send");
        receivingCounter := 0;
      }
    }

    /**
     Steps the chain from counter `from` through counter `to`, keeping the last message key; does nothing when
     `to` is behind.
     */
    method SkipTo(start: Bytes, from: Counter, to: Counter) returns (chain: Bytes, key: Option<Bytes>)
      ensures chain == ChainAt(suite, start, ChainSteps(from, to))
      ensures key == if from <= to then Some(suite.messageKey(ChainAt(suite, start, to - from))) else None
    {
      chain, key := start, None;
      var counter: nat := from;
      while counter <= to
        invariant from <= counter <= if from <= to then to as int + 1 else from
        invariant chain == ChainAt(suite, start, counter - from)
        invariant key == if from <= to < counter then Some(suite.messageKey(ChainAt(suite, start, to - from))) else None
      {
        ChainNext(suite, start, counter - from);
        if counter == to {
          key := Some(suite.messageKey(chain));
        }
        chain := suite.next(chain);
        counter := counter + 1;
      }
    }
  }

  // ---------- One receiver against any messages under the genuine key ----------

  /** The chain index each counter makes the receiver use as a message key, starting from chain index `at`. */
  function KeyIndices(received: Counter, at: nat, counters: seq<Counter>): seq<Option<nat>>
    decreases |counters|
  {
    if counters == [] then []
    else
      var n := ChainSteps(received, counters[0]);
      [if n == 0 then None else Some(at + n - 1)] + KeyIndices(Bump(counters[0]), at + n, counters[1..])
  }

  lemma {:induction false} KeyIndicesLength(received: Counter, at: nat, counters: seq<Counter>)
    ensures |KeyIndices(received, at, counters)| == |counters|
    decreases |counters|
  {
    if counters != [] {
      KeyIndicesLength(Bump(counters[0]), at + ChainSteps(received, counters[0]), counters[1..]);
    }
  }

  lemma {:induction false} KeyIndicesFrom(received: Counter, at: nat, counters: seq<Counter>)
    ensures forall k | k in KeyIndices(received, at, counters) && k.Some? :: at <= k.value
    decreases |counters|
  {
    if counters != [] {
      KeyIndicesFrom(Bump(counters[0]), at + ChainSteps(received, counters[0]), counters[1..]);
    }
  }

  /**
   In any order and with any repeats, the chain indices used as message keys strictly increase: no key is used
   twice.
   */
  lemma {:induction false} KeysStrictlyIncrease(received: Counter, at: nat, counters: seq<Counter>, i: nat, j: nat)
    requires i < j < |KeyIndices(received, at, counters)|
    requires KeyIndices(received, at, counters)[i].Some? && KeyIndices(received, at, counters)[j].Some?
    ensures KeyIndices(received, at, counters)[i].value < KeyIndices(received, at, counters)[j].value
    decreases |counters|
  {
    var n := ChainSteps(received, counters[0]);
    var rest := KeyIndices(Bump(counters[0]), at + n, counters[1..]);
    assert KeyIndices(received, at, counters)[j] == rest[j - 1];
    if i == 0 {
      KeyIndicesFrom(Bump(counters[0]), at + n, counters[1..]);
      assert rest[j - 1] in rest;
    } else {
      KeysStrictlyIncrease(Bump(counters[0]), at + n, counters[1..], i - 1, j - 1);
    }
  }

  function Counters(msgs: seq<Message>): (r: seq<Counter>)
    ensures |r| == |msgs| && forall i | 0 <= i < |r| :: r[i] == msgs[i].counter
  {
    seq(|msgs|, i requires 0 <= i < |msgs| => msgs[i].counter)
  }

  function DecryptAll(c: Suite, s: Session, msgs: seq<Message>): seq<Option<Bytes>>
    decreases |msgs|
  {
    if msgs == [] then []
    else [Plaintext(c, s, msgs[0])] + DecryptAll(c, AfterDecrypt(c, s, msgs[0]), msgs[1..])
  }

  lemma {:induction false} DecryptAllLength(c: Suite, s: Session, msgs: seq<Message>)
    ensures |DecryptAll(c, s, msgs)| == |msgs|
    decreases |msgs|
  {
    if msgs != [] {
      DecryptAllLength(c, AfterDecrypt(c, s, msgs[0]), msgs[1..]);
    }
  }

  /** One message under the known ratchet key, at chain index `at`. */
  lemma {:induction false} ReceiveStep(c: Suite, s: Session, start: Bytes, at: nat, msg: Message)
    requires s.receivingChain == ChainAt(c, start, at) && msg.ratchetKey == s.receivingRatchet
    ensures var n, s' := ChainSteps(s.received, msg.counter), AfterDecrypt(c, s, msg);
            && s'.receivingChain == ChainAt(c, start, at + n)
            && s'.received == Bump(msg.counter) && s'.receivingRatchet == s.receivingRatchet
            && Plaintext(c, s, msg) == if n == 0 then None
               else c.unseal(c.messageKey(ChainAt(c, start, at + n - 1)), msg.nonce, msg.ciphertext)
  {
    var n := ChainSteps(s.received, msg.counter);
    ChainAdds(c, start, at, n);
    if n > 0 { ChainAdds(c, start, at, n - 1); }
  }

  /** Those indices are the ones the session really uses. */
  lemma {:induction false} SessionUsesKeyIndices(c: Suite, s: Session, start: Bytes, at: nat, msgs: seq<Message>,
                                                i: nat)
    requires s.receivingChain == ChainAt(c, start, at)
    requires forall m | m in msgs :: m.ratchetKey == s.receivingRatchet
    requires i < |msgs|
    ensures var k := KeyIndices(s.received, at, Counters(msgs));
            && |DecryptAll(c, s, msgs)| == |k| == |msgs|
            && DecryptAll(c, s, msgs)[i] ==
               if k[i].None? then None
               else c.unseal(c.messageKey(ChainAt(c, start, k[i].value)), msgs[i].nonce, msgs[i].ciphertext)
    decreases |msgs|
  {
    assert msgs[0] in msgs;
    var n, s', rest := ChainSteps(s.received, msgs[0].counter), AfterDecrypt(c, s, msgs[0]), msgs[1..];
    ReceiveStep(c, s, start, at, msgs[0]);
    KeyIndicesLength(s.received, at, Counters(msgs));
    DecryptAllLength(c, s, msgs);
    if i > 0 {
      assert forall m | m in rest :: m in msgs;
      SessionUsesKeyIndices(c, s', start, at + n, rest, i - 1);
      assert Counters(msgs)[1..] == Counters(rest);
    }
  }

  ghost predicate Increasing(counters: seq<Counter>) {
    forall i, j | 0 <= i < j < |counters| :: counters[i] < counters[j]
  }

  /** Messages with increasing counters get chain indices that differ from their counters by one fixed amount. */
  lemma {:induction false} IncreasingIndices(received: Counter, at: nat, counters: seq<Counter>, j: nat)
    requires Increasing(counters) && j < |counters| && received <= counters[0]
    ensures var k := KeyIndices(received, at, counters);
            |k| == |counters| && k[j] == Some(at + (counters[j] - received))
    decreases |counters|
  {
    KeyIndicesLength(received, at, counters);
    if j > 0 {
      var rest := counters[1..];
      assert counters[0] < counters[1] && rest[0] == counters[1];
      IncreasingIndices(Bump(counters[0]), at + ChainSteps(received, counters[0]), rest, j - 1);
    }
  }

  /**
   A replayed old message costs the receiver no key, but rewinds its counter: every later genuine message, whatever was
   dropped in between, gets the key `r - replayed - 1` places too far, so each gets its own key if and only if the
   replay was of the very last message received.
   */
  lemma {:induction false} ReplayHarmlessIff(r: Counter, replayed: Counter, genuine: seq<Counter>, j: nat)
    requires replayed < r && Increasing(genuine) && j < |genuine| && r <= genuine[0]
    ensures var k := KeyIndices(r, r, [replayed] + genuine);
            && |k| == 1 + |genuine| && k[0] == None
            && k[j + 1] == Some(genuine[j] + (r - replayed - 1))
            && (k[j + 1] == Some(genuine[j] as nat) <==> replayed + 1 == r)
  {
    var counters := [replayed] + genuine;
    assert counters[1..] == genuine;
    assert KeyIndices(r, r, counters) == [None] + KeyIndices(replayed + 1, r, genuine);
    IncreasingIndices(replayed + 1, r, genuine, j);
  }

  /**
   With saturating counters, the receiver at chain index `r` reaches the key of genuine message `i` exactly when `i`
   fits the counter or no message was skipped.
   */
  lemma {:induction false} SkipReachesKeyIff(r: nat, i: nat)
    requires r <= i
    ensures ChainSteps(Saturated(r), Saturated(i)) > 0
    ensures r + ChainSteps(Saturated(r), Saturated(i)) - 1 == i <==> i <= MAX_COUNTER || i == r
  {
  }

  // ---------- A new ratchet key ----------

  /** A session after `k` encryptions. */
  function AfterSending(c: Suite, s: Session, k: nat): Session {
    if k == 0 then s else AfterEncrypt(c, AfterSending(c, s, k - 1))
  }

  lemma {:induction false} SendingChain(c: Suite, s: Session, k: nat)
    requires s.sent == 0
    ensures AfterSending(c, s, k) == s.(sendingChain := ChainAt(c, s.sendingChain, k), sent := Saturated(k))
  {
    if k > 0 {
      SendingChain(c, s, k - 1);
      ChainNext(c, s.sendingChain, k - 1);
    }
  }

  /**
   Whatever a session's state, a peer that starts a new session with its key is understood: the first of its messages to
   arrive, number `k` within the counter's range, opens, and from then on both share root, chain and counter.
   */
  lemma {:induction false} NewInitiatorIsHeard(c: Suite, s: Session, theirs: Bytes, k: nat, text: Bytes, nonce: Bytes)
    requires Lawful(c) && c.public(theirs) != s.receivingRatchet && k <= 4294967295
    ensures var sender := AfterSending(c, SenderSession(c, theirs, c.public(s.sendingRatchet)), k);
            var msg := MessageFor(c, sender, text, nonce);
            var s', sender' := AfterDecrypt(c, s, msg), AfterEncrypt(c, sender);
            && Plaintext(c, s, msg) == Some(text)
            && s' == s.(rootKey := sender'.rootKey, receivingChain := sender'.sendingChain,
                        receivingRatchet := c.public(theirs), received := sender'.sent)
  {
    var first := SenderSession(c, theirs, c.public(s.sendingRatchet));
    SendingChain(c, first, k);
    ChainNext(c, first.sendingChain, k);
    assert c.agree(s.sendingRatchet, c.public(theirs)) == c.agree(theirs, c.public(s.sendingRatchet));
    var sender := AfterSending(c, first, k);
    var key := c.messageKey(sender.sendingChain);
    assert c.unseal(key, nonce, c.seal(key, nonce, text)) == Some(text);
  }
}
