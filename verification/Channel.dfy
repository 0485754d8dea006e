/**
 Two sessions in strict-order mode on a network that may drop, repeat, reorder and invent
 payloads: what each side has delivered is a prefix of what the other side has encrypted.
 */
module Channel {
  import opened Wrappers
  import opened Bytes
  import opened Ideal
  import opened Sessions

  /** The two endpoints: A initiated the handshake, B answered it. */
  datatype Side = A | B {
    function Peer(): Side { if this == A then B else A }
  }

  /** What happens to one endpoint. Payloads come from the network, so they are arbitrary. */
  datatype Event =
    | Send(side: Side, plaintext: ByteString, nonce: ByteString, now: real, later: real)
    | Deliver(side: Side, payload: Payload, now: real, later: real)
    | Revoke(side: Side)
    | Poll(side: Side, now: real)

  /** One endpoint: its session, its plaintexts by sequence number, the plaintexts handed up. */
  datatype Endpoint = Endpoint(session: Session, sent: seq<ByteString>, delivered: seq<ByteString>)

  datatype World = World(a: Endpoint, b: Endpoint, table: set<Sealing>) {
    function At(x: Side): Endpoint {
      if x == A then a else b
    }

    function With(x: Side, e: Endpoint): World {
      if x == A then this.(a := e) else this.(b := e)
    }
  }

  function Step(w: World, e: Event, aead: Aead): World {
    var end := w.At(e.side);
    var s := end.session;
    match e
    case Send(x, plaintext, nonce, now, later) =>
      var (s', r) := s.Encrypt(now, later, plaintext, nonce, aead);
      if r.Err? then w.With(x, end.(session := s'))
      else w.With(x, end.(session := s', sent := end.sent + [plaintext]))
            .(table := w.table + {Sealing(s.sendKey, Numbered(s.id, s.sendSeq), plaintext)})
    case Deliver(x, payload, now, later) =>
      var (s', r) := s.Decrypt(now, later, payload, aead);
      w.With(x, end.(session := s', delivered := if r.Ok? then end.delivered + [r.value] else end.delivered))
    case Revoke(x) => w.With(x, end.(session := s.Revoke()))
    case Poll(x, now) => w.With(x, end.(session := s.Tick(now)))
  }

  /**
   Ideal integrity: a payload that opens under the receiver's key was sealed under that key. Nothing is
   assumed of payloads for a session that is not active, whose key may be the public zero key.
   */
  ghost predicate Genuine(w: World, e: Event, aead: Aead) {
    var s := w.At(e.side).session;
    e.Deliver? && s.phase == Active && e.payload.WellFormed(s.id) ==>
      var ad := Numbered(s.id, e.payload.seqNo.n);
      var plain := aead.open(s.recvKey, e.payload.nonce.bytes, ad, e.payload.ciphertext.bytes);
      plain.Some? ==> Sealing(s.recvKey, ad, plain.value) in w.table
  }

  function Run(w: World, events: seq<Event>, aead: Aead): World
    decreases |events|
  {
    if events == [] then w else Run(Step(w, events[0], aead), events[1..], aead)
  }

  ghost predicate AllGenuine(w: World, events: seq<Event>, aead: Aead)
    decreases |events|
  {
    events == [] || (Genuine(w, events[0], aead) && AllGenuine(Step(w, events[0], aead), events[1..], aead))
  }

  /** Both sessions as the handshake leaves them: same id and secret, opposite roles. */
  function Start(id: Text, a: Text, b: Text, shared: Secret, ca: Config, cb: Config, ta: real, tb: real): World {
    World(Endpoint(NewSession(id, a, b, shared, true, ca, ta).(phase := Active), [], []),
          Endpoint(NewSession(id, b, a, shared, false, cb, tb).(phase := Active), [], []), {})
  }

  // ------------------------------------------------------------------ the invariant

  function SendKeyOf(shared: Secret, keyInfo: ByteString, x: Side): Secret {
    Derived([shared], keyInfo + (if x == A then INIT_TO_RESP else RESP_TO_INIT))
  }

  /** The two directions never share a key. */
  lemma DirectionsDiffer(shared: Secret, keyInfo: ByteString)
    ensures SendKeyOf(shared, keyInfo, A) != SendKeyOf(shared, keyInfo, B)
  {
    var a, b := keyInfo + INIT_TO_RESP, keyInfo + RESP_TO_INIT;
    assert INIT_TO_RESP[5] == 'i' as int && RESP_TO_INIT[5] == 'r' as int;
    assert a[|keyInfo| + 5] != b[|keyInfo| + 5];
  }

  /** Numbers count what was sent and delivered, and the keys are those of this side. */
  ghost predicate EndInv(e: Endpoint, id: Text, sendKey: Secret, recvKey: Secret) {
    var s := e.session;
    && s.id == id
    && s.config.ordered
    && (s.phase != Revoked ==> s.sendKey == sendKey && s.recvKey == recvKey)
    && s.sendSeq == |e.sent| && s.recvSeq == |e.delivered|
  }

  /** Under this key nothing was sealed but the sent plaintexts, each at its own number. */
  ghost predicate TableInv(table: set<Sealing>, key: Secret, id: Text, sent: seq<ByteString>) {
    forall ad, p :: Sealing(key, ad, p) in table ==> SentAt(id, sent, ad, p)
  }

  ghost predicate SentAt(id: Text, sent: seq<ByteString>, ad: ByteString, p: ByteString) {
    exists i :: 0 <= i < |sent| && ad == Numbered(id, i) && p == sent[i]
  }

  ghost predicate Inv(w: World, id: Text, ka: Secret, kb: Secret) {
    && EndInv(w.a, id, ka, kb) && EndInv(w.b, id, kb, ka)
    && TableInv(w.table, ka, id, w.a.sent) && TableInv(w.table, kb, id, w.b.sent)
    && w.a.delivered <= w.b.sent && w.b.delivered <= w.a.sent
  }

  lemma TableGrows(table: set<Sealing>, key: Secret, used: Secret, id: Text, sent: seq<ByteString>, p: ByteString)
    requires TableInv(table, key, id, sent)
    ensures TableInv(table + {Sealing(used, Numbered(id, |sent|), p)}, key, id, sent + [p])
  {
    forall ad, q | Sealing(key, ad, q) in table + {Sealing(used, Numbered(id, |sent|), p)}
      ensures SentAt(id, sent + [p], ad, q)
    {
      if Sealing(key, ad, q) in table {
        var i :| 0 <= i < |sent| && ad == Numbered(id, i) && q == sent[i];
        assert (sent + [p])[i] == q;
      } else {
        assert ad == Numbered(id, |sent|) && q == (sent + [p])[|sent|];
      }
    }
  }

  lemma SendKeepsInv(w: World, e: Event, aead: Aead, id: Text, ka: Secret, kb: Secret)
    requires Inv(w, id, ka, kb) && ka != kb && e.Send?
    ensures Inv(Step(w, e, aead), id, ka, kb)
  {
    var s := w.At(e.side).session;
    var (s', r) := s.Encrypt(e.now, e.later, e.plaintext, e.nonce, aead);
    if r.Ok? {
      assert s.phase == Active;
      if e.side == A {
        TableGrows(w.table, ka, ka, id, w.a.sent, e.plaintext);
      } else {
        TableGrows(w.table, kb, kb, id, w.b.sent, e.plaintext);
      }
    }
  }

  /** What opened at number |delivered| is the peer's plaintext of that number. */
  lemma NextInOrder(delivered: seq<ByteString>, sent: seq<ByteString>, id: Text, p: ByteString)
    requires delivered <= sent && SentAt(id, sent, Numbered(id, |delivered|), p)
    ensures delivered + [p] <= sent
  {
    var i :| 0 <= i < |sent| && Numbered(id, |delivered|) == Numbered(id, i) && p == sent[i];
    NumberedInjective(id, |delivered|, i);
  }

  /** What a strict-order decrypt does to a session, success and refusal. */
  lemma OrderedDecrypt(s: Session, now: real, later: real, p: Payload, aead: Aead)
    requires s.config.ordered
    ensures var (s', r) := s.Decrypt(now, later, p, aead);
      && (r.Err? ==> s'.(phase := s.phase) == s)
      && (r.Ok? ==>
            && p.WellFormed(s.id) && p.seqNo.n == s.recvSeq && s.phase == Active
            && aead.open(s.recvKey, p.nonce.bytes, Numbered(s.id, s.recvSeq), p.ciphertext.bytes) == Some(r.value)
            && s'.(phase := s.phase) == s.(recvSeq := s.recvSeq + 1))
      && (s'.phase == Revoked <==> s.phase == Revoked)
  {}

  lemma HandUpKeepsInv(w: World, x: Side, s': Session, p: ByteString, id: Text, ka: Secret, kb: Secret)
    requires Inv(w, id, ka, kb)
    requires var s := w.At(x).session;
      s.phase != Revoked && s'.(phase := s.phase) == s.(recvSeq := s.recvSeq + 1)
    requires var s := w.At(x).session;
      Sealing(s.recvKey, Numbered(id, s.recvSeq), p) in w.table
    ensures Inv(w.With(x, w.At(x).(session := s', delivered := w.At(x).delivered + [p])), id, ka, kb)
  {
    hide Numbered;
    NextInOrder(w.At(x).delivered, w.At(x.Peer()).sent, id, p);
  }

  lemma DeliverKeepsInv(w: World, e: Event, aead: Aead, id: Text, ka: Secret, kb: Secret)
    requires Inv(w, id, ka, kb) && e.Deliver? && Genuine(w, e, aead)
    ensures Inv(Step(w, e, aead), id, ka, kb)
  {
    var s := w.At(e.side).session;
    var (s', r) := s.Decrypt(e.now, e.later, e.payload, aead);
    OrderedDecrypt(s, e.now, e.later, e.payload, aead);
    if r.Ok? {
      HandUpKeepsInv(w, e.side, s', r.value, id, ka, kb);
    }
  }

  lemma StepKeepsInv(w: World, e: Event, aead: Aead, id: Text, ka: Secret, kb: Secret)
    requires Inv(w, id, ka, kb) && ka != kb && Genuine(w, e, aead)
    ensures Inv(Step(w, e, aead), id, ka, kb)
  {
    match e
    case Send(_, _, _, _, _) => SendKeepsInv(w, e, aead, id, ka, kb);
    case Deliver(_, _, _, _) => DeliverKeepsInv(w, e, aead, id, ka, kb);
    case Revoke(_) =>
    case Poll(_, _) =>
  }

  lemma {:induction false} RunKeepsInv(w: World, events: seq<Event>, aead: Aead, id: Text, ka: Secret, kb: Secret)
    requires Inv(w, id, ka, kb) && ka != kb && AllGenuine(w, events, aead)
    ensures Inv(Run(w, events, aead), id, ka, kb)
    decreases |events|
  {
    if events != [] {
      StepKeepsInv(w, events[0], aead, id, ka, kb);
      RunKeepsInv(Step(w, events[0], aead), events[1..], aead, id, ka, kb);
    }
  }

  /** In every run and both directions, the delivered plaintexts are a prefix of those sent. */
  lemma OrderedDelivery(id: Text, a: Text, b: Text, shared: Secret, ca: Config, cb: Config, ta: real, tb: real,
                        events: seq<Event>, aead: Aead, x: Side)
    requires ca.ordered && cb.ordered && ca.keyInfo == cb.keyInfo
    requires AllGenuine(Start(id, a, b, shared, ca, cb, ta, tb), events, aead)
    ensures var w := Run(Start(id, a, b, shared, ca, cb, ta, tb), events, aead);
      && w.At(x).delivered <= w.At(x.Peer()).sent
      && w.At(x).session.recvSeq == |w.At(x).delivered|
      && w.At(x).session.sendSeq == |w.At(x).sent|
  {
    var ka, kb := SendKeyOf(shared, ca.keyInfo, A), SendKeyOf(shared, ca.keyInfo, B);
    DirectionsDiffer(shared, ca.keyInfo);
    var w := Start(id, a, b, shared, ca, cb, ta, tb);
    assert Inv(w, id, ka, kb);
    RunKeepsInv(w, events, aead, id, ka, kb);
  }

  /** The network can always do its job: the peer's next payload, unaltered, is delivered. */
  lemma NextPayloadArrives(s: Session, t: Session, plaintext: ByteString, nonce: ByteString, aead: Aead,
                           now: real, later: real, now': real, later': real)
    requires aead.Correct()
    requires s.id == t.id && s.sendKey == t.recvKey && s.sendSeq == t.recvSeq && t.config.ordered
    requires s.Encrypt(now, later, plaintext, nonce, aead).1.Ok?
    requires t.Tick(now').phase == Active
    ensures t.Decrypt(now', later', s.Encrypt(now, later, plaintext, nonce, aead).1.value, aead).1 == Ok(plaintext)
  {
    assert aead.open(s.sendKey, nonce, Numbered(s.id, s.sendSeq),
                     aead.seal(s.sendKey, nonce, Numbered(s.id, s.sendSeq), plaintext)) == Some(plaintext);
  }
}
