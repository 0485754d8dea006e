/**
 The three-step handshake of uxsp/core/handshake.py: the checks, messages and key derivation as
 pure functions, and the Handshake object that strings them together.
 */
module Handshake {
  import opened Wrappers
  import opened Bytes
  import opened BindFields
  import opened Ideal
  import opened Sessions
  import opened NonceStore

  datatype HandshakeError = AuthError | ExpiredError | ProofError | ProtocolError | EncodingError | StoreUnavailable

  /** A public card: whose name it bears, and whose key pairs it really holds. */
  datatype Card = Card(entityId: Text, keysOf: Text) {
    predicate Genuine() { entityId == keysOf }
  }

  predicate Verifies(message: ByteString, sig: Signature, card: Card) {
    sig == Signature(card.keysOf, message)
  }

  /** What comes from outside the protocol: HMAC-SHA256 in hex, and the test of uuid.UUID. */
  datatype Env = Env(mac: (Secret, Text) -> Text, isUuid: Text -> bool) {
    ghost predicate MacIdeal() {
      forall k, m, k', m' :: mac(k, m) == mac(k', m') ==> k == k' && m == m'
    }
  }

  const HELLO_TAG := Ascii("UXSP-HELLO")
  const ACK_TAG := Ascii("UXSP-ACK")
  const VERSION_1 := Ascii("1")
  const SUPPORTED_VERSIONS: seq<Text> := [VERSION_1]
  const PROOF_SUFFIX := Ascii(":responder-proof")
  const FINAL_INFO := Ascii("UXSP-final-session-key:")
  const HELLO_PREFIX := Ascii("hello:")
  const ACK_PREFIX := Ascii("ack:")

  const MAX_AGE: int := 30
  const MARK_TTL: int := 90

  // ------------------------------------------------------------------ messages

  /** Either message with a field missing or ill-typed is Truncated. */
  datatype Hello =
    | TruncatedHello
    | Hello(kind: Text, versions: seq<Text>, sessionId: Text, initiatorId: Text, responderId: Text,
            timestamp: int, ephemeralPub: ByteString, kemCiphertext: ByteString, sig: Signature)

  datatype Ack =
    | TruncatedAck
    | Ack(kind: Text, version: Text, sessionId: Text, responderId: Text, initiatorId: Text,
          timestamp: int, proof: Text, ephemeralPub: ByteString, kemCiphertext: ByteString, sig: Signature)

  /** ",".join(versions) */
  function Joined(versions: seq<Text>): Text {
    if versions == [] then []
    else if |versions| == 1 then versions[0]
    else versions[0] + [COMMA] + Joined(versions[1..])
  }

  function HelloFields(h: Hello): seq<ByteString>
    requires h.Hello?
  {
    [HELLO_TAG, Joined(h.versions), h.sessionId, h.initiatorId, h.responderId, h.ephemeralPub, h.kemCiphertext,
     Decimal(h.timestamp)]
  }

  function AckFields(a: Ack): seq<ByteString>
    requires a.Ack?
  {
    [ACK_TAG, a.version, a.sessionId, a.responderId, a.initiatorId, a.proof, a.ephemeralPub, a.kemCiphertext,
     Decimal(a.timestamp)]
  }

  /** int(time.time()) */
  function Truncated(now: real): int {
    now.Floor
  }

  predicate FreshAt(timestamp: int, now: real) {
    -MAX_AGE <= Truncated(now) - timestamp <= MAX_AGE
  }

  function HelloKey(sessionId: Text): Text { HELLO_PREFIX + sessionId }
  function AckKey(sessionId: Text): Text { ACK_PREFIX + sessionId }

  // ------------------------------------------------------------------ step 1: HELLO

  /** _make_hello, with the outcome of hybrid_sender_exchange given. */
  function MakeHello(initiator: Text, card: Card, sessionId: Text, eph: ByteString, ct: ByteString, now: real)
    : Result<Hello, HandshakeError>
  {
    var unsigned := Hello(HELLO_TAG, SUPPORTED_VERSIONS, sessionId, initiator, card.entityId, Truncated(now),
                          eph, ct, Signature(initiator, []));
    match Bind(HelloFields(unsigned))
    case None => Err(EncodingError)
    case Some(signable) => Ok(unsigned.(sig := Signature(initiator, signable)))
  }

  /** _verify_hello_signature: the negotiated version. */
  function VerifyHello(h: Hello, card: Card, responder: Text, now: real): Result<Text, HandshakeError> {
    if h.TruncatedHello? then Err(AuthError)
    else if h.kind != HELLO_TAG then Err(AuthError)
    else if !FreshAt(h.timestamp, now) then Err(ExpiredError)
    else if h.initiatorId != card.entityId then Err(AuthError)
    else if h.responderId != responder then Err(AuthError)
    else if VERSION_1 !in h.versions then Err(AuthError)
    else match Bind(HelloFields(h))
      case None => Err(AuthError)
      case Some(signable) => if Verifies(signable, h.sig, card) then Ok(VERSION_1) else Err(AuthError)
  }

  // ------------------------------------------------------------------ step 2: ACK

  /** _make_ack, with the outcome of hybrid_sender_exchange given. */
  function MakeAck(env: Env, responder: Text, sessionId: Text, initiatorId: Text, secretA: Secret, version: Text,
                   eph: ByteString, ct: ByteString, now: real): Result<Ack, HandshakeError>
  {
    var proof := env.mac(secretA, sessionId + PROOF_SUFFIX);
    var unsigned := Ack(ACK_TAG, version, sessionId, responder, initiatorId, Truncated(now), proof, eph, ct,
                        Signature(responder, []));
    match Bind(AckFields(unsigned))
    case None => Err(EncodingError)
    case Some(signable) => Ok(unsigned.(sig := Signature(responder, signable)))
  }

  /** _verify_ack_signature */
  function VerifyAck(a: Ack, card: Card, now: real): Option<HandshakeError> {
    if a.TruncatedAck? then Some(AuthError)
    else if a.kind != ACK_TAG then Some(AuthError)
    else if !FreshAt(a.timestamp, now) then Some(ExpiredError)
    else if a.version !in SUPPORTED_VERSIONS then Some(AuthError)
    else match Bind(AckFields(a))
      case None => Some(AuthError)
      case Some(signable) => if Verifies(signable, a.sig, card) then None else Some(AuthError)
  }

  function FinalSecret(a: Secret, b: Secret, sessionId: Text, initiator: Text, responder: Text): Secret {
    Derived([a, b], FINAL_INFO + sessionId + [COLON] + initiator + [COLON] + responder)
  }

  /** The random choices and clock readings of one respond call. */
  datatype RespondInput = RespondInput(eph: ByteString, ct: ByteString, readAt: real, markAt: real, ackAt: real, createdAt: real)

  datatype Answer = Answer(ack: Ack, final: Secret, session: Session)

  /** Handshake.respond */
  function Respond(env: Env, responder: Text, h: Hello, card: Card, config: Config, store: Store, x: RespondInput)
    : (Store, Result<Answer, HandshakeError>)
  {
    if h.TruncatedHello? || !env.isUuid(h.sessionId) then (store, Err(AuthError))
    else match VerifyHello(h, card, responder, x.readAt)
      case Err(e) => (store, Err(e))
      case Ok(version) =>
        var (store, marked) := store.MarkUsed(HelloKey(h.sessionId), MARK_TTL, x.markAt);
        if marked.Err? then (store, Err(StoreUnavailable))
        else if !marked.value then (store, Err(ExpiredError))
        else
          var secretA := Exchange(responder, h.ephemeralPub, h.kemCiphertext);
          match MakeAck(env, responder, h.sessionId, h.initiatorId, secretA, version, x.eph, x.ct, x.ackAt)
          case Err(e) => (store, Err(e))
          case Ok(ack) =>
            var final := FinalSecret(secretA, Exchange(card.keysOf, x.eph, x.ct), h.sessionId, h.initiatorId, responder);
            var session := NewSession(h.sessionId, responder, h.initiatorId, final, false, config, x.createdAt);
            (store, Ok(Answer(ack, final, session.(phase := Active))))
  }

  // ------------------------------------------------------------------ step 3: completion

  /** What initiate leaves in the Handshake object. */
  datatype Initiation = Initiation(initiator: Text, card: Card, hello: Hello, secretA: Secret, config: Config)

  /** Handshake.initiate, with the session id drawn and the exchange done. */
  function Initiate(initiator: Text, card: Card, sessionId: Text, eph: ByteString, ct: ByteString, config: Config, now: real)
    : Result<Initiation, HandshakeError>
  {
    match MakeHello(initiator, card, sessionId, eph, ct, now)
    case Err(e) => Err(e)
    case Ok(h) => Ok(Initiation(initiator, card, h, Exchange(card.keysOf, eph, ct), config))
  }

  datatype Outcome = Outcome(final: Secret, session: Session)

  /** Handshake.complete */
  function Complete(env: Env, p: Initiation, a: Ack, card: Card, store: Store, readAt: real, markAt: real, createdAt: real)
    : (Store, Result<Outcome, HandshakeError>)
    requires p.hello.Hello?
  {
    var invalid := VerifyAck(a, card, readAt);
    if invalid.Some? then (store, Err(invalid.value))
    else if a.sessionId != p.hello.sessionId then (store, Err(AuthError))
    else if a.initiatorId != p.initiator then (store, Err(AuthError))
    else if a.responderId != card.entityId then (store, Err(AuthError))
    else
      var (store, marked) := store.MarkUsed(AckKey(a.sessionId), MARK_TTL, markAt);
      if marked.Err? then (store, Err(StoreUnavailable))
      else if !marked.value then (store, Err(ExpiredError))
      else if p.card.entityId != card.entityId then (store, Err(AuthError))
      else if a.proof != env.mac(p.secretA, a.sessionId + PROOF_SUFFIX) then (store, Err(ProofError))
      else
        var secretB := Exchange(p.initiator, a.ephemeralPub, a.kemCiphertext);
        var final := FinalSecret(p.secretA, secretB, p.hello.sessionId, p.initiator, card.entityId);
        var session := NewSession(p.hello.sessionId, p.initiator, card.entityId, final, true, p.config, createdAt);
        (store, Ok(Outcome(final, session.(phase := Active))))
  }

  // ------------------------------------------------------------------ what the signed bytes determine

  lemma HelloBytesDetermine(h: Hello, g: Hello)
    requires h.Hello? && g.Hello? && AllShort(HelloFields(h)) && AllShort(HelloFields(g))
    requires Encoded(HelloFields(h)) == Encoded(HelloFields(g))
    ensures h.sessionId == g.sessionId && h.initiatorId == g.initiatorId && h.responderId == g.responderId
    ensures h.ephemeralPub == g.ephemeralPub && h.kemCiphertext == g.kemCiphertext && h.timestamp == g.timestamp
    ensures Joined(h.versions) == Joined(g.versions)
  {
    hide Encoded, AllShort, Decimal, Joined;
    var f, k := HelloFields(h), HelloFields(g);
    EncodedInjective(f, k);
    assert f[1] == k[1] && f[2] == k[2] && f[3] == k[3] && f[4] == k[4] && f[5] == k[5] && f[6] == k[6] && f[7] == k[7];
    DecimalInjective(h.timestamp, g.timestamp);
  }

  lemma AckBytesDetermine(a: Ack, b: Ack)
    requires a.Ack? && b.Ack? && AllShort(AckFields(a)) && AllShort(AckFields(b))
    requires Encoded(AckFields(a)) == Encoded(AckFields(b))
    ensures a.version == b.version && a.sessionId == b.sessionId
    ensures a.responderId == b.responderId && a.initiatorId == b.initiatorId && a.proof == b.proof
    ensures a.ephemeralPub == b.ephemeralPub && a.kemCiphertext == b.kemCiphertext && a.timestamp == b.timestamp
  {
    hide Encoded, AllShort, Decimal;
    var f, k := AckFields(a), AckFields(b);
    EncodedInjective(f, k);
    assert f[1] == k[1] && f[2] == k[2] && f[3] == k[3] && f[4] == k[4] && f[5] == k[5] && f[6] == k[6] && f[7] == k[7] && f[8] == k[8];
    DecimalInjective(a.timestamp, b.timestamp);
  }

  /** A signed HELLO can never stand in for a signed ACK. */
  lemma HelloIsNoAck(h: Hello, a: Ack)
    requires h.Hello? && a.Ack? && AllShort(HelloFields(h)) && AllShort(AckFields(a))
    ensures Encoded(HelloFields(h)) != Encoded(AckFields(a))
  {
    hide Encoded, AllShort, Decimal, Joined;
    if Encoded(HelloFields(h)) == Encoded(AckFields(a)) {
      EncodedInjective(HelloFields(h), AckFields(a));
    }
  }

  // ------------------------------------------------------------------ what is made and what is accepted

  lemma JoinedExample()
    ensures Joined([Ascii("1"), Ascii("2")]) == Ascii("1,2")
  {
    assert [Ascii("1"), Ascii("2")][1..] == [Ascii("2")];
  }

  /** What initiate remembers of a handshake. */
  lemma InitiateSays(initiator: Text, card: Card, sessionId: Text, eph: ByteString, ct: ByteString, config: Config, now: real)
    ensures var r, h := Initiate(initiator, card, sessionId, eph, ct, config, now), MakeHello(initiator, card, sessionId, eph, ct, now);
      if h.Err? then r == Err(h.error)
      else r == Ok(Initiation(initiator, card, h.value, Exchange(card.keysOf, eph, ct), config))
  {
    hide MakeHello;
  }

  /** What a HELLO says, and that its maker signed all of it. */
  lemma HelloSays(initiator: Text, card: Card, sessionId: Text, eph: ByteString, ct: ByteString, now: real)
    requires MakeHello(initiator, card, sessionId, eph, ct, now).Ok?
    ensures var h := MakeHello(initiator, card, sessionId, eph, ct, now).value;
      && h.Hello? && h.kind == HELLO_TAG && h.versions == [VERSION_1] && h.sessionId == sessionId
      && h.initiatorId == initiator && h.responderId == card.entityId && h.timestamp == now.Floor
      && h.ephemeralPub == eph && h.kemCiphertext == ct
      && AllShort(HelloFields(h)) && h.sig == Signature(initiator, Encoded(HelloFields(h)))
  {
    hide AllShort, Encoded, Parse, Decimal, Joined;
  }

  /** Exactly which HELLO a responder accepts, and when it calls one expired. */
  lemma HelloAcceptedExactly(h: Hello, card: Card, responder: Text, now: real)
    ensures var r := VerifyHello(h, card, responder, now);
      && (r.Ok? <==>
            && h.Hello? && h.kind == HELLO_TAG && -30 <= now.Floor - h.timestamp <= 30
            && h.initiatorId == card.entityId && h.responderId == responder && VERSION_1 in h.versions
            && AllShort(HelloFields(h)) && h.sig == Signature(card.keysOf, Encoded(HelloFields(h))))
      && (r.Ok? ==> r.value == VERSION_1)
      && (r.Err? ==> r.error == if h.Hello? && h.kind == HELLO_TAG && !(-30 <= now.Floor - h.timestamp <= 30)
                                then ExpiredError else AuthError)
  {
    hide AllShort, Encoded, Parse, HelloFields;
  }

  /** What an ACK says, and that its maker signed all of it. */
  lemma AckSays(env: Env, responder: Text, sessionId: Text, initiatorId: Text, secretA: Secret, version: Text,
                eph: ByteString, ct: ByteString, now: real)
    requires MakeAck(env, responder, sessionId, initiatorId, secretA, version, eph, ct, now).Ok?
    ensures var a := MakeAck(env, responder, sessionId, initiatorId, secretA, version, eph, ct, now).value;
      && a.Ack? && a.kind == ACK_TAG && a.version == version && a.sessionId == sessionId
      && a.responderId == responder && a.initiatorId == initiatorId && a.timestamp == now.Floor
      && a.proof == env.mac(secretA, sessionId + PROOF_SUFFIX) && a.ephemeralPub == eph && a.kemCiphertext == ct
      && AllShort(AckFields(a)) && a.sig == Signature(responder, Encoded(AckFields(a)))
  {
    hide AllShort, Encoded, Parse, Decimal;
  }

  /** Exactly which ACK passes the checks of its signature and metadata, and when it is called expired. */
  lemma AckAcceptedExactly(a: Ack, card: Card, now: real)
    ensures var r := VerifyAck(a, card, now);
      && (r.None? <==>
            && a.Ack? && a.kind == ACK_TAG && -30 <= now.Floor - a.timestamp <= 30 && a.version == VERSION_1
            && AllShort(AckFields(a)) && a.sig == Signature(card.keysOf, Encoded(AckFields(a))))
      && (r.Some? ==> r.value == if a.Ack? && a.kind == ACK_TAG && !(-30 <= now.Floor - a.timestamp <= 30)
                                 then ExpiredError else AuthError)
  {
    hide AllShort, Encoded, Parse, AckFields;
  }

  /** respond marks the store exactly for a HELLO it accepts, before anything else, and answers exactly if the mark is the first. */
  lemma RespondExactly(env: Env, responder: Text, h: Hello, card: Card, config: Config, store: Store, x: RespondInput)
    ensures var (store', r) := Respond(env, responder, h, card, config, store, x);
      if h.Hello? && env.isUuid(h.sessionId) && VerifyHello(h, card, responder, x.readAt).Ok? then
        var (marked, first) := store.MarkUsed(HelloKey(h.sessionId), 90, x.markAt);
        && store' == marked
        && (first == Ok(false) ==> r == Err(ExpiredError)) && (first.Err? ==> r == Err(StoreUnavailable))
        && (var ack := MakeAck(env, responder, h.sessionId, h.initiatorId,
                               Exchange(responder, h.ephemeralPub, h.kemCiphertext), VERSION_1, x.eph, x.ct, x.ackAt);
            r.Ok? <==> first == Ok(true) && ack.Ok?)
        && (r.Ok? ==> r.value.session.config == config && r.value.session.createdAt == x.createdAt && r.value.session.phase == Active)
      else store' == store && r.Err?
  {
    HelloAcceptedExactly(h, card, responder, x.readAt);
    hide VerifyHello, MakeAck, FinalSecret, Store.MarkUsed, DirectionKey, HelloFields, AllShort, Encoded;
  }

  /** complete marks the store exactly for an ACK that verifies and names this handshake; card and proof are looked at after. */
  lemma CompleteExactly(env: Env, p: Initiation, a: Ack, card: Card, store: Store, readAt: real, markAt: real, createdAt: real)
    requires p.hello.Hello?
    ensures var (store', r) := Complete(env, p, a, card, store, readAt, markAt, createdAt);
      if VerifyAck(a, card, readAt).None? && a.Ack? && a.sessionId == p.hello.sessionId && a.initiatorId == p.initiator
         && a.responderId == card.entityId then
        var (marked, first) := store.MarkUsed(AckKey(a.sessionId), 90, markAt);
        && store' == marked
        && (r.Ok? <==> first == Ok(true) && p.card.entityId == card.entityId
                       && a.proof == env.mac(p.secretA, a.sessionId + PROOF_SUFFIX))
        && (first == Ok(false) ==> r == Err(ExpiredError)) && (first.Err? ==> r == Err(StoreUnavailable))
        && (first == Ok(true) && p.card.entityId == card.entityId && r.Err? ==> r == Err(ProofError))
        && (r.Ok? ==> r.value.session.config == p.config && r.value.session.createdAt == createdAt && r.value.session.phase == Active)
      else store' == store && r.Err?
  {
    AckAcceptedExactly(a, card, readAt);
    hide VerifyAck, FinalSecret, Store.MarkUsed, DirectionKey, AckFields, AllShort, Encoded;
  }

  // ------------------------------------------------------------------ the final secret

  /** The final secret rests on both exchanges, and between the same parties names its session. */
  lemma FinalSecretDetermines(a: Secret, b: Secret, id: Text, i: Text, r: Text, a': Secret, b': Secret, id': Text)
    requires FinalSecret(a, b, id, i, r) == FinalSecret(a', b', id', i, r)
    ensures a == a' && b == b' && id == id'
  {
    BothExchanges(a, b, id, i, r, a', b', id', i, r);
    var s, t := FINAL_INFO + id + [COLON] + i + [COLON] + r, FINAL_INFO + id' + [COLON] + i + [COLON] + r;
    assert s == t;
    assert |s| == |FINAL_INFO| + |id| + 2 + |i| + |r| && |t| == |FINAL_INFO| + |id'| + 2 + |i| + |r|;
    assert id == s[|FINAL_INFO|..|FINAL_INFO| + |id|] && id' == t[|FINAL_INFO|..|FINAL_INFO| + |id'|];
  }

  lemma BothExchanges(a: Secret, b: Secret, id: Text, i: Text, r: Text, a': Secret, b': Secret, id': Text, i': Text, r': Text)
    requires FinalSecret(a, b, id, i, r) == FinalSecret(a', b', id', i', r')
    ensures a == a' && b == b'
  {
    assert FinalSecret(a, b, id, i, r).ikm[0] == a && FinalSecret(a, b, id, i, r).ikm[1] == b;
  }

  /** What can be computed from known secrets: derivations of computable ones; keys given as bytes or wiped are public. */
  predicate Derivable(known: set<Secret>, s: Secret)
    decreases s
  {
    s in known || s.Zeroed? || s.Raw? || (s.Derived? && forall i | 0 <= i < |s.ikm| :: Derivable(known, s.ikm[i]))
  }

  /** Whoever was not given the final secret or the key itself computes a direction key only from both exchanges. */
  lemma KeysNeedBothExchanges(known: set<Secret>, a: Secret, b: Secret, id: Text, i: Text, r: Text, config: Config, initToResp: bool)
    requires a.Exchange? && b.Exchange?
    requires var final := FinalSecret(a, b, id, i, r); final !in known && DirectionKey(final, config, initToResp) !in known
    ensures Derivable(known, FinalSecret(a, b, id, i, r)) <==> a in known && b in known
    ensures Derivable(known, DirectionKey(FinalSecret(a, b, id, i, r), config, initToResp)) <==> a in known && b in known
  {
    var final := FinalSecret(a, b, id, i, r);
    var key := DirectionKey(final, config, initToResp);
    assert final.ikm[0] == a && final.ikm[1] == b && |final.ikm| == 2;
    assert Derivable(known, a) <==> a in known;
    assert Derivable(known, b) <==> b in known;
    assert Derivable(known, final) <==> a in known && b in known;
    assert key.ikm[0] == final && |key.ikm| == 1;
  }
}
