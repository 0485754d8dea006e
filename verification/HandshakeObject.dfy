/** The Handshake object of uxsp/core/handshake.py, against the pure steps of module Handshake. */
module HandshakeObject {
  import opened Wrappers
  import opened Bytes
  import opened Ideal
  import opened Sessions
  import opened NonceStore
  import BindFields
  import H = Handshake

  class Handshake {
    var helloMsg: Option<H.Hello>
    var ackMsg: Option<H.Ack>
    var session: SessionObject?
    var secretA: Option<Secret>
    var sessionId: Option<Text>
    var config: Option<Config>
    var initiator: Option<Text>
    var respCard: Option<H.Card>

    /** What complete() works from; nothing unless this object came from initiate(). */
    ghost function Begun(): Option<H.Initiation>
      reads this
    {
      if helloMsg.Some? && initiator.Some? && sessionId.Some? && secretA.Some? && respCard.Some? && config.Some? then
        Some(H.Initiation(initiator.value, respCard.value, helloMsg.value, secretA.value, config.value))
      else None
    }

    /** Only initiate() fills these fields, and it fills all of them. */
    ghost predicate Valid()
      reads this
    {
      && (helloMsg.Some? <==> initiator.Some?) && (helloMsg.Some? <==> secretA.Some?) && (helloMsg.Some? <==> respCard.Some?)
      && (helloMsg.Some? ==> config.Some? && helloMsg.value.Hello? && sessionId == Some(helloMsg.value.sessionId))
    }

    constructor ()
      ensures Valid() && Begun() == None && session == null && ackMsg == None && config == None
    {
      helloMsg, ackMsg, session, secretA, sessionId, config, initiator, respCard :=
        None, None, null, None, None, None, None, None;
    }

    static method Initiate(initiator: Text, card: H.Card, sessionId: Text, eph: ByteString, ct: ByteString,
                           config: Config, now: real)
      returns (r: Result<Handshake, H.HandshakeError>)
      ensures match H.Initiate(initiator, card, sessionId, eph, ct, config, now)
        case Err(e) => r == Err(e)
        case Ok(p) => r.Ok? && fresh(r.value) && r.value.Valid() && r.value.Begun() == Some(p) && r.value.session == null
    {
      hide H.HelloFields, BindFields.Bind;
      var hs := new Handshake();
      hs.sessionId := Some(sessionId);
      hs.config := Some(config);
      hs.initiator := Some(initiator);
      hs.respCard := Some(card);
      var made := H.MakeHello(initiator, card, sessionId, eph, ct, now);
      if made.Err? {
        return Err(made.error);
      }
      hs.helloMsg := Some(made.value);
      hs.secretA := Some(Exchange(card.keysOf, eph, ct));
      return Ok(hs);
    }

    /** What a call that made a session leaves behind. */
    ghost predicate Holds(value: Session, aead: Aead)
      reads this, session
    {
      session != null && session.Value() == value && session.aead == aead
    }

    static method Respond(env: H.Env, responder: Text, h: H.Hello, card: H.Card, nonceStore: MemoryNonceStore,
                          config: Config, x: H.RespondInput, aead: Aead)
      returns (r: Result<Handshake, H.HandshakeError>)
      modifies nonceStore
      ensures var (store', answer) := H.Respond(env, responder, h, card, config, old(nonceStore.Value()), x);
        && nonceStore.Value() == store'
        && match answer
           case Err(e) => r == Err(e)
           case Ok(a) =>
             && r.Ok? && fresh(r.value) && r.value.Valid() && r.value.Begun() == None
             && r.value.ackMsg == Some(a.ack) && r.value.Holds(a.session, aead) && fresh(r.value.session)
             && a.session.phase == Active && a.session.Sound() && r.value.session.config == config
    {
      hide H.VerifyHello, H.MakeAck, H.FinalSecret, Store.MarkUsed, DirectionKey;
      var hs := new Handshake();
      hs.config := Some(config);
      if h.TruncatedHello? {
        return Err(H.AuthError);
      }
      hs.sessionId := Some(h.sessionId);
      if !env.isUuid(h.sessionId) {
        return Err(H.AuthError);
      }
      var version := H.VerifyHello(h, card, responder, x.readAt);
      if version.Err? {
        return Err(version.error);
      }
      var marked := nonceStore.MarkUsed(H.HelloKey(h.sessionId), H.MARK_TTL, x.markAt);
      if marked.Err? {
        return Err(H.StoreUnavailable);
      }
      if !marked.value {
        return Err(H.ExpiredError);
      }
      var secretA := Exchange(responder, h.ephemeralPub, h.kemCiphertext);
      var ack := H.MakeAck(env, responder, h.sessionId, h.initiatorId, secretA, version.value, x.eph, x.ct, x.ackAt);
      if ack.Err? {
        return Err(ack.error);
      }
      hs.ackMsg := Some(ack.value);
      var final := H.FinalSecret(secretA, Exchange(card.keysOf, x.eph, x.ct), h.sessionId, h.initiatorId, responder);
      var session := new SessionObject(h.sessionId, responder, h.initiatorId, final, false, config, x.createdAt, aead);
      var _ := session.Activate();
      hs.session := session;
      return Ok(hs);
    }

    method Complete(env: H.Env, a: H.Ack, card: H.Card, nonceStore: MemoryNonceStore, readAt: real, markAt: real,
                    createdAt: real, aead: Aead)
      returns (r: Result<SessionObject, H.HandshakeError>)
      requires Valid()
      modifies this`session, nonceStore
      ensures Valid() && Begun() == old(Begun())
      ensures Begun() == None ==> r == Err(H.ProtocolError) && nonceStore.Value() == old(nonceStore.Value())
      ensures Begun() != None ==>
        var (store', outcome) := H.Complete(env, Begun().value, a, card, old(nonceStore.Value()), readAt, markAt, createdAt);
        && nonceStore.Value() == store'
        && match outcome
           case Err(e) => r == Err(e)
           case Ok(o) =>
             && r.Ok? && fresh(r.value) && session == r.value && Holds(o.session, aead)
             && o.session.phase == Active && o.session.Sound() && r.value.config == Begun().value.config
      ensures r.Err? ==> session == old(session)
    {
      hide H.VerifyAck, H.FinalSecret, Store.MarkUsed, DirectionKey;
      if helloMsg.None? || initiator.None? || sessionId.None? || secretA.None? {
        return Err(H.ProtocolError);
      }
      var invalid := H.VerifyAck(a, card, readAt);
      if invalid.Some? {
        return Err(invalid.value);
      }
      VerifiedAckIsAck(a, card, readAt);
      if a.sessionId != sessionId.value {
        return Err(H.AuthError);
      }
      if a.initiatorId != initiator.value {
        return Err(H.AuthError);
      }
      if a.responderId != card.entityId {
        return Err(H.AuthError);
      }
      var marked := nonceStore.MarkUsed(H.AckKey(a.sessionId), H.MARK_TTL, markAt);
      if marked.Err? {
        return Err(H.StoreUnavailable);
      }
      if !marked.value {
        return Err(H.ExpiredError);
      }
      if respCard.Some? && respCard.value.entityId != card.entityId {
        return Err(H.AuthError);
      }
      if a.proof != env.mac(secretA.value, a.sessionId + H.PROOF_SUFFIX) {
        return Err(H.ProofError);
      }
      var secretB := Exchange(initiator.value, a.ephemeralPub, a.kemCiphertext);
      var final := H.FinalSecret(secretA.value, secretB, sessionId.value, initiator.value, card.entityId);
      var made := new SessionObject(sessionId.value, initiator.value, card.entityId, final, true, config.value, createdAt, aead);
      var _ := made.Activate();
      session := made;
      return Ok(made);
    }
  }

  lemma VerifiedAckIsAck(a: H.Ack, card: H.Card, now: real)
    requires H.VerifyAck(a, card, now).None?
    ensures a.Ack?
  {}
}
