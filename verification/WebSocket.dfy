/** The session manager of uxsp/transport/websocket.py: which session it holds, and that closed stays closed. */
module WebSocket {
  import opened Wrappers
  import opened Bytes
  import opened Ideal
  import opened Sessions
  import opened NonceStore
  import H = Handshake
  import opened HandshakeObject

  /** A frame, by type, with the part of its payload that type uses. */
  datatype Frame =
    | HelloFrame(hello: H.Hello)
    | AckFrame(ack: H.Ack)
    | CompleteFrame(sessionId: Option<Text>)
    | DataFrame(data: Payload)
    | CloseFrame(sealed: Payload, reason: Text)
    | ResumeFrame(claim: Claim)
    | ResumeAckFrame(claim: Claim)
    | OtherFrame

  /** What a resume frame claims, and the tag over it. */
  datatype Claim = Claim(sessionId: Option<Text>, lastSeq: Text, nonce: Text, tag: Text)

  datatype SocketError =
    | NotEstablished | UnexpectedFrame | Misuse | NotAnObject | Mismatch | BadTag | RateLimited
    | HandshakeFailed(h: H.HandshakeError) | SessionFailed(s: SessionError)

  const RESUME := Ascii("RESUME:")
  const RESUME_ACK := Ascii("RESUME_ACK:")
  const UNAUTHENTICATED := Ascii("unauthenticated-close")

  function ResumeMessage(tag: Text, id: Text, lastSeq: Text, nonce: Text): Text {
    tag + id + [COLON] + lastSeq + [COLON] + nonce
  }

  class UXSPWebSocket {
    const env: H.Env
    const aead: Aead
      /** The reason in a decrypted close payload; None unless it is a JSON object. */
    const reasonIn: ByteString -> Option<Text>
      /** The pong to what a ping decrypted to, or to the ping itself; None unless that is a JSON object. */
    const echoOf: Option<ByteString> -> Option<ByteString>
    const identity: Text
    const config: Config
    const nonceStore: MemoryNonceStore
    var session: SessionObject?
    var hs: Handshake?
    var remoteCard: Option<H.Card>
      /** Every session this socket holds, held, or may be handed by handle_resume. */
    ghost var sessions: set<SessionObject>

    ghost predicate Valid()
      reads this, hs, sessions
    {
      && (session != null ==> session in sessions)
      && (hs != null ==> hs.Valid() && (hs.session != null ==> hs.session in sessions))
      && (forall s | s in sessions :: s.Value().Sound())
    }

    constructor (env: H.Env, aead: Aead, reasonIn: ByteString -> Option<Text>, echoOf: Option<ByteString> -> Option<ByteString>,
                 identity: Text, card: Option<H.Card>, config: Config, nonceStore: MemoryNonceStore, ghost known: set<SessionObject>)
      requires forall s | s in known :: s.Value().Sound()
      ensures Valid() && session == null && hs == null && sessions == known && this.nonceStore == nonceStore
    {
      this.env, this.aead, this.reasonIn, this.identity, this.config := env, aead, reasonIn, identity, config;
      this.echoOf := echoOf;
      this.nonceStore := nonceStore;
      session, hs, remoteCard := null, null, card;
      sessions := known;
    }

    // -------------------------------------------------------------- the initiator

    method StartHandshake(sessionId: Text, eph: ByteString, ct: ByteString, now: real)
      returns (r: Result<H.Hello, SocketError>)
      requires Valid()
      modifies this`hs
      ensures Valid() && (hs == old(hs) || fresh(hs))
      ensures r.Err? ==> hs == old(hs)
      ensures r.Ok? ==> hs != null && hs.session == null && hs.helloMsg == Some(r.value)
      ensures remoteCard.None? ==> r == Err(Misuse)
      ensures remoteCard.Some? ==>
        match H.Initiate(identity, remoteCard.value, sessionId, eph, ct, config, now)
        case Err(e) => r == Err(HandshakeFailed(e))
        case Ok(p) => r == Ok(p.hello) && hs.Begun() == Some(p)
    {
      if remoteCard.None? {
        return Err(Misuse);
      }
      var made := Handshake.Initiate(identity, remoteCard.value, sessionId, eph, ct, config, now);
      if made.Err? {
        return Err(HandshakeFailed(made.error));
      }
      hs := made.value;
      return Ok(hs.helloMsg.value);
    }

    method CompleteHandshake(f: Frame, readAt: real, markAt: real, createdAt: real)
      returns (r: Result<Frame, SocketError>)
      requires Valid()
      modifies this`session, this`sessions, hs, nonceStore
      ensures Valid() && old(sessions) <= sessions && fresh(sessions - old(sessions))
      ensures r.Err? ==> session == old(session) && sessions == old(sessions)
      ensures r.Ok? ==> session != null && fresh(session) && hs != null && hs.session == session
                        && session.phase == Active && r.value == CompleteFrame(Some(session.id))
      ensures hs == null || remoteCard.None? ==> r == Err(NotEstablished)
      ensures hs != null && remoteCard.Some? && !f.AckFrame? ==> r == Err(UnexpectedFrame)
      ensures hs != null && remoteCard.Some? && f.AckFrame? ==>
        if old(hs.Begun()) == None then r == Err(HandshakeFailed(H.ProtocolError))
        else
          var (store', outcome) := H.Complete(env, old(hs.Begun()).value, f.ack, remoteCard.value, old(nonceStore.Value()),
                                              readAt, markAt, createdAt);
          && nonceStore.Value() == store'
          && match outcome
             case Err(e) => r == Err(HandshakeFailed(e))
             case Ok(o) => r.Ok? && session.Value() == o.session
    {
      hide H.Complete, Session.Sound, Store.MarkUsed;
      if hs == null || remoteCard.None? {
        return Err(NotEstablished);
      }
      if !f.AckFrame? {
        return Err(UnexpectedFrame);
      }
      var made := hs.Complete(env, f.ack, remoteCard.value, nonceStore, readAt, markAt, createdAt, aead);
      if made.Err? {
        return Err(HandshakeFailed(made.error));
      }
      session := made.value;
      sessions := sessions + {made.value};
      return Ok(CompleteFrame(Some(session.id)));
    }

    method StartResume(now: real, nonce: Text) returns (r: Result<Claim, SocketError>)
      requires Valid()
      modifies session
      ensures Valid()
      ensures session != null ==> session.Value() == old(session.Value()).Tick(now)
      ensures r.Ok? <==> session != null && session.phase == Active
      ensures r.Ok? ==> r.value == ClaimOf(env, session.Value(), RESUME, nonce)
      ensures r.Ok? ==> r.value.lastSeq == Decimal(session.recvSeq) && r.value.nonce == nonce && r.value.sessionId == Some(session.id)
    {
      if session == null {
        return Err(NotEstablished);
      }
      var active := session.IsActive(now);
      if !active {
        return Err(NotEstablished);
      }
      var lastSeq := Decimal(session.recvSeq);
      var tag := env.mac(session.sendKey, ResumeMessage(RESUME, session.id, lastSeq, nonce));
      return Ok(Claim(Some(session.id), lastSeq, nonce, tag));
    }

    method CompleteResume(f: Frame, now: real) returns (r: Option<SocketError>)
      requires Valid()
      modifies session
      ensures Valid()
      ensures session != null ==> session.Value() == old(session.Value()).Tick(now)
      ensures r.None? <==>
        session != null && session.phase == Active && f.ResumeAckFrame? && Backs(env, session.Value(), RESUME_ACK, f.claim)
    {
      if session == null {
        return Some(NotEstablished);
      }
      var active := session.IsActive(now);
      if !active {
        return Some(NotEstablished);
      }
      if !f.ResumeAckFrame? {
        return Some(UnexpectedFrame);
      }
      if f.claim.sessionId != Some(session.id) {
        return Some(Mismatch);
      }
      if f.claim.tag != env.mac(session.recvKey, ResumeMessage(RESUME_ACK, session.id, f.claim.lastSeq, f.claim.nonce)) {
        return Some(BadTag);
      }
      return None;
    }

    // -------------------------------------------------------------- the responder

    /** admitted: the verdict of the rate limiter, if there is one. */
    method HandleHello(f: Frame, card: H.Card, admitted: bool, x: H.RespondInput) returns (r: Result<Frame, SocketError>)
      requires Valid()
      modifies this`hs, this`remoteCard, this`sessions, nonceStore
      ensures Valid() && old(sessions) <= sessions && fresh(sessions - old(sessions))
      ensures r.Err? ==> hs == old(hs) && sessions == old(sessions)
      ensures r.Ok? ==> old(hs) == null && fresh(hs) && hs.session != null && fresh(hs.session) && hs.session.phase == Active
                        && hs.ackMsg.Some? && r.value == AckFrame(hs.ackMsg.value)
      ensures old(hs) != null ==> r == Err(Misuse)
      ensures old(hs) == null && !f.HelloFrame? ==> r == Err(UnexpectedFrame)
      ensures old(hs) == null && f.HelloFrame? && !admitted ==> r == Err(RateLimited)
      ensures old(hs) != null || !f.HelloFrame? || !admitted ==> nonceStore.Value() == old(nonceStore.Value())
      ensures old(hs) == null && f.HelloFrame? && admitted ==>
        var (store', answer) := H.Respond(env, identity, f.hello, card, config, old(nonceStore.Value()), x);
        && nonceStore.Value() == store'
        && match answer
           case Err(e) => r == Err(HandshakeFailed(e))
           case Ok(a) => r == Ok(AckFrame(a.ack)) && hs.session.Value() == a.session && remoteCard == Some(card)
    {
      hide H.Respond, Session.Sound, Store.MarkUsed;
      if hs != null {
        return Err(Misuse);
      }
      if !f.HelloFrame? {
        return Err(UnexpectedFrame);
      }
      if !admitted {
        return Err(RateLimited);
      }
      var made := Handshake.Respond(env, identity, f.hello, card, nonceStore, config, x, aead);
      if made.Err? {
        return Err(HandshakeFailed(made.error));
      }
      hs := made.value;
      sessions := sessions + {hs.session};
      remoteCard := Some(card);
      return Ok(AckFrame(hs.ackMsg.value));
    }

    /** Puts the handshake's session back, whatever has become of it since. */
    method HandleComplete(f: Frame) returns (r: Option<SocketError>)
      requires Valid()
      modifies this`session
      ensures Valid()
      ensures r.None? <==> old(session) == null && hs != null && hs.session != null && f == CompleteFrame(Some(hs.session.id))
      ensures session == if r.None? then hs.session else old(session)
    {
      if hs == null {
        return Some(NotEstablished);
      }
      if !f.CompleteFrame? {
        return Some(UnexpectedFrame);
      }
      if session != null {
        return Some(Misuse);
      }
      if hs.session == null {
        return Some(HandshakeFailed(H.ProtocolError));
      }
      if f.sessionId != Some(hs.session.id) {
        return Some(Mismatch);
      }
      session := hs.session;
      return None;
    }

    method HandleResume(f: Frame, given: SessionObject?, nonce: Text, now: real) returns (r: Result<Claim, SocketError>)
      requires Valid() && (given != null ==> given in sessions)
      modifies this`session, session, given
      ensures Valid()
      ensures r.Err? ==> session == old(session)
      ensures r.Ok? ==> session == (if given != null then given else old(session)) && session != null
                        && session.phase == Active && f.ResumeFrame? && Backs(env, session.Value(), RESUME, f.claim)
                        && r.value == ClaimOf(env, session.Value(), RESUME_ACK, nonce)
                        && r.value.lastSeq == Decimal(session.recvSeq) && r.value.nonce == nonce
                        && r.value.sessionId == Some(session.id)
      ensures var chosen := if given != null then given else old(session);
        f.ResumeFrame? && chosen != null && chosen.phase == Active && Backs(env, chosen.Value(), RESUME, f.claim) ==> r.Ok?
      ensures forall s | s in sessions :: s.Value() == old(s.Value()) || s.Value() == old(s.Value()).Tick(now)
    {
      hide Session.Sound, Handshake.Valid, ResumeMessage;
      TickKeepsSound(now);
      if !f.ResumeFrame? {
        return Err(UnexpectedFrame);
      }
      var chosen := if given != null then given else session;
      if chosen == null {
        return Err(NotEstablished);
      }
      var active := chosen.IsActive(now);
      if !active {
        return Err(NotEstablished);
      }
      if f.claim.sessionId != Some(chosen.id) {
        return Err(Mismatch);
      }
      if f.claim.tag != env.mac(chosen.recvKey, ResumeMessage(RESUME, chosen.id, f.claim.lastSeq, f.claim.nonce)) {
        return Err(BadTag);
      }
      session := chosen;
      var lastSeq := Decimal(chosen.recvSeq);
      var tag := env.mac(chosen.sendKey, ResumeMessage(RESUME_ACK, chosen.id, lastSeq, nonce));
      return Ok(Claim(Some(chosen.id), lastSeq, nonce, tag));
    }

    // -------------------------------------------------------------- data and close

    method Encode(plaintext: ByteString, nonce: ByteString, now: real, later: real) returns (r: Result<Frame, SocketError>)
      requires Valid()
      modifies session
      ensures Valid()
      ensures session == null ==> r == Err(NotEstablished)
      ensures session != null ==>
        var (v, e) := old(session.Value()).Encrypt(now, later, plaintext, nonce, old(session.aead));
        session.Value() == v && r == if e.Ok? then Ok(DataFrame(e.value)) else Err(SessionFailed(e.error))
    {
      if session == null {
        return Err(NotEstablished);
      }
      var e := EncryptOn(session, plaintext, nonce, now, later);
      return if e.Ok? then Ok(DataFrame(e.value)) else Err(SessionFailed(e.error));
    }

    method Decode(f: Frame, now: real, later: real) returns (r: Result<ByteString, SocketError>)
      requires Valid()
      modifies session
      ensures Valid()
      ensures session == null ==> r == Err(NotEstablished)
      ensures session != null && !f.DataFrame? ==> r == Err(UnexpectedFrame) && session.Value() == old(session.Value())
      ensures session != null && f.DataFrame? ==>
        var (v, d) := old(session.Value()).Decrypt(now, later, f.data, old(session.aead));
        session.Value() == v && r == if d.Ok? then Ok(d.value) else Err(SessionFailed(d.error))
    {
      hide Session.Decrypt;
      if session == null {
        return Err(NotEstablished);
      }
      if !f.DataFrame? {
        return Err(UnexpectedFrame);
      }
      var d := session.Decrypt(f.data, now, later);
      return if d.Ok? then Ok(d.value) else Err(SessionFailed(d.error));
    }

    /** Encrypts the stamp when there is a session, and leaves it plain otherwise. */
    method Ping(stamp: ByteString, nonce: ByteString, now: real, later: real) returns (r: Result<Option<Payload>, SocketError>)
      requires Valid()
      modifies session
      ensures Valid()
      ensures session == null ==> r == Ok(None)
      ensures session != null ==>
        var (v, e) := old(session.Value()).Encrypt(now, later, stamp, nonce, old(session.aead));
        session.Value() == v && r == if e.Ok? then Ok(Some(e.value)) else Err(SessionFailed(e.error))
    {
      if session != null {
        var e := EncryptOn(session, stamp, nonce, now, later);
        return if e.Ok? then Ok(Some(e.value)) else Err(SessionFailed(e.error));
      }
      return Ok(None);
    }

    /** Decrypts the ping, whatever comes of it, and encrypts the echo. */
    method Pong(ping: Option<Payload>, nonce: ByteString, now: real, later: real, echoAt: real, echoLater: real)
      returns (r: Result<Option<Payload>, SocketError>)
      requires Valid()
      modifies session
      ensures Valid()
      ensures session != null ==>
        var (v, d) := if ping.Some? then old(session.Value()).Decrypt(now, later, ping.value, old(session.aead))
                      else (old(session.Value()), Err(Malformed));
        var echo := echoOf(if d.Ok? then Some(d.value) else None);
        if echo.None? then session.Value() == v && r == Err(NotAnObject)
        else
          var (u, e) := v.Encrypt(echoAt, echoLater, echo.value, nonce, old(session.aead));
          session.Value() == u && r == if e.Ok? then Ok(Some(e.value)) else Err(SessionFailed(e.error))
      ensures session == null ==> r == if echoOf(None).None? then Err(NotAnObject) else Ok(None)
      ensures session != null ==> old(session.phase).Rank() <= session.phase.Rank()
    {
      hide Session.Decrypt, Session.Encrypt, Session.Tick, Session.Revoke;
      if session == null {
        return if echoOf(None).None? then Err(NotAnObject) else Ok(None);
      }
      RanksRise(session.Value());
      var raw: Option<ByteString> := None;
      if ping.Some? {
        var d := session.Decrypt(ping.value, now, later);
        raw := if d.Ok? then Some(d.value) else None;
      }
      RanksRise(session.Value());
      var echo := echoOf(raw);
      if echo.None? {
        return Err(NotAnObject);
      }
      var e := EncryptOn(session, echo.value, nonce, echoAt, echoLater);
      return if e.Ok? then Ok(Some(e.value)) else Err(SessionFailed(e.error));
    }

    /** Raises, and keeps hold of the session, when the closing message cannot be encrypted. */
    method Close(message: ByteString, nonce: ByteString, now: real, later: real) returns (r: Result<Option<Payload>, SocketError>)
      requires Valid()
      modifies this`session, session
      ensures Valid()
      ensures old(session) == null ==> r == Ok(None) && session == null
      ensures old(session) != null ==>
        var (v, e) := old(session.Value()).Encrypt(now, later, message, nonce, old(session.aead));
        if e.Ok? then r == Ok(Some(e.value)) && session == null && old(session).Value() == v.Revoke()
        else r == Err(SessionFailed(e.error)) && session == old(session) && session.Value() == v
    {
      if session != null {
        var e := EncryptOn(session, message, nonce, now, later);
        if e.Err? {
          return Err(SessionFailed(e.error));
        }
        session.Revoke();
        session := null;
        return Ok(Some(e.value));
      }
      return Ok(None);
    }

    /** Revokes whether or not the closing message was authentic. */
    method HandleClose(f: Frame, now: real, later: real) returns (r: Result<Text, SocketError>)
      requires Valid()
      modifies this`session, session
      ensures Valid()
      ensures !f.CloseFrame? ==> r == Err(UnexpectedFrame) && session == old(session)
                                 && (session != null ==> session.Value() == old(session.Value()))
      ensures f.CloseFrame? && old(session) == null ==> r == Ok(f.reason) && session == null
      ensures f.CloseFrame? && old(session) != null ==>
        var (v, d) := old(session.Value()).Decrypt(now, later, f.sealed, old(session.aead));
        && session == null && old(session).Value() == v.Revoke()
        && r == Ok(if d.Ok? && reasonIn(d.value).Some? then reasonIn(d.value).value else UNAUTHENTICATED)
    {
      hide Session.Decrypt;
      if !f.CloseFrame? {
        return Err(UnexpectedFrame);
      }
      if session != null {
        var raw := session.Decrypt(f.sealed, now, later);
        if raw.Err? || reasonIn(raw.value).None? {
          session.Revoke();
          session := null;
          return Ok(UNAUTHENTICATED);
        }
        session.Revoke();
        session := null;
        return Ok(reasonIn(raw.value).value);
      }
      return Ok(f.reason);
    }

    method IsReady(now: real) returns (ready: bool)
      requires Valid()
      modifies session
      ensures Valid()
      ensures session != null ==> session.Value() == old(session.Value()).Tick(now)
      ensures ready <==> session != null && session.phase == Active
    {
      if session == null {
        return false;
      }
      ready := session.IsActive(now);
    }
  }

  lemma TickKeepsSound(now: real)
    ensures forall s: Session :: s.Sound() ==> s.Tick(now).Sound()
  {}

  /** The claim names this session and carries its receive-side tag. */
  predicate Backs(env: H.Env, s: Session, tag: Text, c: Claim) {
    c.sessionId == Some(s.id) && c.tag == env.mac(s.recvKey, ResumeMessage(tag, s.id, c.lastSeq, c.nonce))
  }

  /** The claim a session makes: its id and last received number, under its send-side tag. */
  function ClaimOf(env: H.Env, s: Session, tag: Text, nonce: Text): Claim {
    var lastSeq := Decimal(s.recvSeq);
    Claim(Some(s.id), lastSeq, nonce, env.mac(s.sendKey, ResumeMessage(tag, s.id, lastSeq, nonce)))
  }

  /** The two kinds of resume messages never coincide. */
  lemma ResumeKindsDiffer(id: Text, lastSeq: Text, nonce: Text, id': Text, lastSeq': Text, nonce': Text)
    ensures ResumeMessage(RESUME, id, lastSeq, nonce) != ResumeMessage(RESUME_ACK, id', lastSeq', nonce')
  {
    var a, b := ResumeMessage(RESUME, id, lastSeq, nonce), ResumeMessage(RESUME_ACK, id', lastSeq', nonce');
    assert a[6] == RESUME[6] == ':' as int && b[6] == RESUME_ACK[6] == '_' as int;
  }

  /** A claim backs exactly the session at the other end, for the kind of message it was made for: not its own maker, and not as a reply. */
  lemma BacksExactly(env: H.Env, s: Session, t: Session, tag: Text, asked: Text, nonce: Text)
    requires env.MacIdeal() && (tag == RESUME || tag == RESUME_ACK) && (asked == RESUME || asked == RESUME_ACK)
    ensures Backs(env, t, asked, ClaimOf(env, s, tag, nonce)) <==> t.id == s.id && t.recvKey == s.sendKey && asked == tag
  {
    hide ResumeMessage, Decimal;
    var n := Decimal(s.recvSeq);
    ResumeKindsDiffer(s.id, n, nonce, t.id, n, nonce);
    ResumeKindsDiffer(t.id, n, nonce, s.id, n, nonce);
  }

  /** One tag backs one number and one nonce: neither can be changed, the number being free of colons. */
  lemma TagCoversClaim(env: H.Env, t: Session, tag: Text, c: Claim, d: Claim)
    requires env.MacIdeal() && Backs(env, t, tag, c) && Backs(env, t, tag, d) && c.tag == d.tag
    requires COLON !in c.lastSeq && COLON !in d.lastSeq
    ensures c == d
  {
    var head := tag + t.id + [COLON];
    var m, n := ResumeMessage(tag, t.id, c.lastSeq, c.nonce), ResumeMessage(tag, t.id, d.lastSeq, d.nonce);
    assert m == n;
    assert m[|head|..] == c.lastSeq + [COLON] + c.nonce && n[|head|..] == d.lastSeq + [COLON] + d.nonce;
    FirstColon(c.lastSeq, c.nonce, d.lastSeq, d.nonce);
  }

  /** Still active at the given reading. */
  predicate Alive(s: Session, now: real) {
    s.Tick(now).phase == Active
  }

  /** A genuine resume completes between the two ends of a session that is alive at both. */
  method ResumeBetween(a: UXSPWebSocket, b: UXSPWebSocket, nonceA: Text, nonceB: Text, now: real) returns (resumed: bool)
    requires a.Valid() && b.Valid() && a != b && a.env == b.env
    requires a.session != null && b.session != null && a.session != b.session
    requires a.session !in b.sessions && b.session !in a.sessions
    requires a.session.id == b.session.id && a.session.sendKey == b.session.recvKey && a.session.recvKey == b.session.sendKey
    requires Alive(a.session.Value(), now) && Alive(b.session.Value(), now)
    modifies a.session, b.session, b`session
    ensures resumed && a.session == old(a.session) && b.session == old(b.session)
  {
    hide Session.Sound, ResumeMessage, Handshake.Valid;
    var request := a.StartResume(now, nonceA);
    var reply := b.HandleResume(ResumeFrame(request.value), null, nonceB, now);
    TickTwice(a.session.Value(), now);
    var error := a.CompleteResume(ResumeAckFrame(reply.value), now);
    return error.None?;
  }

  lemma TickTwice(s: Session, now: real)
    ensures s.Tick(now).Tick(now) == s.Tick(now)
  {}

  method EncryptOn(s: SessionObject, plaintext: ByteString, nonce: ByteString, now: real, later: real)
    returns (r: Result<Payload, SessionError>)
    requires s.Value().Sound()
    modifies s
    ensures (s.Value(), r) == old(s.Value()).Encrypt(now, later, plaintext, nonce, s.aead) && s.Value().Sound()
  {
    r := s.Encrypt(plaintext, nonce, now, later);
  }

  // ------------------------------------------------------------------ what every call keeps

  lemma RanksRise(s: Session)
    ensures forall now :: s.phase.Rank() <= s.Tick(now).phase.Rank()
    ensures forall now, later, plaintext, nonce, aead ::
              s.phase.Rank() <= s.Encrypt(now, later, plaintext, nonce, aead).0.phase.Rank()
    ensures forall now, later, p, aead :: s.phase.Rank() <= s.Decrypt(now, later, p, aead).0.phase.Rank()
    ensures forall v: Session :: v.Revoke().phase == Revoked
  {}

  /** A close that raises leaves a session that had already ended, or never began. */
  lemma EncryptFailsOnlyWhenOver(s: Session, now: real, later: real, plaintext: ByteString, nonce: ByteString, aead: Aead)
    ensures var (v, e) := s.Encrypt(now, later, plaintext, nonce, aead);
      e.Err? <==> s.Tick(now).phase != Active
    ensures var (v, e) := s.Encrypt(now, later, plaintext, nonce, aead);
      e.Err? && s.phase != Pending ==> v.phase == Expired || v.phase == Revoked
  {}

  datatype Call =
    | CallStartHandshake(sessionId: Text, eph: ByteString, ct: ByteString, now: real)
    | CallCompleteHandshake(f: Frame, now: real, markAt: real, later: real)
    | CallStartResume(now: real, resumeNonce: Text)
    | CallCompleteResume(f: Frame, now: real)
    | CallHandleHello(f: Frame, card: H.Card, admitted: bool, x: H.RespondInput)
    | CallHandleComplete(f: Frame)
    | CallHandleResume(f: Frame, given: SessionObject?, resumeNonce: Text, now: real)
    | CallEncode(plaintext: ByteString, nonce: ByteString, now: real, later: real)
    | CallDecode(f: Frame, now: real, later: real)
    | CallPing(plaintext: ByteString, nonce: ByteString, now: real, later: real)
    | CallPong(ping: Option<Payload>, nonce: ByteString, now: real, later: real, echoAt: real, echoLater: real)
    | CallClose(plaintext: ByteString, nonce: ByteString, now: real, later: real)
    | CallHandleClose(f: Frame, now: real, later: real)
    | CallIsReady(now: real)

  /** A call that only uses the session at hand. */
  predicate IsTraffic(c: Call) {
    c.CallEncode? || c.CallDecode? || c.CallPing? || c.CallPong? || c.CallClose? || c.CallHandleClose? || c.CallIsReady?
  }

  method PerformTraffic(ws: UXSPWebSocket, c: Call)
    requires ws.Valid() && IsTraffic(c)
    modifies ws`session, ws.session
    ensures ws.Valid()
    ensures old(ws.session) != null ==> old(ws.session.phase).Rank() <= old(ws.session).phase.Rank()
  {
    hide Session.Decrypt, Session.Encrypt, Session.Tick, Session.Revoke, Session.Sound, Handshake.Valid;
    if ws.session != null {
      RanksRise(ws.session.Value());
    }
    match c {
      case CallEncode(plaintext, nonce, now, later) =>
        var _ := ws.Encode(plaintext, nonce, now, later);
      case CallDecode(f, now, later) =>
        var _ := ws.Decode(f, now, later);
      case CallPing(plaintext, nonce, now, later) =>
        var _ := ws.Ping(plaintext, nonce, now, later);
      case CallPong(ping, nonce, now, later, echoAt, echoLater) =>
        var _ := ws.Pong(ping, nonce, now, later, echoAt, echoLater);
      case CallClose(plaintext, nonce, now, later) =>
        var _ := ws.Close(plaintext, nonce, now, later);
      case CallHandleClose(f, now, later) =>
        var _ := ws.HandleClose(f, now, later);
      case CallIsReady(now) =>
        var _ := ws.IsReady(now);
    }
  }

  /** One call, its result ignored. */
  method Perform(ws: UXSPWebSocket, c: Call)
    requires ws.Valid() && (c.CallHandleResume? && c.given != null ==> c.given in ws.sessions)
    modifies ws, ws.sessions, ws.hs, ws.nonceStore
    ensures ws.Valid() && old(ws.sessions) <= ws.sessions && fresh(ws.sessions - old(ws.sessions))
    ensures ws.hs == old(ws.hs) || fresh(ws.hs)
    ensures forall s | s in old(ws.sessions) :: old(s.phase).Rank() <= s.phase.Rank()
  {
    hide Session.Decrypt, Session.Encrypt, Session.Tick, Session.Revoke, Session.Sound, Handshake.Valid, Backs, IsTraffic;
    if IsTraffic(c) {
      PerformTraffic(ws, c);
    } else {
      PerformProtocol(ws, c);
    }
  }

  method PerformProtocol(ws: UXSPWebSocket, c: Call)
    requires ws.Valid() && !IsTraffic(c) && (c.CallHandleResume? && c.given != null ==> c.given in ws.sessions)
    modifies ws, ws.sessions, ws.hs, ws.nonceStore
    ensures ws.Valid() && old(ws.sessions) <= ws.sessions && fresh(ws.sessions - old(ws.sessions))
    ensures ws.hs == old(ws.hs) || fresh(ws.hs)
    ensures forall s | s in old(ws.sessions) :: old(s.phase).Rank() <= s.phase.Rank()
  {
    hide Session.Decrypt, Session.Encrypt, Session.Tick, Session.Revoke, Session.Sound, Handshake.Valid, Backs;
    forall s | s in ws.sessions {
      RanksRise(s.Value());
    }
    match c {
      case CallStartHandshake(sessionId, eph, ct, now) =>
        var _ := ws.StartHandshake(sessionId, eph, ct, now);
      case CallCompleteHandshake(f, now, markAt, later) =>
        var _ := ws.CompleteHandshake(f, now, markAt, later);
      case CallStartResume(now, resumeNonce) =>
        var _ := ws.StartResume(now, resumeNonce);
      case CallCompleteResume(f, now) =>
        var _ := ws.CompleteResume(f, now);
      case CallHandleHello(f, card, admitted, x) =>
        var _ := ws.HandleHello(f, card, admitted, x);
      case CallHandleComplete(f) =>
        var _ := ws.HandleComplete(f);
      case CallHandleResume(f, given, resumeNonce, now) =>
        var _ := ws.HandleResume(f, given, resumeNonce, now);
    }
  }

  /** Any sequence of calls leaves no session younger than it was. */
  method PerformAll(ws: UXSPWebSocket, calls: seq<Call>)
    requires ws.Valid() && forall c | c in calls :: c.CallHandleResume? && c.given != null ==> c.given in ws.sessions
    modifies ws, ws.sessions, ws.hs, ws.nonceStore
    ensures ws.Valid() && old(ws.sessions) <= ws.sessions && fresh(ws.sessions - old(ws.sessions))
    ensures forall s | s in old(ws.sessions) :: old(s.phase).Rank() <= s.phase.Rank()
  {
    for i := 0 to |calls|
      invariant ws.Valid() && old(ws.sessions) <= ws.sessions && fresh(ws.sessions - old(ws.sessions))
      invariant ws.hs == old(ws.hs) || fresh(ws.hs)
      invariant forall s | s in old(ws.sessions) :: old(s.phase).Rank() <= s.phase.Rank()
    {
      Perform(ws, calls[i]);
    }
  }

  /**
   Once close or handle_close has dealt with a session that had begun, whether it returned or raised,
   no sequence of calls makes that session ready again, not even one that attaches it anew.
   */
  method ClosedStaysClosed(ws: UXSPWebSocket, closing: Call, calls: seq<Call>, now: real) returns (ready: bool)
    requires ws.Valid() && ws.session != null && ws.session.phase != Pending
    requires closing.CallClose? || (closing.CallHandleClose? && closing.f.CloseFrame?)
    requires forall c | c in calls :: c.CallHandleResume? && c.given != null ==> c.given in ws.sessions
    modifies ws, ws.sessions, ws.hs, ws.nonceStore
    ensures ws.Valid()
    ensures old(ws.session).phase.Rank() >= Phase.Expired.Rank()
    ensures ready ==> ws.session != old(ws.session)
  {
    hide Session.Decrypt, Session.Encrypt, Session.Tick, Session.Revoke;
    var closed := ws.session;
    RanksRise(closed.Value());
    if closing.CallClose? {
      EncryptFailsOnlyWhenOver(closed.Value(), closing.now, closing.later, closing.plaintext, closing.nonce, closed.aead);
      var _ := ws.Close(closing.plaintext, closing.nonce, closing.now, closing.later);
    } else {
      var _ := ws.HandleClose(closing.f, closing.now, closing.later);
    }
    assert closed.phase.Rank() >= Phase.Expired.Rank();
    PerformAll(ws, calls);
    ghost var before := if ws.session != null then ws.session.Value() else closed.Value();
    RanksRise(before);
    ready := ws.IsReady(now);
  }
}
