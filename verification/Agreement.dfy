/**
 Whole runs of the handshake: any number of parties and sessions on a network that drops, repeats,
 reorders and forges everything except honest signatures, with one nonce store per party.
 */
module Agreement {
  import opened Wrappers
  import opened Bytes
  import opened BindFields
  import opened Ideal
  import opened Sessions
  import opened NonceStore
  import opened Handshake

  /** The longest delay between the two clock readings of a call that the lifetime of a mark still covers. */
  const MAX_DELAY: real := 29.0

  datatype Answered = Answered(responder: Text, card: Card, hello: Hello, answer: Answer, readAt: real, markAt: real)

  datatype Completed = Completed(which: nat, card: Card, ack: Ack, outcome: Outcome, readAt: real, markAt: real)

  /** Everything the parties did: stores by party, handshakes begun, answers, completions, signatures. */
  datatype World = World(
    clock: real,
    stores: map<Text, Store>,
    initiated: seq<Initiation>,
    answered: seq<Answered>,
    completed: seq<Completed>,
    signed: set<Signature>)

  const START := World(0.0, map[], [], [], [], {})

  datatype Event =
      /** reading: what the initiator's own clock shows; nothing ties it to the clocks of others. */
    | DoInitiate(initiator: Text, card: Card, sessionId: Text, eph: ByteString, ct: ByteString, config: Config, reading: real, at: real)
    | DoRespond(responder: Text, hello: Hello, card: Card, config: Config, x: RespondInput)
    | DoComplete(which: nat, ack: Ack, card: Card, readAt: real, markAt: real, createdAt: real)
    | DoCleanup(party: Text, at: real)
    | DoMark(party: Text, nonce: Text, ttl: int, at: real)
    | DoIsSeen(party: Text, nonce: Text, at: real)
      /** The same key signs an envelope, a card or a revocation list. */
    | DoSignOther(signer: Text, fields: seq<ByteString>, at: real)

  function At(e: Event): real {
    match e
    case DoRespond(_, _, _, _, x) => x.markAt
    case DoComplete(_, _, _, _, markAt, _) => markAt
    case _ => e.at
  }

  function StoreOf(stores: map<Text, Store>, party: Text): Store {
    if party in stores then stores[party] else EMPTY
  }

  function Step(w: World, e: Event, env: Env): World {
    match e
    case DoInitiate(initiator, card, sessionId, eph, ct, config, reading, at) =>
      (match Initiate(initiator, card, sessionId, eph, ct, config, reading)
       case Err(_) => w
       case Ok(p) => w.(initiated := w.initiated + [p], signed := w.signed + {p.hello.sig})).(clock := at)
    case DoRespond(responder, hello, card, config, x) =>
      var (store, r) := Respond(env, responder, hello, card, config, StoreOf(w.stores, responder), x);
      var w := w.(clock := x.markAt, stores := w.stores[responder := store]);
      (match r
       case Err(_) => w
       case Ok(answer) =>
         w.(answered := w.answered + [Answered(responder, card, hello, answer, x.readAt, x.markAt)],
            signed := w.signed + {answer.ack.sig}))
    case DoComplete(which, ack, card, readAt, markAt, createdAt) =>
      if which >= |w.initiated| || w.initiated[which].hello.TruncatedHello? then w.(clock := markAt)
      else
        var p := w.initiated[which];
        var (store, r) := Complete(env, p, ack, card, StoreOf(w.stores, p.initiator), readAt, markAt, createdAt);
        var w := w.(clock := markAt, stores := w.stores[p.initiator := store]);
        (match r
         case Err(_) => w
         case Ok(outcome) => w.(completed := w.completed + [Completed(which, card, ack, outcome, readAt, markAt)]))
    case DoCleanup(party, at) =>
      w.(clock := at, stores := w.stores[party := StoreOf(w.stores, party).Cleanup(at)])
    case DoMark(party, nonce, ttl, at) =>
      w.(clock := at, stores := w.stores[party := StoreOf(w.stores, party).MarkUsed(nonce, ttl, at).0])
    case DoIsSeen(party, nonce, at) =>
      w.(clock := at, stores := w.stores[party := StoreOf(w.stores, party).IsSeen(nonce, at).0])
    case DoSignOther(signer, fields, at) =>
      w.(clock := at, signed := if AllShort(fields) then w.signed + {Signature(signer, Encoded(fields))} else w.signed)
  }

  /** No handshake message: the first field or the number of fields tells. */
  predicate OtherThanHandshake(fields: seq<ByteString>) {
    fields == [] || (fields[0] != HELLO_TAG && fields[0] != ACK_TAG) || (|fields| != 8 && |fields| != 9)
  }

  /**
   What the ideal functionality guarantees of an event: the clock does not go back, session ids are
   fresh, every answer draws an ephemeral key of its own, cards are genuine, and a signature of an
   honest party on the network was made by it.
   */
  ghost predicate Allowed(w: World, e: Event, honest: set<Text>) {
    && w.clock <= At(e)
    && match e
       case DoInitiate(_, card, sessionId, _, _, _, _, _) =>
         card.Genuine() && forall i | 0 <= i < |w.initiated| :: SessionIdOf(w.initiated[i]) != sessionId
       case DoRespond(_, hello, card, _, x) =>
         && card.Genuine() && x.readAt <= x.markAt && NewKey(w.answered, x.eph)
         && (hello.Hello? && hello.sig.signer in honest ==> hello.sig in w.signed)
       case DoComplete(_, ack, card, readAt, markAt, _) =>
         && card.Genuine() && readAt <= markAt
         && (ack.Ack? && ack.sig.signer in honest ==> ack.sig in w.signed)
       case DoSignOther(_, fields, _) => OtherThanHandshake(fields)
       case _ => true
  }

  /** No more than this long between the freshness reading of a call and its mark. */
  predicate Prompt(e: Event, delay: real) {
    match e
    case DoRespond(_, _, _, _, x) => x.markAt <= x.readAt + delay
    case DoComplete(_, _, _, readAt, markAt, _) => markAt <= readAt + delay
    case _ => true
  }

  predicate NewKey(answered: seq<Answered>, eph: ByteString) {
    forall j | 0 <= j < |answered| :: answered[j].answer.ack.Ack? ==> answered[j].answer.ack.ephemeralPub != eph
  }

  function SessionIdOf(p: Initiation): Text {
    if p.hello.Hello? then p.hello.sessionId else []
  }

  function Run(w: World, events: seq<Event>, env: Env): World
    decreases |events|
  {
    if events == [] then w else Run(Step(w, events[0], env), events[1..], env)
  }

  ghost predicate AllAllowed(w: World, events: seq<Event>, env: Env, honest: set<Text>)
    decreases |events|
  {
    events == [] || (Allowed(w, events[0], honest) && AllAllowed(Step(w, events[0], env), events[1..], env, honest))
  }

  // ------------------------------------------------------------------ what each record says

  /** A session as respond and complete leave it. */
  function ActiveSession(id: Text, localId: Text, remoteId: Text, final: Secret, isInitiator: bool, config: Config, createdAt: real): Session {
    NewSession(id, localId, remoteId, final, isInitiator, config, createdAt).(phase := Active)
  }

  ghost predicate InitiationOk(p: Initiation) {
    && p.hello.Hello? && AllShort(HelloFields(p.hello))
    && p.hello.sig == Signature(p.initiator, Encoded(HelloFields(p.hello)))
    && p.hello.initiatorId == p.initiator && p.hello.responderId == p.card.entityId
    && p.card.Genuine() && p.secretA == Exchange(p.card.keysOf, p.hello.ephemeralPub, p.hello.kemCiphertext)
  }

  /** The responder accepted this HELLO, and this is what it answered and derived. */
  ghost predicate AnsweredOk(env: Env, r: Answered) {
    var h, a, s := r.hello, r.answer.ack, r.answer.session;
    && h.Hello? && AllShort(HelloFields(h)) && h.sig == Signature(r.card.keysOf, Encoded(HelloFields(h)))
    && r.card.Genuine() && h.initiatorId == r.card.entityId && h.responderId == r.responder
    && FreshAt(h.timestamp, r.readAt) && env.isUuid(h.sessionId) && VERSION_1 in h.versions
    && a.Ack? && AllShort(AckFields(a)) && a.sig == Signature(r.responder, Encoded(AckFields(a)))
    && a.sessionId == h.sessionId && a.responderId == r.responder && a.initiatorId == h.initiatorId
    && a.proof == env.mac(Exchange(r.responder, h.ephemeralPub, h.kemCiphertext), h.sessionId + PROOF_SUFFIX)
    && r.answer.final == FinalSecret(Exchange(r.responder, h.ephemeralPub, h.kemCiphertext),
                                     Exchange(r.card.keysOf, a.ephemeralPub, a.kemCiphertext),
                                     h.sessionId, h.initiatorId, r.responder)
    && s == ActiveSession(h.sessionId, r.responder, h.initiatorId, r.answer.final, false, s.config, s.createdAt)
  }

  /** The initiator accepted this ACK for the handshake p, and this is what it derived. */
  ghost predicate CompletedOk(env: Env, p: Initiation, c: Completed) {
    var a, s := c.ack, c.outcome.session;
    && p.hello.Hello?
    && a.Ack? && AllShort(AckFields(a)) && a.sig == Signature(c.card.keysOf, Encoded(AckFields(a)))
    && c.card.Genuine() && a.responderId == c.card.entityId == p.card.entityId && a.initiatorId == p.initiator
    && a.sessionId == p.hello.sessionId && FreshAt(a.timestamp, c.readAt)
    && a.proof == env.mac(p.secretA, a.sessionId + PROOF_SUFFIX)
    && c.outcome.final == FinalSecret(p.secretA, Exchange(p.initiator, a.ephemeralPub, a.kemCiphertext),
                                      p.hello.sessionId, p.initiator, c.card.entityId)
    && s == ActiveSession(p.hello.sessionId, p.initiator, c.card.entityId, c.outcome.final, true, p.config, s.createdAt)
  }

  lemma InitiateIsOk(initiator: Text, card: Card, sessionId: Text, eph: ByteString, ct: ByteString, config: Config, now: real)
    requires card.Genuine() && Initiate(initiator, card, sessionId, eph, ct, config, now).Ok?
    ensures var p := Initiate(initiator, card, sessionId, eph, ct, config, now).value;
      InitiationOk(p) && p.initiator == initiator && p.hello.sessionId == sessionId
  {
    hide AllShort, Encoded, Parse, Decimal, Joined;
  }

  lemma RespondIsOk(env: Env, responder: Text, h: Hello, card: Card, config: Config, store: Store, x: RespondInput)
    requires card.Genuine() && Respond(env, responder, h, card, config, store, x).1.Ok?
    ensures var (store', r) := Respond(env, responder, h, card, config, store, x);
      && AnsweredOk(env, Answered(responder, card, h, r.value, x.readAt, x.markAt))
      && r.value.ack.Ack? && r.value.ack.ephemeralPub == x.eph && r.value.session.config == config
      && (store', Ok(true)) == store.MarkUsed(HelloKey(h.sessionId), MARK_TTL, x.markAt)
  {
    hide AllShort, Encoded, Parse, Decimal, Joined, Store.MarkUsed, DirectionKey;
  }

  lemma CompleteIsOk(env: Env, p: Initiation, a: Ack, card: Card, store: Store, which: nat, readAt: real, markAt: real, createdAt: real)
    requires p.hello.Hello? && card.Genuine() && Complete(env, p, a, card, store, readAt, markAt, createdAt).1.Ok?
    ensures var (store', r) := Complete(env, p, a, card, store, readAt, markAt, createdAt);
      && CompletedOk(env, p, Completed(which, card, a, r.value, readAt, markAt))
      && (store', Ok(true)) == store.MarkUsed(AckKey(a.sessionId), MARK_TTL, markAt)
  {
    hide AllShort, Encoded, Parse, Decimal, Store.MarkUsed, DirectionKey;
  }

  // ------------------------------------------------------------------ the invariant

  ghost predicate SessionIdsDistinct(initiated: seq<Initiation>) {
    forall i, j | 0 <= i < j < |initiated| :: SessionIdOf(initiated[i]) != SessionIdOf(initiated[j])
  }

  /** An honest-looking signature was made by initiate or by respond. */
  ghost predicate Origin(initiated: seq<Initiation>, answered: seq<Answered>, s: Signature) {
    || (exists i :: 0 <= i < |initiated| && initiated[i].hello.Hello? && initiated[i].hello.sig == s)
    || (exists j :: 0 <= j < |answered| && answered[j].answer.ack.Ack? && answered[j].answer.ack.sig == s)
    || SignsNoHandshake(s)
  }

  ghost predicate SignsNoHandshake(s: Signature) {
    exists fields :: OtherThanHandshake(fields) && AllShort(fields) && s.message == Encoded(fields)
  }

  lemma HelloIsNotOther(h: Hello, s: Signature)
    requires h.Hello? && AllShort(HelloFields(h)) && s.message == Encoded(HelloFields(h))
    ensures !SignsNoHandshake(s)
  {
    hide Encoded, AllShort, Decimal, Joined;
    if fields :| OtherThanHandshake(fields) && AllShort(fields) && s.message == Encoded(fields) {
      EncodedInjective(fields, HelloFields(h));
    }
  }

  lemma AckIsNotOther(a: Ack, s: Signature)
    requires a.Ack? && AllShort(AckFields(a)) && s.message == Encoded(AckFields(a))
    ensures !SignsNoHandshake(s)
  {
    hide Encoded, AllShort, Decimal;
    if fields :| OtherThanHandshake(fields) && AllShort(fields) && s.message == Encoded(fields) {
      EncodedInjective(fields, AckFields(a));
    }
  }

  ghost predicate SignedInv(initiated: seq<Initiation>, answered: seq<Answered>, signed: set<Signature>) {
    && (forall i | 0 <= i < |initiated| :: InitiationOk(initiated[i]))
    && SessionIdsDistinct(initiated)
    && (forall s | s in signed :: Origin(initiated, answered, s))
  }

  ghost predicate AnsweredInv(env: Env, answered: seq<Answered>, signed: set<Signature>, honest: set<Text>) {
    forall j | 0 <= j < |answered| ::
      AnsweredOk(env, answered[j]) && (answered[j].card.keysOf in honest ==> answered[j].hello.sig in signed)
  }

  ghost predicate CompletedInv(env: Env, initiated: seq<Initiation>, completed: seq<Completed>, signed: set<Signature>, honest: set<Text>) {
    forall k | 0 <= k < |completed| ::
      && completed[k].which < |initiated|
      && CompletedOk(env, initiated[completed[k].which], completed[k])
      && (completed[k].card.keysOf in honest ==> completed[k].ack.sig in signed)
  }

  /** Marks made when the record was made outlive every message they must block. */
  ghost predicate MarkHolds(store: Store, key: Text, readAt: real, markAt: real, clock: real) {
    && readAt <= markAt <= readAt + MAX_DELAY && markAt <= clock
    && (clock < markAt + MARK_TTL as real ==> Marked(store, key, markAt + MARK_TTL as real))
  }

  ghost predicate AnswerMarked(r: Answered, stores: map<Text, Store>, clock: real) {
    r.hello.Hello? && MarkHolds(StoreOf(stores, r.responder), HelloKey(r.hello.sessionId), r.readAt, r.markAt, clock)
  }

  ghost predicate CompletionMarked(initiator: Text, c: Completed, stores: map<Text, Store>, clock: real) {
    c.ack.Ack? && MarkHolds(StoreOf(stores, initiator), AckKey(c.ack.sessionId), c.readAt, c.markAt, clock)
  }

  ghost predicate MarksInv(initiated: seq<Initiation>, answered: seq<Answered>, completed: seq<Completed>,
                           stores: map<Text, Store>, clock: real)
  {
    && (forall j | 0 <= j < |answered| :: AnswerMarked(answered[j], stores, clock))
    && (forall k | 0 <= k < |completed| ::
          completed[k].which < |initiated|
          && CompletionMarked(initiated[completed[k].which].initiator, completed[k], stores, clock))
  }

  /** Two answers of one responder to one session id and timestamp, in particular to one HELLO. */
  ghost predicate SameAnswer(r: Answered, q: Answered) {
    && r.hello.Hello? && q.hello.Hello? && r.responder == q.responder
    && r.hello.sessionId == q.hello.sessionId && r.hello.timestamp == q.hello.timestamp
  }

  ghost predicate OneAnswer(answered: seq<Answered>) {
    forall i, j | 0 <= i < j < |answered| :: !SameAnswer(answered[i], answered[j])
  }

  /** Two completions of one handshake of an honest initiator with an honest responder. */
  ghost predicate SameCompletion(initiated: seq<Initiation>, c: Completed, d: Completed, honest: set<Text>) {
    && c.which == d.which < |initiated| && initiated[c.which].initiator in honest
    && c.card.keysOf in honest && d.card.keysOf in honest
  }

  ghost predicate OneCompletion(initiated: seq<Initiation>, completed: seq<Completed>, honest: set<Text>) {
    forall k, l | 0 <= k < l < |completed| :: !SameCompletion(initiated, completed[k], completed[l], honest)
  }

  /** What agreement rests on: what every record says, and where signatures come from. */
  ghost predicate Core(w: World, env: Env, honest: set<Text>) {
    && SignedInv(w.initiated, w.answered, w.signed)
    && AnsweredInv(env, w.answered, w.signed, honest)
    && CompletedInv(env, w.initiated, w.completed, w.signed, honest)
  }

  /** What uniqueness rests on besides: the marks, which need prompt calls. */
  ghost predicate Once(w: World, honest: set<Text>) {
    && MarksInv(w.initiated, w.answered, w.completed, w.stores, w.clock)
    && OneAnswer(w.answered)
    && OneCompletion(w.initiated, w.completed, honest)
  }

  // ------------------------------------------------------------------ where honest messages come from

  /** A HELLO bearing an honest signature repeats the fields of a handshake that party began. */
  lemma HelloComesFromInitiate(initiated: seq<Initiation>, answered: seq<Answered>, signed: set<Signature>,
                               env: Env, honest: set<Text>, h: Hello, signer: Text) returns (i: nat)
    requires SignedInv(initiated, answered, signed) && AnsweredInv(env, answered, signed, honest)
    requires h.Hello? && AllShort(HelloFields(h)) && h.sig == Signature(signer, Encoded(HelloFields(h))) && h.sig in signed
    ensures i < |initiated| && initiated[i].initiator == signer
    ensures var g := initiated[i].hello;
      && g.Hello? && g.sessionId == h.sessionId && g.responderId == h.responderId && g.timestamp == h.timestamp
      && g.ephemeralPub == h.ephemeralPub && g.kemCiphertext == h.kemCiphertext
  {
    hide HelloFields, AckFields, Encoded, AllShort, SessionIdsDistinct;
    assert Origin(initiated, answered, h.sig);
    HelloIsNotOther(h, h.sig);
    if j :| 0 <= j < |answered| && answered[j].answer.ack.Ack? && answered[j].answer.ack.sig == h.sig {
      assert AnsweredOk(env, answered[j]);
      HelloIsNoAck(h, answered[j].answer.ack);
    }
    i :| 0 <= i < |initiated| && initiated[i].hello.Hello? && initiated[i].hello.sig == h.sig;
    assert InitiationOk(initiated[i]);
    HelloBytesDetermine(h, initiated[i].hello);
  }

  /** An ACK bearing an honest signature repeats the fields of an answer that party gave. */
  lemma AckComesFromRespond(initiated: seq<Initiation>, answered: seq<Answered>, signed: set<Signature>,
                            env: Env, honest: set<Text>, a: Ack, signer: Text) returns (j: nat)
    requires SignedInv(initiated, answered, signed) && AnsweredInv(env, answered, signed, honest)
    requires a.Ack? && AllShort(AckFields(a)) && a.sig == Signature(signer, Encoded(AckFields(a))) && a.sig in signed
    ensures j < |answered| && answered[j].responder == signer
    ensures var b := answered[j].answer.ack;
      && b.Ack? && b.sessionId == a.sessionId && b.initiatorId == a.initiatorId && b.responderId == a.responderId
      && b.proof == a.proof && b.timestamp == a.timestamp
      && b.ephemeralPub == a.ephemeralPub && b.kemCiphertext == a.kemCiphertext
  {
    hide HelloFields, AckFields, Encoded, AllShort, SessionIdsDistinct;
    assert Origin(initiated, answered, a.sig);
    AckIsNotOther(a, a.sig);
    if i :| 0 <= i < |initiated| && initiated[i].hello.Hello? && initiated[i].hello.sig == a.sig {
      assert InitiationOk(initiated[i]);
      HelloIsNoAck(initiated[i].hello, a);
    }
    j :| 0 <= j < |answered| && answered[j].answer.ack.Ack? && answered[j].answer.ack.sig == a.sig;
    assert AnsweredOk(env, answered[j]);
    AckBytesDetermine(a, answered[j].answer.ack);
  }

  // ------------------------------------------------------------------ freshness against lifetime

  /** Two acceptances of one timestamp are less than 61 seconds apart, so the mark is still there. */
  lemma SecondAcceptanceIsMarked(store: Store, key: Text, timestamp: int, readAt: real, markAt: real, clock: real,
                                 readAgain: real, markAgain: real)
    requires FreshAt(timestamp, readAt) && FreshAt(timestamp, readAgain)
    requires MarkHolds(store, key, readAt, markAt, clock)
    requires readAgain <= markAgain <= readAgain + MAX_DELAY && clock <= markAgain
    ensures store.MarkUsed(key, MARK_TTL, markAgain).1 != Ok(true)
  {
    assert readAgain < Truncated(readAgain) as real + 1.0 && Truncated(readAt) as real <= readAt;
    assert markAgain < markAt + MARK_TTL as real;
    MarkUsedFacts(store, key, MARK_TTL, markAgain);
  }

  lemma NoSecondAnswer(w: World, env: Env, honest: set<Text>, j: nat, q: Answered)
    requires Once(w, honest) && j < |w.answered| && AnsweredOk(env, q) && AnsweredInv(env, w.answered, w.signed, honest)
    requires q.readAt <= q.markAt <= q.readAt + MAX_DELAY && w.clock <= q.markAt
    requires StoreOf(w.stores, q.responder).MarkUsed(HelloKey(q.hello.sessionId), MARK_TTL, q.markAt).1 == Ok(true)
    ensures !SameAnswer(w.answered[j], q)
  {
    hide HelloFields, AckFields, Encoded, AllShort, Store.MarkUsed, MarkHolds, SignedInv, FreshAt, FinalSecret, DirectionKey;
    var r := w.answered[j];
    if SameAnswer(r, q) {
      SecondAcceptanceIsMarked(StoreOf(w.stores, r.responder), HelloKey(r.hello.sessionId), r.hello.timestamp,
                               r.readAt, r.markAt, w.clock, q.readAt, q.markAt);
    }
  }

  lemma SessionIdNames(initiated: seq<Initiation>, answered: seq<Answered>, signed: set<Signature>, i: nat, j: nat)
    requires SignedInv(initiated, answered, signed) && i < |initiated| && j < |initiated|
    requires initiated[i].hello.Hello? && initiated[j].hello.Hello?
    requires initiated[i].hello.sessionId == initiated[j].hello.sessionId
    ensures i == j
  {
    assert SessionIdOf(initiated[i]) == SessionIdOf(initiated[j]);
  }

  /** An honest initiator signs one HELLO per session id, so the session id names the timestamp. */
  lemma HonestIdNamesAnswer(w: World, env: Env, honest: set<Text>, i: nat, j: nat)
    requires Core(w, env, honest) && OneAnswer(w.answered) && i < |w.answered| && j < |w.answered|
    requires var r, q := w.answered[i], w.answered[j];
      && r.responder == q.responder && r.hello.Hello? && q.hello.Hello? && r.hello.sessionId == q.hello.sessionId
      && r.card.keysOf in honest && q.card.keysOf in honest
    ensures i == j
  {
    hide HelloFields, AckFields, Encoded, AllShort, SignedInv, CompletedInv, MarksInv, OneCompletion, FreshAt, FinalSecret, DirectionKey;
    var r, q := w.answered[i], w.answered[j];
    assert AnsweredOk(env, r) && AnsweredOk(env, q);
    var a := HelloComesFromInitiate(w.initiated, w.answered, w.signed, env, honest, r.hello, r.card.keysOf);
    var b := HelloComesFromInitiate(w.initiated, w.answered, w.signed, env, honest, q.hello, q.card.keysOf);
    SessionIdNames(w.initiated, w.answered, w.signed, a, b);
    assert SameAnswer(r, q) && SameAnswer(q, r);
  }

  // ------------------------------------------------------------------ agreement

  /** Same session id, mirrored parties, equal final secret, and each sends under what the other receives under. */
  ghost predicate Mirrors(c: Outcome, r: Answer) {
    && c.session.id == r.session.id
    && c.session.localId == r.session.remoteId && c.session.remoteId == r.session.localId
    && c.final == r.final
    && (c.session.config.keyInfo == r.session.config.keyInfo <==>
          c.session.sendKey == r.session.recvKey && c.session.recvKey == r.session.sendKey)
  }

  lemma DirectionKeysAgree(final: Secret, c: Config, d: Config, initToResp: bool)
    ensures DirectionKey(final, c, initToResp) == DirectionKey(final, d, initToResp) <==> c.keyInfo == d.keyInfo
  {
    var suffix := if initToResp then INIT_TO_RESP else RESP_TO_INIT;
    var a, b := c.keyInfo + suffix, d.keyInfo + suffix;
    if a == b {
      assert |c.keyInfo| == |d.keyInfo|;
      assert c.keyInfo == a[..|c.keyInfo|] && d.keyInfo == b[..|d.keyInfo|];
    }
  }

  /** An answer that produced the accepted ACK mirrors the completion: here the HMAC proof is used. */
  lemma AckedMirrors(env: Env, p: Initiation, c: Completed, r: Answered)
    requires env.MacIdeal()
    requires InitiationOk(p) && CompletedOk(env, p, c) && AnsweredOk(env, r)
    requires r.responder == c.card.keysOf
    requires var a, b := c.ack, r.answer.ack;
      && a.Ack? && b.Ack? && a.sessionId == b.sessionId && a.initiatorId == b.initiatorId && a.proof == b.proof
      && a.ephemeralPub == b.ephemeralPub && a.kemCiphertext == b.kemCiphertext
    ensures Mirrors(c.outcome, r.answer)
    ensures r.card.keysOf == p.initiator
    ensures Exchange(r.responder, r.hello.ephemeralPub, r.hello.kemCiphertext) == p.secretA
  {
    hide HelloFields, AckFields, Encoded, AllShort, FreshAt, DirectionKey, FinalSecret;
    assert env.mac(p.secretA, c.ack.sessionId + PROOF_SUFFIX)
      == env.mac(Exchange(r.responder, r.hello.ephemeralPub, r.hello.kemCiphertext), r.hello.sessionId + PROOF_SUFFIX);
    var ci, ri := c.outcome.session.config, r.answer.session.config;
    DirectionKeysAgree(r.answer.final, ci, ri, true);
    DirectionKeysAgree(r.answer.final, ci, ri, false);
  }

  lemma CompletionHasAnswer(w: World, env: Env, honest: set<Text>, p: Initiation, c: Completed) returns (j: nat)
    requires Core(w, env, honest) && env.MacIdeal()
    requires InitiationOk(p) && CompletedOk(env, p, c) && c.card.keysOf in honest && c.ack.sig in w.signed
    ensures j < |w.answered| && Mirrors(c.outcome, w.answered[j].answer) && w.answered[j].responder == c.card.keysOf
    ensures w.answered[j].card.keysOf == p.initiator
    ensures w.answered[j].answer.ack.Ack? && c.ack.Ack? && w.answered[j].answer.ack.timestamp == c.ack.timestamp
    ensures w.answered[j].hello.Hello? && w.answered[j].hello.sessionId == c.ack.sessionId
  {
    hide HelloFields, AckFields, Encoded, AllShort, FreshAt, DirectionKey, FinalSecret, Mirrors, SignedInv, Env.MacIdeal,
         MarksInv, OneAnswer, OneCompletion, CompletedInv;
    j := AckComesFromRespond(w.initiated, w.answered, w.signed, env, honest, c.ack, c.card.keysOf);
    AckedMirrors(env, p, c, w.answered[j]);
  }

  lemma NoSecondCompletion(w: World, env: Env, honest: set<Text>, k: nat, d: Completed)
    requires Core(w, env, honest) && Once(w, honest) && env.MacIdeal() && k < |w.completed| && d.which < |w.initiated|
    requires CompletedOk(env, w.initiated[d.which], d) && (d.card.keysOf in honest ==> d.ack.sig in w.signed)
    requires d.readAt <= d.markAt <= d.readAt + MAX_DELAY && w.clock <= d.markAt
    requires StoreOf(w.stores, w.initiated[d.which].initiator).MarkUsed(AckKey(d.ack.sessionId), MARK_TTL, d.markAt).1 == Ok(true)
    ensures !SameCompletion(w.initiated, w.completed[k], d, honest)
  {
    hide HelloFields, AckFields, Encoded, AllShort, Store.MarkUsed, MarkHolds, FreshAt, FinalSecret, DirectionKey,
         Mirrors, Env.MacIdeal, OneCompletion;
    var c := w.completed[k];
    if SameCompletion(w.initiated, c, d, honest) {
      var p := w.initiated[c.which];
      assert InitiationOk(p);
      var j := CompletionHasAnswer(w, env, honest, p, c);
      var l := CompletionHasAnswer(w, env, honest, p, d);
      HonestIdNamesAnswer(w, env, honest, j, l);
      SecondAcceptanceIsMarked(StoreOf(w.stores, p.initiator), AckKey(c.ack.sessionId), c.ack.timestamp,
                               c.readAt, c.markAt, w.clock, d.readAt, d.markAt);
    }
  }

  // ------------------------------------------------------------------ every step keeps the invariant

  /** No mark with time left is lost. */
  ghost predicate StoresKeep(stores: map<Text, Store>, stores': map<Text, Store>, t: real) {
    forall party, key, until | t < until && Marked(StoreOf(stores, party), key, until) ::
      Marked(StoreOf(stores', party), key, until)
  }

  lemma UpdateKeeps(stores: map<Text, Store>, party: Text, s: Store, t: real)
    requires forall key, until | t < until && Marked(StoreOf(stores, party), key, until) :: Marked(s, key, until)
    ensures StoresKeep(stores, stores[party := s], t)
  {
    hide Marked;
  }

  lemma MarkHoldsLater(store: Store, store': Store, key: Text, readAt: real, markAt: real, clock: real, t: real)
    requires MarkHolds(store, key, readAt, markAt, clock) && clock <= t
    requires forall until | t < until && Marked(store, key, until) :: Marked(store', key, until)
    ensures MarkHolds(store', key, readAt, markAt, t)
  {
    hide Marked;
  }

  lemma MarksLater(initiated: seq<Initiation>, answered: seq<Answered>, completed: seq<Completed>,
                   stores: map<Text, Store>, stores': map<Text, Store>, clock: real, t: real)
    requires MarksInv(initiated, answered, completed, stores, clock) && clock <= t && StoresKeep(stores, stores', t)
    ensures MarksInv(initiated, answered, completed, stores', t)
  {
    hide Marked, MarkHolds, StoreOf;
    forall j | 0 <= j < |answered| ensures AnswerMarked(answered[j], stores', t) {
      var r := answered[j];
      assert AnswerMarked(r, stores, clock);
      MarkHoldsLater(StoreOf(stores, r.responder), StoreOf(stores', r.responder), HelloKey(r.hello.sessionId),
                     r.readAt, r.markAt, clock, t);
    }
    forall k | 0 <= k < |completed|
      ensures completed[k].which < |initiated| && CompletionMarked(initiated[completed[k].which].initiator, completed[k], stores', t)
    {
      var c := completed[k];
      var i := initiated[c.which].initiator;
      assert CompletionMarked(i, c, stores, clock);
      MarkHoldsLater(StoreOf(stores, i), StoreOf(stores', i), AckKey(c.ack.sessionId), c.readAt, c.markAt, clock, t);
    }
  }

  /** A step that only touches stores and the clock. */
  lemma StoreStepKeepsOnce(w: World, w': World, honest: set<Text>)
    requires Once(w, honest) && w.clock <= w'.clock
    requires w'.initiated == w.initiated && w'.answered == w.answered && w'.completed == w.completed
    requires StoresKeep(w.stores, w'.stores, w'.clock)
    ensures Once(w', honest)
  {
    hide MarksInv, OneAnswer, OneCompletion, StoresKeep;
    MarksLater(w.initiated, w.answered, w.completed, w.stores, w'.stores, w.clock, w'.clock);
  }

  lemma InitiationHasHello(p: Initiation)
    requires InitiationOk(p)
    ensures p.hello.Hello?
  {}

  lemma OriginGrows(initiated: seq<Initiation>, answered: seq<Answered>, initiated': seq<Initiation>, answered': seq<Answered>, s: Signature)
    requires Origin(initiated, answered, s) && initiated <= initiated' && answered <= answered'
    ensures Origin(initiated', answered', s)
  {
    hide SignsNoHandshake;
    if i :| 0 <= i < |initiated| && initiated[i].hello.Hello? && initiated[i].hello.sig == s {
      assert initiated'[i].hello.sig == s;
    } else if j :| 0 <= j < |answered| && answered[j].answer.ack.Ack? && answered[j].answer.ack.sig == s {
      assert answered'[j].answer.ack.sig == s;
    }
  }

  // ------------------------------------------------------------------ new records, and what agreement rests on

  lemma SignedGrows(initiated: seq<Initiation>, answered: seq<Answered>, initiated': seq<Initiation>, answered': seq<Answered>,
                    signed: set<Signature>, s: Signature)
    requires SignedInv(initiated, answered, signed) && initiated <= initiated' && answered <= answered'
    requires Origin(initiated', answered', s)
    ensures forall t | t in signed + {s} :: Origin(initiated', answered', t)
  {
    hide Origin, InitiationOk, SessionIdsDistinct;
    forall t | t in signed ensures Origin(initiated', answered', t) {
      OriginGrows(initiated, answered, initiated', answered', t);
    }
  }

  lemma CoreAddInitiation(w: World, env: Env, honest: set<Text>, p: Initiation)
    requires Core(w, env, honest) && InitiationOk(p)
    requires forall i | 0 <= i < |w.initiated| :: SessionIdOf(w.initiated[i]) != p.hello.sessionId
    ensures Core(w.(initiated := w.initiated + [p], signed := w.signed + {p.hello.sig}), env, honest)
  {
    hide InitiationOk, AnsweredOk, CompletedOk, Origin;
    InitiationHasHello(p);
    var initiated' := w.initiated + [p];
    assert Origin(initiated', w.answered, p.hello.sig) by {
      FromInitiation(initiated', w.answered, |w.initiated|);
    }
    SignedGrows(w.initiated, w.answered, initiated', w.answered, w.signed, p.hello.sig);
    assert forall k | 0 <= k < |w.completed| :: initiated'[w.completed[k].which] == w.initiated[w.completed[k].which];
  }

  lemma FromInitiation(initiated: seq<Initiation>, answered: seq<Answered>, i: nat)
    requires i < |initiated| && initiated[i].hello.Hello?
    ensures Origin(initiated, answered, initiated[i].hello.sig)
  {}

  lemma FromAnswer(initiated: seq<Initiation>, answered: seq<Answered>, j: nat)
    requires j < |answered| && answered[j].answer.ack.Ack?
    ensures Origin(initiated, answered, answered[j].answer.ack.sig)
  {}

  lemma CoreAddAnswer(w: World, env: Env, honest: set<Text>, r: Answered)
    requires Core(w, env, honest) && AnsweredOk(env, r) && r.answer.ack.Ack?
    requires r.card.keysOf in honest ==> r.hello.sig in w.signed
    ensures Core(w.(answered := w.answered + [r], signed := w.signed + {r.answer.ack.sig}), env, honest)
  {
    hide InitiationOk, AnsweredOk, CompletedOk, Origin, SessionIdsDistinct;
    var answered' := w.answered + [r];
    FromAnswer(w.initiated, answered', |w.answered|);
    SignedGrows(w.initiated, w.answered, w.initiated, answered', w.signed, r.answer.ack.sig);
  }

  lemma CoreAddCompletion(w: World, env: Env, honest: set<Text>, c: Completed)
    requires Core(w, env, honest) && c.which < |w.initiated| && CompletedOk(env, w.initiated[c.which], c)
    requires c.card.keysOf in honest ==> c.ack.sig in w.signed
    ensures Core(w.(completed := w.completed + [c]), env, honest)
  {
    hide SignedInv, AnsweredInv, CompletedOk;
  }

  lemma CoreAddOther(w: World, env: Env, honest: set<Text>, signer: Text, fields: seq<ByteString>)
    requires Core(w, env, honest) && OtherThanHandshake(fields) && AllShort(fields)
    ensures Core(w.(signed := w.signed + {Signature(signer, Encoded(fields))}), env, honest)
  {
    hide InitiationOk, AnsweredOk, CompletedOk, Origin, SessionIdsDistinct, Encoded, AllShort, OtherThanHandshake;
    var s := Signature(signer, Encoded(fields));
    FromOther(w.initiated, w.answered, s, fields);
    SignedGrows(w.initiated, w.answered, w.initiated, w.answered, w.signed, s);
  }

  lemma FromOther(initiated: seq<Initiation>, answered: seq<Answered>, s: Signature, fields: seq<ByteString>)
    requires OtherThanHandshake(fields) && AllShort(fields) && s.message == Encoded(fields)
    ensures Origin(initiated, answered, s)
  {
    hide OtherThanHandshake, Encoded, AllShort;
    assert SignsNoHandshake(s);
  }

  lemma StepKeepsCore(w: World, e: Event, env: Env, honest: set<Text>)
    requires Core(w, env, honest) && Allowed(w, e, honest)
    ensures Core(Step(w, e, env), env, honest)
  {
    hide Initiate, Respond, Complete, InitiationOk, AnsweredOk, CompletedOk, SignedInv, AnsweredInv, CompletedInv,
         Store.MarkUsed, Store.IsSeen, Store.Cleanup, HelloFields, AckFields, Encoded, AllShort, OtherThanHandshake;
    match e {
      case DoInitiate(initiator, card, sessionId, eph, ct, config, reading, at) =>
        var r := Initiate(initiator, card, sessionId, eph, ct, config, reading);
        if r.Ok? {
          InitiateIsOk(initiator, card, sessionId, eph, ct, config, reading);
          CoreAddInitiation(w, env, honest, r.value);
        }
      case DoRespond(responder, h, card, config, x) =>
        var r := Respond(env, responder, h, card, config, StoreOf(w.stores, responder), x).1;
        if r.Ok? {
          var record := Answered(responder, card, h, r.value, x.readAt, x.markAt);
          RespondIsOk(env, responder, h, card, config, StoreOf(w.stores, responder), x);
          AnsweredShape(env, record);
          CoreAddAnswer(w, env, honest, record);
        }
      case DoComplete(which, a, card, readAt, markAt, createdAt) =>
        if which < |w.initiated| && w.initiated[which].hello.Hello? {
          var p := w.initiated[which];
          var r := Complete(env, p, a, card, StoreOf(w.stores, p.initiator), readAt, markAt, createdAt).1;
          if r.Ok? {
            var record := Completed(which, card, a, r.value, readAt, markAt);
            CompleteIsOk(env, p, a, card, StoreOf(w.stores, p.initiator), which, readAt, markAt, createdAt);
            CompletedShape(env, p, record);
            CoreAddCompletion(w, env, honest, record);
          }
        }
      case DoSignOther(signer, fields, at) =>
        if AllShort(fields) {
          CoreAddOther(w, env, honest, signer, fields);
        }
      case _ =>
    }
  }

  lemma {:induction false} RunKeepsCore(w: World, events: seq<Event>, env: Env, honest: set<Text>)
    requires Core(w, env, honest) && AllAllowed(w, events, env, honest)
    ensures Core(Run(w, events, env), env, honest)
    decreases |events|
  {
    hide Core, Step, Allowed;
    if events != [] {
      StepKeepsCore(w, events[0], env, honest);
      RunKeepsCore(Step(w, events[0], env), events[1..], env, honest);
    }
  }

  lemma AnsweredShape(env: Env, r: Answered)
    requires AnsweredOk(env, r)
    ensures r.hello.Hello? && r.hello.sig.signer == r.card.keysOf && r.answer.ack.Ack?
  {}

  lemma CompletedShape(env: Env, p: Initiation, c: Completed)
    requires CompletedOk(env, p, c)
    ensures c.ack.Ack? && c.ack.sig.signer == c.card.keysOf
  {}

  // ------------------------------------------------------------------ prompt calls keep records unique

  lemma RespondStore(env: Env, responder: Text, h: Hello, card: Card, config: Config, store: Store, x: RespondInput)
    ensures var store' := Respond(env, responder, h, card, config, store, x).0;
      store' == store || (h.Hello? && store' == store.MarkUsed(HelloKey(h.sessionId), MARK_TTL, x.markAt).0)
  {
    hide VerifyHello, MakeAck, FinalSecret, NewSession, Store.MarkUsed;
  }

  lemma CompleteStore(env: Env, p: Initiation, a: Ack, card: Card, store: Store, readAt: real, markAt: real, createdAt: real)
    requires p.hello.Hello?
    ensures var store' := Complete(env, p, a, card, store, readAt, markAt, createdAt).0;
      store' == store || (a.Ack? && store' == store.MarkUsed(AckKey(a.sessionId), MARK_TTL, markAt).0)
  {
    hide FinalSecret, NewSession, Store.MarkUsed, FreshAt, AckFields, Bind;
  }

  lemma RespondKeepsMarks(env: Env, responder: Text, h: Hello, card: Card, config: Config, store: Store, x: RespondInput)
    ensures var store' := Respond(env, responder, h, card, config, store, x).0;
      forall key, until | x.markAt < until && Marked(store, key, until) :: Marked(store', key, until)
  {
    hide Respond, Store.MarkUsed, Marked;
    RespondStore(env, responder, h, card, config, store, x);
    if h.Hello? {
      MarkUsedFacts(store, HelloKey(h.sessionId), MARK_TTL, x.markAt);
    }
  }

  lemma CompleteKeepsMarks(env: Env, p: Initiation, a: Ack, card: Card, store: Store, readAt: real, markAt: real, createdAt: real)
    requires p.hello.Hello?
    ensures var store' := Complete(env, p, a, card, store, readAt, markAt, createdAt).0;
      forall key, until | markAt < until && Marked(store, key, until) :: Marked(store', key, until)
  {
    hide Complete, Store.MarkUsed, Marked;
    CompleteStore(env, p, a, card, store, readAt, markAt, createdAt);
    if a.Ack? {
      MarkUsedFacts(store, AckKey(a.sessionId), MARK_TTL, markAt);
    }
  }

  /** Right after a successful mark it holds for its whole lifetime. */
  lemma FreshMarkHolds(store: Store, store': Store, key: Text, readAt: real, markAt: real)
    requires (store', Ok(true)) == store.MarkUsed(key, MARK_TTL, markAt) && readAt <= markAt <= readAt + MAX_DELAY
    ensures MarkHolds(store', key, readAt, markAt, markAt)
  {
    hide Store.MarkUsed;
    MarkUsedFacts(store, key, MARK_TTL, markAt);
  }

  lemma OnceAddAnswer(w: World, honest: set<Text>, r: Answered)
    requires Once(w, honest) && AnswerMarked(r, w.stores, w.clock)
    requires forall j | 0 <= j < |w.answered| :: !SameAnswer(w.answered[j], r)
    ensures Once(w.(answered := w.answered + [r]), honest)
  {
    hide AnswerMarked, CompletionMarked, SameAnswer, OneCompletion;
  }

  lemma OnceAddCompletion(w: World, honest: set<Text>, c: Completed)
    requires Once(w, honest) && c.which < |w.initiated|
    requires CompletionMarked(w.initiated[c.which].initiator, c, w.stores, w.clock)
    requires forall k | 0 <= k < |w.completed| :: !SameCompletion(w.initiated, w.completed[k], c, honest)
    ensures Once(w.(completed := w.completed + [c]), honest)
  {
    hide AnswerMarked, CompletionMarked, SameCompletion, OneAnswer;
  }

  lemma OnceAddInitiation(w: World, honest: set<Text>, p: Initiation)
    requires Once(w, honest)
    ensures Once(w.(initiated := w.initiated + [p]), honest)
  {
    hide AnswerMarked, CompletionMarked, OneAnswer;
    var initiated' := w.initiated + [p];
    assert forall k | 0 <= k < |w.completed| :: initiated'[w.completed[k].which] == w.initiated[w.completed[k].which];
    forall k, l | 0 <= k < l < |w.completed| ensures !SameCompletion(initiated', w.completed[k], w.completed[l], honest) {
      assert !SameCompletion(w.initiated, w.completed[k], w.completed[l], honest);
    }
  }

  lemma RespondKeepsOnce(w: World, e: Event, env: Env, honest: set<Text>)
    requires Core(w, env, honest) && Once(w, honest) && e.DoRespond? && Allowed(w, e, honest) && Prompt(e, MAX_DELAY)
    ensures Once(Step(w, e, env), honest)
  {
    hide Core, Once, Respond, AnsweredOk, HelloFields, AckFields, MarkHolds, Marked, Store.MarkUsed, SameAnswer, StoresKeep;
    var DoRespond(responder, h, card, config, x) := e;
    var store := StoreOf(w.stores, responder);
    var (store', r) := Respond(env, responder, h, card, config, store, x);
    var w1 := w.(clock := x.markAt, stores := w.stores[responder := store']);
    RespondKeepsMarks(env, responder, h, card, config, store, x);
    UpdateKeeps(w.stores, responder, store', x.markAt);
    StoreStepKeepsOnce(w, w1, honest);
    if r.Ok? {
      var record := Answered(responder, card, h, r.value, x.readAt, x.markAt);
      RespondIsOk(env, responder, h, card, config, store, x);
      AnsweredShape(env, record);
      CoreHasAnswers(w, env, honest);
      forall j | 0 <= j < |w.answered| ensures !SameAnswer(w.answered[j], record) {
        NoSecondAnswer(w, env, honest, j, record);
      }
      FreshMarkHolds(store, store', HelloKey(h.sessionId), x.readAt, x.markAt);
      assert StoreOf(w1.stores, responder) == store';
      OnceAddAnswer(w1, honest, record);
      OnceOnlyLooksAt(w1.(answered := w1.answered + [record]), Step(w, e, env), honest);
    } else {
      OnceOnlyLooksAt(w1, Step(w, e, env), honest);
    }
  }

  lemma CoreHasAnswers(w: World, env: Env, honest: set<Text>)
    requires Core(w, env, honest)
    ensures AnsweredInv(env, w.answered, w.signed, honest)
  {}

  /** Signatures do not matter for uniqueness. */
  lemma OnceOnlyLooksAt(w: World, w': World, honest: set<Text>)
    requires Once(w, honest) && w' == w.(signed := w'.signed)
    ensures Once(w', honest)
  {}

  lemma CompleteKeepsOnce(w: World, e: Event, env: Env, honest: set<Text>)
    requires Core(w, env, honest) && Once(w, honest) && env.MacIdeal() && e.DoComplete? && Allowed(w, e, honest) && Prompt(e, MAX_DELAY)
    ensures Once(Step(w, e, env), honest)
  {
    hide Core, Once, Complete, CompletedOk, HelloFields, AckFields, MarkHolds, Marked, Store.MarkUsed, SameCompletion, StoresKeep, Env.MacIdeal;
    var DoComplete(which, a, card, readAt, markAt, createdAt) := e;
    if which < |w.initiated| && w.initiated[which].hello.Hello? {
      var p := w.initiated[which];
      var store := StoreOf(w.stores, p.initiator);
      var (store', r) := Complete(env, p, a, card, store, readAt, markAt, createdAt);
      var w1 := w.(clock := markAt, stores := w.stores[p.initiator := store']);
      CompleteKeepsMarks(env, p, a, card, store, readAt, markAt, createdAt);
      UpdateKeeps(w.stores, p.initiator, store', markAt);
      StoreStepKeepsOnce(w, w1, honest);
      if r.Ok? {
        var record := Completed(which, card, a, r.value, readAt, markAt);
        CompleteIsOk(env, p, a, card, store, which, readAt, markAt, createdAt);
        CompletedShape(env, p, record);
        forall k | 0 <= k < |w.completed| ensures !SameCompletion(w.initiated, w.completed[k], record, honest) {
          NoSecondCompletion(w, env, honest, k, record);
        }
        FreshMarkHolds(store, store', AckKey(a.sessionId), readAt, markAt);
        assert StoreOf(w1.stores, p.initiator) == store';
        OnceAddCompletion(w1, honest, record);
      }
    } else {
      UnchangedKeeps(w.stores, markAt);
      StoreStepKeepsOnce(w, w.(clock := markAt), honest);
    }
  }

  lemma UnchangedKeeps(stores: map<Text, Store>, t: real)
    ensures StoresKeep(stores, stores, t)
  {}

  lemma OthersKeepOnce(w: World, e: Event, env: Env, honest: set<Text>)
    requires Once(w, honest) && Allowed(w, e, honest)
    requires e.DoInitiate? || e.DoSignOther?
    ensures Once(Step(w, e, env), honest)
  {
    hide Once, Initiate, StoresKeep, Encoded, AllShort;
    var w1 := w.(clock := e.at);
    UnchangedKeeps(w.stores, e.at);
    StoreStepKeepsOnce(w, w1, honest);
    if e.DoInitiate? {
      var r := Initiate(e.initiator, e.card, e.sessionId, e.eph, e.ct, e.config, e.reading);
      if r.Ok? {
        OnceAddInitiation(w1, honest, r.value);
        OnceOnlyLooksAt(w1.(initiated := w1.initiated + [r.value]), Step(w, e, env), honest);
      }
    } else {
      OnceOnlyLooksAt(w1, Step(w, e, env), honest);
    }
  }

  lemma StoreOnlyKeepsOnce(w: World, e: Event, env: Env, honest: set<Text>)
    requires Once(w, honest) && Allowed(w, e, honest)
    requires e.DoCleanup? || e.DoMark? || e.DoIsSeen?
    ensures Once(Step(w, e, env), honest)
  {
    hide Once, Marked, Store.MarkUsed, Store.IsSeen, Store.Cleanup, StoresKeep;
    var store := StoreOf(w.stores, e.party);
    CleanupFacts(store, e.at);
    if e.DoMark? {
      MarkUsedFacts(store, e.nonce, e.ttl, e.at);
    } else if e.DoIsSeen? {
      IsSeenFacts(store, e.nonce, e.at);
    }
    UpdateKeeps(w.stores, e.party, StoreOf(Step(w, e, env).stores, e.party), e.at);
    StoreStepKeepsOnce(w, Step(w, e, env), honest);
  }

  lemma StepKeepsOnce(w: World, e: Event, env: Env, honest: set<Text>)
    requires Core(w, env, honest) && Once(w, honest) && env.MacIdeal() && Allowed(w, e, honest) && Prompt(e, MAX_DELAY)
    ensures Once(Step(w, e, env), honest)
  {
    hide Core, Once, Step, Allowed, Prompt, Env.MacIdeal;
    match e {
      case DoRespond(_, _, _, _, _) => RespondKeepsOnce(w, e, env, honest);
      case DoComplete(_, _, _, _, _, _) => CompleteKeepsOnce(w, e, env, honest);
      case DoInitiate(_, _, _, _, _, _, _, _) => OthersKeepOnce(w, e, env, honest);
      case DoSignOther(_, _, _) => OthersKeepOnce(w, e, env, honest);
      case _ => StoreOnlyKeepsOnce(w, e, env, honest);
    }
  }

  lemma {:induction false} RunKeepsOnce(w: World, events: seq<Event>, env: Env, honest: set<Text>)
    requires Core(w, env, honest) && Once(w, honest) && env.MacIdeal() && AllAllowed(w, events, env, honest)
    requires forall e | e in events :: Prompt(e, MAX_DELAY)
    ensures Core(Run(w, events, env), env, honest) && Once(Run(w, events, env), honest)
    decreases |events|
  {
    hide Core, Once, Step, Allowed, Prompt, Env.MacIdeal;
    if events != [] {
      assert events[0] in events && forall e | e in events[1..] :: e in events;
      StepKeepsCore(w, events[0], env, honest);
      StepKeepsOnce(w, events[0], env, honest);
      RunKeepsOnce(Step(w, events[0], env), events[1..], env, honest);
    }
  }

  // ------------------------------------------------------------------ the theorems

  /**
   Agreement: every session that complete() returns with an honest responder mirrors a session that
   responder made for this initiator, even if the initiator's own signing key is no longer honest.
   */
  lemma Agreement(events: seq<Event>, env: Env, honest: set<Text>, k: nat)
    requires env.MacIdeal() && AllAllowed(START, events, env, honest)
    requires var w := Run(START, events, env);
      k < |w.completed| && w.completed[k].card.keysOf in honest
    ensures var w := Run(START, events, env);
      exists j :: 0 <= j < |w.answered| && Mirrors(w.completed[k].outcome, w.answered[j].answer)
               && w.answered[j].responder == w.completed[k].card.keysOf
  {
    hide Step, Allowed, Run, AllAllowed, Mirrors, Env.MacIdeal, InitiationOk, CompletedOk;
    StartHolds(env, honest);
    RunKeepsCore(START, events, env, honest);
    var w := Run(START, events, env);
    var c := w.completed[k];
    var j := CompletionHasAnswer(w, env, honest, w.initiated[c.which], c);
  }

  lemma StartHolds(env: Env, honest: set<Text>)
    ensures Core(START, env, honest) && Once(START, honest)
  {}

  // ---- every answer has a secret of its own

  ghost predicate KeysDistinct(answered: seq<Answered>) {
    forall i, j | 0 <= i < j < |answered| :: !SameKey(answered[i], answered[j])
  }

  predicate SameKey(r: Answered, q: Answered) {
    r.answer.ack.Ack? && q.answer.ack.Ack? && r.answer.ack.ephemeralPub == q.answer.ack.ephemeralPub
  }

  lemma StepKeepsKeys(w: World, e: Event, env: Env, honest: set<Text>)
    requires KeysDistinct(w.answered) && Allowed(w, e, honest)
    ensures KeysDistinct(Step(w, e, env).answered)
  {
    hide Initiate, Respond, Complete, Store.MarkUsed, Store.IsSeen, Store.Cleanup, Encoded, AllShort, OtherThanHandshake;
    if e.DoRespond? {
      var DoRespond(responder, h, card, config, x) := e;
      var r := Respond(env, responder, h, card, config, StoreOf(w.stores, responder), x).1;
      if r.Ok? {
        RespondIsOk(env, responder, h, card, config, StoreOf(w.stores, responder), x);
        hide AnsweredOk;
        var record := Answered(responder, card, h, r.value, x.readAt, x.markAt);
        assert forall j | 0 <= j < |w.answered| :: !SameKey(w.answered[j], record);
        assert Step(w, e, env).answered == w.answered + [record];
      }
    }
  }

  lemma {:induction false} RunKeepsKeys(w: World, events: seq<Event>, env: Env, honest: set<Text>)
    requires KeysDistinct(w.answered) && AllAllowed(w, events, env, honest)
    ensures KeysDistinct(Run(w, events, env).answered)
    decreases |events|
  {
    hide Step, Allowed, KeysDistinct;
    if events != [] {
      StepKeepsKeys(w, events[0], env, honest);
      RunKeepsKeys(Step(w, events[0], env), events[1..], env, honest);
    }
  }

  lemma SameFinalSameKey(env: Env, r: Answered, q: Answered)
    requires AnsweredOk(env, r) && AnsweredOk(env, q) && r.answer.final == q.answer.final
    ensures SameKey(r, q)
  {
    hide HelloFields, AckFields, AllShort, Encoded, FreshAt, ActiveSession;
  }

  /** Equal final secrets come from equal exchanges on both sides: the first one, the HELLO's, included. */
  lemma SameFinalSameExchanges(env: Env, p: Initiation, c: Completed, r: Answered)
    requires InitiationOk(p) && CompletedOk(env, p, c) && AnsweredOk(env, r) && c.outcome.final == r.answer.final
    ensures p.secretA == Exchange(r.responder, r.hello.ephemeralPub, r.hello.kemCiphertext)
    ensures c.ack.Ack? && r.answer.ack.Ack? && c.ack.ephemeralPub == r.answer.ack.ephemeralPub
            && c.ack.kemCiphertext == r.answer.ack.kemCiphertext
    ensures p.initiator == r.card.keysOf && p.card.keysOf == r.responder && p.hello.sessionId == r.hello.sessionId
  {
    hide HelloFields, AckFields, AllShort, Encoded, FreshAt, ActiveSession, FinalSecret;
    var a', b' := Exchange(r.responder, r.hello.ephemeralPub, r.hello.kemCiphertext),
                  Exchange(r.card.keysOf, r.answer.ack.ephemeralPub, r.answer.ack.kemCiphertext);
    var b := Exchange(p.initiator, c.ack.ephemeralPub, c.ack.kemCiphertext);
    BothExchanges(p.secretA, b, p.hello.sessionId, p.initiator, c.card.entityId, a', b', r.hello.sessionId, r.hello.initiatorId, r.responder);
    FinalSecretDetermines(p.secretA, b, p.hello.sessionId, p.initiator, c.card.entityId, a', b', r.hello.sessionId);
  }

  /**
   Whoever is honest and however slow the calls: a completion and an answer with equal final secrets
   mirror each other and rest on the same two exchanges, the HELLO's and the ACK's.
   */
  lemma EqualFinalsMirror(events: seq<Event>, env: Env, honest: set<Text>, k: nat, j: nat)
    requires AllAllowed(START, events, env, honest)
    requires var w := Run(START, events, env);
      k < |w.completed| && j < |w.answered| && w.completed[k].outcome.final == w.answered[j].answer.final
    ensures var w := Run(START, events, env);
      var c, r := w.completed[k], w.answered[j];
      && c.which < |w.initiated| && r.hello.Hello? && c.ack.Ack? && r.answer.ack.Ack? && Mirrors(c.outcome, r.answer)
      && w.initiated[c.which].secretA == Exchange(r.responder, r.hello.ephemeralPub, r.hello.kemCiphertext)
      && c.ack.ephemeralPub == r.answer.ack.ephemeralPub && c.ack.kemCiphertext == r.answer.ack.kemCiphertext
  {
    hide Step, Allowed, Run, AllAllowed, InitiationOk, CompletedOk, AnsweredOk, Mirrors;
    StartHolds(env, honest);
    RunKeepsCore(START, events, env, honest);
    var w := Run(START, events, env);
    var c, r := w.completed[k], w.answered[j];
    var p := w.initiated[c.which];
    assert InitiationOk(p) && CompletedOk(env, p, c) && AnsweredOk(env, r);
    SameFinalSameExchanges(env, p, c, r);
    SameSessionMirrors(env, p, c, r);
  }

  lemma SameSessionMirrors(env: Env, p: Initiation, c: Completed, r: Answered)
    requires InitiationOk(p) && CompletedOk(env, p, c) && AnsweredOk(env, r) && c.outcome.final == r.answer.final
    requires p.initiator == r.card.keysOf && p.card.keysOf == r.responder && p.hello.sessionId == r.hello.sessionId
    ensures Mirrors(c.outcome, r.answer) && r.hello.Hello?
  {
    hide HelloFields, AckFields, AllShort, Encoded, FreshAt, FinalSecret, DirectionKey;
    DirectionKeysAgree(r.answer.final, c.outcome.session.config, r.answer.session.config, true);
    DirectionKeysAgree(r.answer.final, c.outcome.session.config, r.answer.session.config, false);
  }

  /** Whoever is honest and however slow the calls: at most one responder session mirrors an outcome. */
  lemma MirroredAtMostOnce(events: seq<Event>, env: Env, honest: set<Text>, c: Outcome, i: nat, j: nat)
    requires AllAllowed(START, events, env, honest)
    requires var w := Run(START, events, env);
      i < |w.answered| && j < |w.answered| && Mirrors(c, w.answered[i].answer) && Mirrors(c, w.answered[j].answer)
    ensures i == j
  {
    hide Step, Allowed, Run, AllAllowed, SignedInv, CompletedInv, AnsweredOk, SameKey;
    StartHolds(env, honest);
    RunKeepsCore(START, events, env, honest);
    RunKeepsKeys(START, events, env, honest);
    var w := Run(START, events, env);
    assert AnsweredOk(env, w.answered[i]) && AnsweredOk(env, w.answered[j]);
    SameFinalSameKey(env, w.answered[i], w.answered[j]);
    SameFinalSameKey(env, w.answered[j], w.answered[i]);
  }

  /** Injective agreement: every completion with an honest responder is mirrored by exactly one responder session. */
  lemma InjectiveAgreement(events: seq<Event>, env: Env, honest: set<Text>, k: nat)
    requires env.MacIdeal() && AllAllowed(START, events, env, honest)
    requires var w := Run(START, events, env);
      k < |w.completed| && w.completed[k].card.keysOf in honest
    ensures var w := Run(START, events, env);
      var c := w.completed[k];
      exists j :: 0 <= j < |w.answered| && Mirrors(c.outcome, w.answered[j].answer) && w.answered[j].responder == c.card.keysOf
               && forall i | 0 <= i < |w.answered| && Mirrors(c.outcome, w.answered[i].answer) :: i == j
  {
    hide Step, Allowed, Run, AllAllowed, Mirrors, Env.MacIdeal;
    Agreement(events, env, honest, k);
    var w := Run(START, events, env);
    var c := w.completed[k];
    var j :| 0 <= j < |w.answered| && Mirrors(c.outcome, w.answered[j].answer) && w.answered[j].responder == c.card.keysOf;
    forall i | 0 <= i < |w.answered| && Mirrors(c.outcome, w.answered[i].answer) ensures i == j {
      MirroredAtMostOnce(events, env, honest, c.outcome, i, j);
    }
  }

  /** With both parties honest and prompt calls, a handshake is completed at most once. */
  lemma CompletedAtMostOnce(events: seq<Event>, env: Env, honest: set<Text>, k: nat, l: nat)
    requires env.MacIdeal() && AllAllowed(START, events, env, honest) && forall e | e in events :: Prompt(e, MAX_DELAY)
    requires var w := Run(START, events, env);
      && k < |w.completed| && w.completed[k].card.keysOf in honest && w.completed[k].outcome.session.localId in honest
      && l < |w.completed| && w.completed[l].card.keysOf in honest
      && w.completed[l].outcome.session.id == w.completed[k].outcome.session.id
    ensures k == l
  {
    hide Step, Allowed, Run, AllAllowed, Env.MacIdeal, Prompt;
    StartHolds(env, honest);
    RunKeepsOnce(START, events, env, honest);
    CompletionsAreOne(Run(START, events, env), env, honest, k, l);
  }

  lemma CompletionsAreOne(w: World, env: Env, honest: set<Text>, k: nat, l: nat)
    requires Core(w, env, honest) && Once(w, honest) && k < |w.completed| && l < |w.completed|
    requires w.completed[k].card.keysOf in honest && w.completed[l].card.keysOf in honest
    requires w.completed[k].outcome.session.localId in honest
    requires w.completed[k].outcome.session.id == w.completed[l].outcome.session.id
    ensures k == l
  {
    hide AnsweredInv, MarksInv, OneAnswer, HelloFields, AckFields, AllShort, Encoded, FreshAt, FinalSecret, DirectionKey;
    var c, d := w.completed[k], w.completed[l];
    assert CompletedOk(env, w.initiated[c.which], c) && CompletedOk(env, w.initiated[d.which], d);
    SessionIdNames(w.initiated, w.answered, w.signed, c.which, d.which);
    assert SameCompletion(w.initiated, c, d, honest) && SameCompletion(w.initiated, d, c, honest);
  }

  /**
   A responder makes at most one session from one HELLO, whoever sent it, and at most one per session
   id of an honest initiator, if calls are prompt.
   */
  lemma OneResponderSession(events: seq<Event>, env: Env, honest: set<Text>, i: nat, j: nat)
    requires env.MacIdeal() && AllAllowed(START, events, env, honest) && forall e | e in events :: Prompt(e, MAX_DELAY)
    requires var w := Run(START, events, env);
      && i < |w.answered| && j < |w.answered| && w.answered[i].responder == w.answered[j].responder
      && w.answered[i].answer.session.id == w.answered[j].answer.session.id
      && (w.answered[i].hello == w.answered[j].hello
          || (w.answered[i].card.keysOf in honest && w.answered[j].card.keysOf in honest))
    ensures i == j
  {
    hide Step, Allowed, Run, AllAllowed, Env.MacIdeal, Prompt, SignedInv, CompletedInv, MarksInv, OneCompletion, HelloFields,
         AckFields, AllShort, Encoded, FreshAt, FinalSecret, DirectionKey;
    StartHolds(env, honest);
    RunKeepsOnce(START, events, env, honest);
    var w := Run(START, events, env);
    var r, q := w.answered[i], w.answered[j];
    assert AnsweredOk(env, r) && AnsweredOk(env, q);
    if r.hello == q.hello {
      assert SameAnswer(r, q) && SameAnswer(q, r);
    } else {
      HonestIdNamesAnswer(w, env, honest, i, j);
    }
  }

  /**
   The responder's side: a session it made for an honest initiator belongs to a handshake that
   initiator began with it, and rests on the same first secret.
   */
  lemma ResponderAgreement(events: seq<Event>, env: Env, honest: set<Text>, j: nat)
    requires AllAllowed(START, events, env, honest)
    requires var w := Run(START, events, env);
      j < |w.answered| && w.answered[j].card.keysOf in honest
    ensures var w := Run(START, events, env);
      var r := w.answered[j];
      exists i :: 0 <= i < |w.initiated| && w.initiated[i].initiator == r.answer.session.remoteId
               && w.initiated[i].card.entityId == r.responder
               && SessionIdOf(w.initiated[i]) == r.answer.session.id
               && r.hello.Hello? && w.initiated[i].secretA == Exchange(r.responder, r.hello.ephemeralPub, r.hello.kemCiphertext)
  {
    hide Step, Allowed, Run, AllAllowed, HelloFields, AckFields, AllShort, Encoded, FreshAt, FinalSecret, DirectionKey;
    StartHolds(env, honest);
    RunKeepsCore(START, events, env, honest);
    var w := Run(START, events, env);
    var r := w.answered[j];
    assert AnsweredOk(env, r);
    var i := HelloComesFromInitiate(w.initiated, w.answered, w.signed, env, honest, r.hello, r.card.keysOf);
    assert InitiationOk(w.initiated[i]);
  }

  // ------------------------------------------------------------------ the bound on the delay is exact

  /** A freshness reading just under 61 seconds, as late as the delay requires. */
  function LateReading(delay: real): real {
    if delay - MAX_DELAY < 1.0 then 61.0 - (delay - MAX_DELAY) else 60.0
  }

  lemma FreshTwice(delay: real)
    requires delay > MAX_DELAY
    ensures FreshAt(30, 0.0) && FreshAt(30, LateReading(delay)) && 0.0 <= LateReading(delay) <= 90.0 <= LateReading(delay) + delay
  {}

  /** The mark of time 0 is gone after a cleanup at time 90. */
  lemma MarkLapses(key: Text)
    ensures EMPTY.MarkUsed(key, MARK_TTL, 0.0) == (Store(map[key := 90.0], 1), Ok(true))
    ensures Store(map[key := 90.0], 1).Cleanup(90.0) == Store(map[], 1)
    ensures Store(map[], 1).MarkUsed(key, MARK_TTL, 90.0).1 == Ok(true)
  {}

  /** One more event at the end of a run. */
  lemma {:induction false} RunSnoc(w: World, events: seq<Event>, e: Event, env: Env, honest: set<Text>)
    requires AllAllowed(w, events, env, honest) && Allowed(Run(w, events, env), e, honest)
    ensures AllAllowed(w, events + [e], env, honest)
    ensures Run(w, events + [e], env) == Step(Run(w, events, env), e, env)
    decreases |events|
  {
    hide Step, Allowed;
    if events == [] {
      assert events + [e] == [e] && [e][1..] == [];
    } else {
      assert (events + [e])[1..] == events[1..] + [e];
      RunSnoc(Step(w, events[0], env), events[1..], e, env, honest);
    }
  }

  /** How the counterexamples begin: p is initiated at time 0 by a clock that shows the reading. */
  function Opening(p: Initiation, reading: real): Event
    requires p.hello.Hello?
  {
    DoInitiate(p.initiator, p.card, p.hello.sessionId, p.hello.ephemeralPub, p.hello.kemCiphertext, p.config, reading, 0.0)
  }

  predicate Begins(p: Initiation, reading: real) {
    && p.hello.Hello? && p.card.Genuine() && p.hello.sessionId != []
    && Initiate(p.initiator, p.card, p.hello.sessionId, p.hello.ephemeralPub, p.hello.kemCiphertext, p.config, reading) == Ok(p)
  }

  /** The ACK that the responder of p makes. */
  function AckFor(env: Env, p: Initiation, eph: ByteString, ct: ByteString, ackAt: real): Result<Ack, HandshakeError>
    requires p.hello.Hello?
  {
    MakeAck(env, p.card.entityId, p.hello.sessionId, p.hello.initiatorId,
            Exchange(p.card.entityId, p.hello.ephemeralPub, p.hello.kemCiphertext), VERSION_1, eph, ct, ackAt)
  }

  lemma Opened(p: Initiation, reading: real, env: Env, honest: set<Text>)
    requires Begins(p, reading)
    ensures AllAllowed(START, [Opening(p, reading)], env, honest)
    ensures Run(START, [Opening(p, reading)], env) == START.(initiated := [p], signed := {p.hello.sig})
  {
    hide Initiate;
    var e := Opening(p, reading);
    assert [e][1..] == [];
    assert Run(START, [e], env) == Step(START, e, env);
    assert [] + [p] == [p];
  }

  lemma HelloVerifiesWhenFresh(p: Initiation, reading: real, now: real)
    requires Begins(p, reading) && FreshAt(reading.Floor, now)
    ensures VerifyHello(p.hello, Card(p.initiator, p.initiator), p.card.entityId, now) == Ok(VERSION_1)
    ensures p.hello.sessionId != [] && p.hello.initiatorId == p.initiator
  {
    hide Encoded, AllShort, Parse, Decimal, Joined;
  }

  lemma AnswersWhenUnmarked(env: Env, p: Initiation, config: Config, store: Store, x: RespondInput)
    requires p.hello.Hello? && env.isUuid(p.hello.sessionId) && p.hello.initiatorId == p.initiator
    requires VerifyHello(p.hello, Card(p.initiator, p.initiator), p.card.entityId, x.readAt) == Ok(VERSION_1)
    requires AckFor(env, p, x.eph, x.ct, x.ackAt).Ok?
    requires store.MarkUsed(HelloKey(p.hello.sessionId), MARK_TTL, x.markAt).1 == Ok(true)
    ensures var (store', r) := Respond(env, p.card.entityId, p.hello, Card(p.initiator, p.initiator), config, store, x);
      && r.Ok? && r.value.ack == AckFor(env, p, x.eph, x.ct, x.ackAt).value
      && store' == store.MarkUsed(HelloKey(p.hello.sessionId), MARK_TTL, x.markAt).0
  {
    hide VerifyHello, MakeAck, Store.MarkUsed, NewSession, FinalSecret;
  }

  lemma AckDraws(env: Env, p: Initiation, eph: ByteString, ct: ByteString, ackAt: real)
    requires p.hello.Hello? && AckFor(env, p, eph, ct, ackAt).Ok?
    ensures var a := AckFor(env, p, eph, ct, ackAt).value;
      a.Ack? && a.ephemeralPub == eph && a.sessionId == p.hello.sessionId && a.initiatorId == p.hello.initiatorId
      && a.responderId == p.card.entityId
      && a.proof == env.mac(Exchange(p.card.entityId, p.hello.ephemeralPub, p.hello.kemCiphertext), p.hello.sessionId + PROOF_SUFFIX)
  {
    hide Encoded, AllShort, Parse, Decimal;
  }

  /** One HELLO answered at time 0, and again by a call that marks at time 90, when the first mark has lapsed. */
  function AnsweredTwice(p: Initiation, config: Config, x: RespondInput, y: RespondInput, delay: real): seq<Event>
    requires p.hello.Hello?
  {
    var responder, card := p.card.entityId, Card(p.initiator, p.initiator);
    [Opening(p, 30.0)]
    + [DoRespond(responder, p.hello, card, config, x.(readAt := 0.0, markAt := 0.0))]
    + [DoCleanup(responder, 90.0)]
    + [DoRespond(responder, p.hello, card, config, y.(readAt := LateReading(delay), markAt := 90.0))]
  }

  /**
   With any longer delay allowed, a responder makes two sessions from one HELLO of an honest initiator,
   each with an exchange of its own: 29 seconds is exactly what the lifetime of the mark leaves.
   */
  lemma LongerDelaysAnswerTwice(env: Env, honest: set<Text>, p: Initiation, config: Config, x: RespondInput, y: RespondInput, delay: real)
    requires delay > MAX_DELAY && Begins(p, 30.0) && env.isUuid(p.hello.sessionId) && x.eph != y.eph
    requires AckFor(env, p, x.eph, x.ct, x.ackAt).Ok? && AckFor(env, p, y.eph, y.ct, y.ackAt).Ok?
    ensures var events := AnsweredTwice(p, config, x, y, delay);
      && AllAllowed(START, events, env, honest) && (forall e | e in events :: Prompt(e, delay))
      && var w := Run(START, events, env);
         |w.answered| == 2 && w.answered[0].hello == w.answered[1].hello == p.hello
         && w.answered[0].responder == w.answered[1].responder == p.card.entityId
  {
    hide Initiate, Respond, VerifyHello, MakeAck, AckFor, Store.MarkUsed, Store.Cleanup, Run, AllAllowed;
    var h, responder, card := p.hello, p.card.entityId, Card(p.initiator, p.initiator);
    var x0, y1 := x.(readAt := 0.0, markAt := 0.0), y.(readAt := LateReading(delay), markAt := 90.0);
    FreshTwice(delay);
    HelloVerifiesWhenFresh(p, 30.0, 0.0);
    HelloVerifiesWhenFresh(p, 30.0, LateReading(delay));
    MarkLapses(HelloKey(h.sessionId));
    AnswersWhenUnmarked(env, p, config, EMPTY, x0);
    AnswersWhenUnmarked(env, p, config, Store(map[], 1), y1);
    AckDraws(env, p, x.eph, x.ct, x.ackAt);
    Opened(p, 30.0, env, honest);
    var es1 := [Opening(p, 30.0)];
    var e1, e2, e3 := DoRespond(responder, h, card, config, x0), DoCleanup(responder, 90.0), DoRespond(responder, h, card, config, y1);
    RunSnoc(START, es1, e1, env, honest);
    RunSnoc(START, es1 + [e1], e2, env, honest);
    RunSnoc(START, es1 + [e1] + [e2], e3, env, honest);
  }

  lemma AckVerifiesWhenFresh(env: Env, p: Initiation, eph: ByteString, ct: ByteString, now: real)
    requires p.hello.Hello? && p.card.Genuine() && AckFor(env, p, eph, ct, 30.0).Ok? && FreshAt(30, now)
    ensures VerifyAck(AckFor(env, p, eph, ct, 30.0).value, p.card, now).None?
  {
    hide Encoded, AllShort, Parse, Decimal;
  }

  lemma CompletesWhenUnmarked(env: Env, p: Initiation, a: Ack, store: Store, readAt: real, markAt: real, createdAt: real)
    requires p.hello.Hello? && a.Ack? && VerifyAck(a, p.card, readAt).None?
    requires a.sessionId == p.hello.sessionId && a.initiatorId == p.initiator && a.responderId == p.card.entityId
    requires a.proof == env.mac(p.secretA, a.sessionId + PROOF_SUFFIX)
    requires store.MarkUsed(AckKey(a.sessionId), MARK_TTL, markAt).1 == Ok(true)
    ensures var (store', r) := Complete(env, p, a, p.card, store, readAt, markAt, createdAt);
      r.Ok? && store' == store.MarkUsed(AckKey(a.sessionId), MARK_TTL, markAt).0
  {
    hide VerifyAck, Store.MarkUsed, NewSession, FinalSecret;
  }

  lemma SecretOf(p: Initiation, reading: real)
    requires Begins(p, reading)
    ensures p.secretA == Exchange(p.card.entityId, p.hello.ephemeralPub, p.hello.kemCiphertext)
  {
    hide Encoded, AllShort, Parse, Decimal, Joined;
  }

  /** The ACK completed at time 0, and again by a call that marks at time 90. */
  function CompletedTwice(p: Initiation, a: Ack, config: Config, x: RespondInput, createdAt: real, delay: real): seq<Event>
    requires p.hello.Hello?
  {
    [Opening(p, 0.0)]
    + [DoRespond(p.card.entityId, p.hello, Card(p.initiator, p.initiator), config, x.(readAt := 0.0, markAt := 0.0, ackAt := 30.0))]
    + [DoComplete(0, a, p.card, 0.0, 0.0, createdAt)]
    + [DoCleanup(p.initiator, 90.0)]
    + [DoComplete(0, a, p.card, LateReading(delay), 90.0, createdAt)]
  }

  /** The same holds of completions: with any longer delay one handshake is completed twice, with one ACK. */
  lemma LongerDelaysCompleteTwice(env: Env, honest: set<Text>, p: Initiation, config: Config, x: RespondInput, createdAt: real, delay: real)
    requires delay > MAX_DELAY && Begins(p, 0.0) && env.isUuid(p.hello.sessionId) && p.initiator != p.card.entityId
    requires AckFor(env, p, x.eph, x.ct, 30.0).Ok?
    ensures var events := CompletedTwice(p, AckFor(env, p, x.eph, x.ct, 30.0).value, config, x, createdAt, delay);
      && AllAllowed(START, events, env, honest) && (forall e | e in events :: Prompt(e, delay))
      && var w := Run(START, events, env);
         |w.completed| == 2 && w.completed[0].which == w.completed[1].which == 0 && w.initiated == [p]
  {
    hide Initiate, Respond, Complete, VerifyHello, VerifyAck, MakeAck, AckFor, Store.MarkUsed, Store.Cleanup, Run, AllAllowed;
    var h, card := p.hello, Card(p.initiator, p.initiator);
    var a := AckFor(env, p, x.eph, x.ct, 30.0).value;
    var x0 := x.(readAt := 0.0, markAt := 0.0, ackAt := 30.0);
    FreshTwice(delay);
    HelloVerifiesWhenFresh(p, 0.0, 0.0);
    SecretOf(p, 0.0);
    MarkLapses(HelloKey(h.sessionId));
    MarkLapses(AckKey(h.sessionId));
    AnswersWhenUnmarked(env, p, config, EMPTY, x0);
    AckDraws(env, p, x.eph, x.ct, 30.0);
    AckVerifiesWhenFresh(env, p, x.eph, x.ct, 0.0);
    AckVerifiesWhenFresh(env, p, x.eph, x.ct, LateReading(delay));
    CompletesWhenUnmarked(env, p, a, EMPTY, 0.0, 0.0, createdAt);
    CompletesWhenUnmarked(env, p, a, Store(map[], 1), LateReading(delay), 90.0, createdAt);
    Opened(p, 0.0, env, honest);
    var es1 := [Opening(p, 0.0)];
    var e1 := DoRespond(p.card.entityId, h, card, config, x0);
    var e2, e3 := DoComplete(0, a, p.card, 0.0, 0.0, createdAt), DoCleanup(p.initiator, 90.0);
    var e4 := DoComplete(0, a, p.card, LateReading(delay), 90.0, createdAt);
    RunSnoc(START, es1, e1, env, honest);
    RunSnoc(START, es1 + [e1], e2, env, honest);
    RunSnoc(START, es1 + [e1] + [e2], e3, env, honest);
    RunSnoc(START, es1 + [e1] + [e2] + [e3], e4, env, honest);
  }
}
