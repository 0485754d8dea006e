/** The two halves joined: sessions that a handshake set up, used as an ordered channel. */
module SecureChannel {
  import opened Bytes
  import opened Ideal
  import opened Sessions
  import H = Handshake
  import A = Agreement
  import C = Channel

  /** The initiator's and the responder's session, before any traffic. */
  function Joined(c: H.Outcome, r: H.Answer): C.World {
    C.World(C.Endpoint(c.session, [], []), C.Endpoint(r.session, [], []), {})
  }

  lemma MirroredStart(env: H.Env, p: H.Initiation, c: A.Completed, r: A.Answered)
    requires A.CompletedOk(env, p, c) && A.AnsweredOk(env, r) && A.Mirrors(c.outcome, r.answer)
    ensures var s, t := c.outcome.session, r.answer.session;
      Joined(c.outcome, r.answer) == C.Start(s.id, s.localId, t.localId, c.outcome.final, s.config, t.config, s.createdAt, t.createdAt)
  {
    hide H.HelloFields, H.AckFields, H.FreshAt, H.FinalSecret, DirectionKey, Decimal;
  }

  /** A completion and an answer that mirror each other are the endpoints the channel starts from. */
  lemma MirroredAreEndpoints(events: seq<A.Event>, env: H.Env, honest: set<Text>, k: nat, j: nat)
    requires A.AllAllowed(A.START, events, env, honest)
    requires var w := A.Run(A.START, events, env);
      k < |w.completed| && j < |w.answered| && A.Mirrors(w.completed[k].outcome, w.answered[j].answer)
    ensures var w := A.Run(A.START, events, env);
      var c, r := w.completed[k].outcome, w.answered[j].answer;
      Joined(c, r) == C.Start(c.session.id, c.session.localId, r.session.localId, c.final,
                              c.session.config, r.session.config, c.session.createdAt, r.session.createdAt)
  {
    hide A.Step, A.Allowed, A.Run, A.AllAllowed, A.Mirrors, A.SignedInv, A.CompletedOk, A.AnsweredOk;
    A.StartHolds(env, honest);
    A.RunKeepsCore(A.START, events, env, honest);
    var w := A.Run(A.START, events, env);
    MirroredStart(env, w.initiated[w.completed[k].which], w.completed[k], w.answered[j]);
  }

  /**
   From the first HELLO to the last plaintext: a completion with an honest responder is mirrored by
   exactly one responder session, and if both chose strict order and the same key_info, then in any
   traffic between the two, forged payloads included, what either side has delivered is a prefix of
   what the other has sent.
   */
  lemma HandshakenSessionsDeliverInOrder(events: seq<A.Event>, env: H.Env, honest: set<Text>, k: nat,
                                         traffic: seq<C.Event>, aead: Aead, x: C.Side) returns (j: nat)
    requires env.MacIdeal() && A.AllAllowed(A.START, events, env, honest)
    requires var w := A.Run(A.START, events, env);
      k < |w.completed| && w.completed[k].card.keysOf in honest
    ensures var w := A.Run(A.START, events, env);
      var c := w.completed[k];
      && j < |w.answered| && A.Mirrors(c.outcome, w.answered[j].answer) && w.answered[j].responder == c.card.keysOf
      && (forall i | 0 <= i < |w.answered| && A.Mirrors(c.outcome, w.answered[i].answer) :: i == j)
      && var s, t, start := c.outcome.session, w.answered[j].answer.session, Joined(c.outcome, w.answered[j].answer);
         s.config.ordered && t.config.ordered && s.config.keyInfo == t.config.keyInfo && C.AllGenuine(start, traffic, aead) ==>
           var end := C.Run(start, traffic, aead);
           && end.At(x).delivered <= end.At(x.Peer()).sent
           && end.At(x).session.recvSeq == |end.At(x).delivered| && end.At(x).session.sendSeq == |end.At(x).sent|
  {
    hide A.Run, A.AllAllowed, A.Mirrors, C.Run, C.AllGenuine, Joined, C.Start, H.Env.MacIdeal;
    A.InjectiveAgreement(events, env, honest, k);
    var w := A.Run(A.START, events, env);
    var c := w.completed[k];
    j :| 0 <= j < |w.answered| && A.Mirrors(c.outcome, w.answered[j].answer) && w.answered[j].responder == c.card.keysOf
      && forall i | 0 <= i < |w.answered| && A.Mirrors(c.outcome, w.answered[i].answer) :: i == j;
    MirroredAreEndpoints(events, env, honest, k, j);
    var s, t, start := c.outcome.session, w.answered[j].answer.session, Joined(c.outcome, w.answered[j].answer);
    if s.config.ordered && t.config.ordered && s.config.keyInfo == t.config.keyInfo && C.AllGenuine(start, traffic, aead) {
      C.OrderedDelivery(s.id, s.localId, t.localId, c.outcome.final, s.config, t.config, s.createdAt, t.createdAt, traffic, aead, x);
    }
  }
}
