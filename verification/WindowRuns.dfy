/**
 The window filter inside whole runs of a session: encrypts, expiry, revocation and decrypts of any
 number of threads, in any order of their locked sections.
 */
module WindowRuns {
  import opened Wrappers
  import opened Bytes
  import opened Ideal
  import opened Sessions
  import opened Budget
  import W = ReplayWindow

  /** The attempt a section makes at the filter, if it gets that far. */
  function AttemptOf(s: Session, e: Section, aead: Aead): Option<W.Attempt> {
    if e.Receive? && e.payload.WellFormed(s.id) && s.Tick(e.now).phase == Active then
      var n: nat := e.payload.seqNo.n;
      Some(W.Attempt(n, aead.open(s.recvKey, e.payload.nonce.bytes, Numbered(s.id, n), e.payload.ciphertext.bytes).Some?))
    else None
  }

  /** Does this section hand up a plaintext? */
  predicate HandsUp(s: Session, e: Section, aead: Aead) {
    e.Receive? && e.payload.WellFormed(s.id) && s.Receive(e.now, e.payload, aead).1.Ok?
  }

  /** The reference: every accepted number is kept for ever. */
  function Remembered(accepted: set<nat>, attempt: Option<W.Attempt>): set<nat> {
    if attempt.Some? then W.UnboundedStep(accepted, attempt.value).0 else accepted
  }

  function RememberedAfter(w: Shared, sections: seq<Section>, aead: Aead, accepted: set<nat>): set<nat>
    decreases |sections|
  {
    if sections == [] then accepted
    else RememberedAfter(Step(w, sections[0], aead), sections[1..], aead,
                         Remembered(accepted, AttemptOf(w.session, sections[0], aead)))
  }

  predicate ForgetsNothing(s: Session, attempt: Option<W.Attempt>) {
    attempt.Some? && s.Passes(attempt.value.n) && !attempt.value.opens ==> !W.Forgets(s, attempt.value.n)
  }

  predicate NothingForgotten(w: Shared, sections: seq<Section>, aead: Aead)
    decreases |sections|
  {
    sections == [] ||
    (ForgetsNothing(w.session, AttemptOf(w.session, sections[0], aead))
     && NothingForgotten(Step(w, sections[0], aead), sections[1..], aead))
  }

  /** What the filter looks at. */
  predicate SameFilter(s: Session, t: Session) {
    s.config == t.config && s.seen == t.seen && s.maxSeen == t.maxSeen
  }

  lemma AgreesTransfers(s: Session, t: Session, accepted: set<nat>)
    requires SameFilter(s, t) && W.Agrees(s, accepted)
    ensures W.Agrees(t, accepted) && !s.config.ordered
  {}

  lemma OthersKeepFilter(w: Shared, e: Section, aead: Aead)
    requires AttemptOf(w.session, e, aead).None?
    ensures SameFilter(w.session, Step(w, e, aead).session) && !HandsUp(w.session, e, aead)
  {}

  lemma TickKeepsFilter(s: Session, now: real)
    ensures SameFilter(s, s.Tick(now)) && s.Tick(now).recvKey == s.recvKey && s.Tick(now).id == s.id
  {}

  lemma SectionAgrees(w: Shared, e: Section, aead: Aead, accepted: set<nat>)
    requires W.Agrees(w.session, accepted) && ForgetsNothing(w.session, AttemptOf(w.session, e, aead))
    ensures var attempt := AttemptOf(w.session, e, aead);
      && W.Agrees(Step(w, e, aead).session, Remembered(accepted, attempt))
      && (HandsUp(w.session, e, aead) <==> attempt.Some? && W.UnboundedStep(accepted, attempt.value).1)
  {
    hide W.Agrees, Session.Accept, Session.Undo, Session.Passes, W.Forgets, W.NeverAcceptedAndRecent, Session.Tick;
    var s := w.session;
    var attempt := AttemptOf(s, e, aead);
    if attempt.None? {
      OthersKeepFilter(w, e, aead);
      AgreesTransfers(s, Step(w, e, aead).session, accepted);
    } else {
      var n, t := attempt.value.n, s.Tick(e.now);
      TickKeepsFilter(s, e.now);
      AgreesTransfers(s, t, accepted);
      FilterDecides(s, t, n);
      W.ReceiveIsStep(s, e.now, e.payload, aead);
      W.AgreesDecides(t, accepted, n);
      if t.Passes(n) && attempt.value.opens {
        W.AcceptAgrees(t, accepted, n);
      } else if t.Passes(n) {
        W.UndoAgrees(t, accepted, n);
      }
    }
  }

  lemma FilterDecides(s: Session, t: Session, n: nat)
    requires SameFilter(s, t) && !s.config.ordered
    ensures s.Passes(n) == t.Passes(n) && W.Forgets(s, n) == W.Forgets(t, n)
  {}

  /** In every such run the session ends up agreeing with the unbounded record. */
  lemma {:induction false} RunAgrees(w: Shared, sections: seq<Section>, aead: Aead, accepted: set<nat>)
    requires W.Agrees(w.session, accepted) && NothingForgotten(w, sections, aead)
    ensures W.Agrees(Run(w, sections, aead).session, RememberedAfter(w, sections, aead, accepted))
    decreases |sections|
  {
    hide W.Agrees, Step, ForgetsNothing, Remembered, AttemptOf;
    if sections != [] {
      SectionAgrees(w, sections[0], aead, accepted);
      RunAgrees(Step(w, sections[0], aead), sections[1..], aead, Remembered(accepted, AttemptOf(w.session, sections[0], aead)));
    }
  }

  /**
   After any run of a fresh window-mode session in which nothing was forgotten, a genuine payload is
   handed up exactly when its number was never accepted before and is not below the window.
   */
  lemma RunDecides(s: Session, sections: seq<Section>, aead: Aead, e: Section)
    requires !s.config.ordered && s.seen == {} && s.maxSeen == -1
    requires NothingForgotten(Shared(s, [], []), sections, aead)
    requires AttemptOf(Run(Shared(s, [], []), sections, aead).session, e, aead).Some?
    requires AttemptOf(Run(Shared(s, [], []), sections, aead).session, e, aead).value.opens
    ensures HandsUp(Run(Shared(s, [], []), sections, aead).session, e, aead)
       <==> W.NeverAcceptedAndRecent(RememberedAfter(Shared(s, [], []), sections, aead, {}), e.payload.seqNo.n)
  {
    hide W.Agrees, W.NeverAcceptedAndRecent, Run, Step, NothingForgotten, RememberedAfter;
    W.FreshSessionAgrees(s);
    RunAgrees(Shared(s, [], []), sections, aead, {});
    SectionAgrees(Run(Shared(s, [], []), sections, aead), e, aead, RememberedAfter(Shared(s, [], []), sections, aead, {}));
  }
}
