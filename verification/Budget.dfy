/**
 Any number of threads using one session at once. The lock is released between the parts of
 encrypt and decrypt, so a run is any sequence of locked sections, whoever performs them.
 */
module Budget {
  import opened Wrappers
  import opened Bytes
  import opened Ideal
  import opened Sessions

  datatype Section =
    | Allocate(thread: nat, now: real)                   // first half of encrypt
    | Receive(thread: nat, payload: Payload, now: real)  // the check, decryption and rollback of decrypt
    | Evaluate(thread: nat, now: real)                   // the expiry evaluation closing either call
    | Revoke(thread: nat)

  /** The shared session, every sequence number handed out with its thread, and the plaintexts handed up. */
  datatype Shared = Shared(session: Session, issued: seq<(nat, nat)>, accepted: seq<ByteString>)

  function Step(w: Shared, e: Section, aead: Aead): Shared {
    match e
    case Allocate(t, now) =>
      var (s, r) := w.session.Allocate(now);
      w.(session := s, issued := if r.Ok? then w.issued + [(t, r.value)] else w.issued)
    case Receive(t, p, now) =>
      if !p.WellFormed(w.session.id) then w
      else
        var (s, r) := w.session.Receive(now, p, aead);
        w.(session := s, accepted := if r.Ok? then w.accepted + [r.value] else w.accepted)
    case Evaluate(t, now) => w.(session := w.session.Tick(now))
    case Revoke(t) => w.(session := w.session.Revoke())
  }

  function Run(w: Shared, sections: seq<Section>, aead: Aead): Shared
    decreases |sections|
  {
    if sections == [] then w else Run(Step(w, sections[0], aead), sections[1..], aead)
  }

  ghost predicate Inv(w: Shared) {
    && w.session.config.Valid()
    && w.session.Total() <= w.session.config.maxMessages
    && w.session.sendSeq == |w.issued| && w.session.Received() == |w.accepted|
    && forall i | 0 <= i < |w.issued| :: w.issued[i].1 == i
  }

  lemma StepKeepsInv(w: Shared, e: Section, aead: Aead)
    requires Inv(w)
    ensures Inv(Step(w, e, aead))
    ensures Step(w, e, aead).session.phase.Rank() >= w.session.phase.Rank()
    ensures Step(w, e, aead).session.config == w.session.config
  {}

  lemma {:induction false} RunKeepsInv(w: Shared, sections: seq<Section>, aead: Aead)
    requires Inv(w)
    ensures Inv(Run(w, sections, aead))
    ensures Run(w, sections, aead).session.phase.Rank() >= w.session.phase.Rank()
    ensures Run(w, sections, aead).session.config == w.session.config
    decreases |sections|
  {
    if sections != [] {
      StepKeepsInv(w, sections[0], aead);
      RunKeepsInv(Step(w, sections[0], aead), sections[1..], aead);
    }
  }

  /**
   Whatever the interleaving: numbers handed out and plaintexts handed up together stay within
   max_messages, the counters count exactly them, no two encrypts hold the same number, and an expired
   or revoked session stays so.
   */
  lemma BudgetHolds(s: Session, sections: seq<Section>, aead: Aead, i: nat, j: nat)
    requires s.config.Valid() && s.sendSeq == 0 && s.Received() == 0
    ensures var w := Run(Shared(s, [], []), sections, aead);
      && |w.issued| + |w.accepted| <= s.config.maxMessages
      && w.session.sendSeq == |w.issued| && w.session.Received() == |w.accepted|
      && (i < j < |w.issued| ==> w.issued[i].1 != w.issued[j].1)
      && w.session.phase.Rank() >= s.phase.Rank()
  {
    RunKeepsInv(Shared(s, [], []), sections, aead);
  }

  /** Once the budget is used up no further section hands out a number or accepts a payload. */
  lemma {:induction false} SpentBudgetStops(w: Shared, sections: seq<Section>, aead: Aead)
    requires Inv(w) && w.session.Total() == w.session.config.maxMessages
    ensures Run(w, sections, aead).issued == w.issued && Run(w, sections, aead).accepted == w.accepted
    decreases |sections|
  {
    if sections != [] {
      StepKeepsInv(w, sections[0], aead);
      SpentBudgetStops(Step(w, sections[0], aead), sections[1..], aead);
    }
  }

  predicate Reads(e: Section, t: real) {
    e.Revoke? || e.now > t
  }

  /** Past its lifetime a session hands out no number and hands up no plaintext, whatever the interleaving. */
  lemma {:induction false} OutlivedStops(w: Shared, sections: seq<Section>, aead: Aead)
    requires forall e | e in sections :: Reads(e, w.session.createdAt + w.session.config.maxLifetime as real)
    ensures Run(w, sections, aead).issued == w.issued && Run(w, sections, aead).accepted == w.accepted
    decreases |sections|
  {
    if sections != [] {
      var e := sections[0];
      assert e in sections && forall f | f in sections[1..] :: f in sections;
      OutlivedSection(w, e, aead);
      OutlivedStops(Step(w, e, aead), sections[1..], aead);
    }
  }

  lemma OutlivedSection(w: Shared, e: Section, aead: Aead)
    requires Reads(e, w.session.createdAt + w.session.config.maxLifetime as real)
    ensures var v := Step(w, e, aead);
      && v.issued == w.issued && v.accepted == w.accepted
      && v.session.createdAt == w.session.createdAt && v.session.config == w.session.config
  {}

  // ------------------------------------------------------------------ the part of encrypt outside the lock

  /** The ciphertext encrypt computes after its first section, under the key the session holds by then. */
  function Sealed(w: Shared, n: nat, plaintext: ByteString, nonce: ByteString, aead: Aead): ByteString {
    aead.seal(w.session.sendKey, nonce, Numbered(w.session.id, n), plaintext)
  }

  predicate RevokedIn(sections: seq<Section>) {
    exists e | e in sections :: e.Revoke?
  }

  /** No section but a revocation touches the send key, and that one wipes it for good. */
  lemma {:induction false} SendKeyAfter(w: Shared, sections: seq<Section>, aead: Aead)
    ensures Run(w, sections, aead).session.id == w.session.id
    ensures Run(w, sections, aead).session.sendKey == if RevokedIn(sections) then Zeroed else w.session.sendKey
    decreases |sections|
  {
    if sections != [] {
      var e := sections[0];
      assert RevokedIn(sections) <==> e.Revoke? || RevokedIn(sections[1..]) by {
        assert sections == [e] + sections[1..];
      }
      assert Step(w, e, aead).session.sendKey == if e.Revoke? then Zeroed else w.session.sendKey;
      SendKeyAfter(Step(w, e, aead), sections[1..], aead);
    }
  }

  /**
   Between handing out a number and sealing under it any sections of other threads may run. The
   ciphertext is under the session's send key if and only if none of them revoked the session;
   otherwise it is under the wiped key, which everybody knows.
   */
  lemma SealedUnderSendKey(w: Shared, t: nat, now: real, between: seq<Section>, plaintext: ByteString, nonce: ByteString, aead: Aead)
    requires w.session.sendKey != Zeroed && w.session.Allocate(now).1.Ok?
    ensures var n := w.session.Allocate(now).1.value;
      var later := Run(Step(w, Allocate(t, now), aead), between, aead);
      && (later.session.sendKey == w.session.sendKey <==> !RevokedIn(between))
      && Sealed(later, n, plaintext, nonce, aead)
         == aead.seal(if RevokedIn(between) then Zeroed else w.session.sendKey, nonce, Numbered(w.session.id, n), plaintext)
  {
    SendKeyAfter(Step(w, Allocate(t, now), aead), between, aead);
  }
}
