/**
 Sealed envelopes: seal, verify_envelope and decrypt_verified_envelope of uxsp/crypto/hybrid.py, and
 seal_for and open_from of uxsp/core/identity.py around them.
 */
module Envelopes {
  import opened Wrappers
  import opened Bytes
  import opened BindFields
  import opened Ideal
  import opened NonceStore
  import R = ReplayGuard
  import H = Handshake

  datatype EnvelopeError =
    | CardRevoked | CardExpired | EmptyId | Unencodable | TooLarge
    | WrongParty | Replay(r: R.ReplayError) | Invalid | DecryptFailed

  const VERSION := Ascii("UXSP-1")
  const MAX_BYTES: nat := 64 * 1024

  /** A peer's public card: whose it is, and whether it still counts. */
  datatype PeerCard = PeerCard(identity: H.Card, revoked: bool, validUntil: Option<real>) {
    /** The checks that open seal_for and open_from. */
    function Problem(now: real): Option<EnvelopeError> {
      if revoked then Some(CardRevoked)
      else if validUntil.Some? && now > validUntil.value then Some(CardExpired)
      else None
    }
  }

  datatype Envelope = Envelope(version: Text, sender: Text, recipient: Text, timestamp: int, envelopeNonce: Text,
                               ciphertext: ByteString, nonce: ByteString, ephemeralPub: ByteString,
                               kemCiphertext: ByteString, sig: Signature)

  function Fields(e: Envelope): seq<ByteString> {
    [VERSION, e.ciphertext, e.nonce, e.sender, e.recipient, Decimal(e.timestamp), e.envelopeNonce, e.ephemeralPub,
     e.kemCiphertext]
  }

  /** The fields the guard looks at. */
  function Stamp(e: Envelope): R.Envelope {
    R.Envelope(Some(e.timestamp), Some(e.envelopeNonce))
  }

  // ------------------------------------------------------------------ the length as compact JSON

  // Sizes in bytes: AES-GCM tag and nonce, X25519 key, ML-KEM-768 ciphertext, Ed25519 and ML-DSA-65 signatures.
  const TAG_SIZE: nat := 16
  const NONCE_SIZE: nat := 12
  const EXCHANGE_SIZE: nat := 32
  const KEM_SIZE: nat := 1088
  const CLASSICAL_SIG_SIZE: nat := 64
  const PQC_SIG_SIZE: nat := 3309
  const ENVELOPE_NONCE_LENGTH: nat := 32

  /**
   What one byte of UTF-8 adds to a JSON string that escapes everything but printable ASCII: the bytes
   of a character add up to 6 for one escape, 12 for a surrogate pair.
   */
  function EscapedLength(b: Byte): nat {
    if b == 34 || b == 92 || b == 8 || b == 9 || b == 10 || b == 12 || b == 13 then 2
    else if b < 32 || b == 127 then 6
    else if b < 0xC0 then 1
    else if b < 0xE0 then 5
    else if b < 0xF0 then 4
    else 9
  }

  function TextLength(t: Text): (n: nat)
    ensures n >= |t|
  {
    if t == [] then 0 else TextLength(t[..|t| - 1]) + EscapedLength(t[|t| - 1])
  }

  /** Printable ASCII without quote and backslash. */
  predicate Plain(t: Text) {
    forall i | 0 <= i < |t| :: 32 <= t[i] <= 126 && t[i] != 34 && t[i] != 92
  }

  lemma {:induction false} PlainLength(t: Text)
    requires Plain(t)
    ensures TextLength(t) == |t|
  {
    if t != [] {
      PlainLength(t[..|t| - 1]);
    }
  }

  function QuotedText(t: Text): nat {
    TextLength(t) + 2
  }

  function QuotedHex(size: nat): nat {
    2 * size + 2
  }

  /** A quoted key, a colon and a value. */
  function Member(key: string, value: nat): nat {
    |key| + 3 + value
  }

  /** json.dumps with compact separators: braces, ten commas, eleven members. */
  function JsonLength(e: Envelope): nat {
    2 + 10
    + Member("version", QuotedText(e.version))
    + Member("sender_id", QuotedText(e.sender))
    + Member("recipient_id", QuotedText(e.recipient))
    + Member("timestamp", |Decimal(e.timestamp)|)
    + Member("envelope_nonce", QuotedText(e.envelopeNonce))
    + Member("ciphertext", QuotedHex(|e.ciphertext|))
    + Member("nonce", QuotedHex(|e.nonce|))
    + Member("ephemeral_pub", QuotedHex(|e.ephemeralPub|))
    + Member("kem_ciphertext", QuotedHex(|e.kemCiphertext|))
    + Member("classical_sig", QuotedHex(CLASSICAL_SIG_SIZE))
    + Member("pqc_sig", QuotedHex(PQC_SIG_SIZE))
  }

  /** The length of a sealed envelope beyond twice its payload: 9340 less what the ids and the timestamp differ from 36 + 36 + 10. */
  function Overhead(sender: Text, recipient: Text, timestamp: int): nat {
    9258 + TextLength(sender) + TextLength(recipient) + |Decimal(timestamp)|
  }

  /** AES-GCM appends its tag and nothing else. */
  ghost predicate Tagged(aead: Aead) {
    forall k, n, ad, p :: |aead.seal(k, n, ad, p)| == |p| + TAG_SIZE
  }

  // ------------------------------------------------------------------ seal and open

  /** The random choices and the clock readings of one seal. */
  datatype SealInput = SealInput(eph: ByteString, kem: ByteString, nonce: ByteString, envelopeNonce: Text, cardAt: real, now: real) {
    /** What the exchange and os.urandom deliver; the envelope nonce is hex. */
    predicate Sized() {
      && |eph| == EXCHANGE_SIZE && |kem| == KEM_SIZE && |nonce| == NONCE_SIZE
      && |envelopeNonce| == ENVELOPE_NONCE_LENGTH && Plain(envelopeNonce)
    }
  }

  /** seal_for: the size is checked on the finished envelope. */
  function Seal(aead: Aead, sender: Text, card: PeerCard, plaintext: ByteString, x: SealInput): Result<Envelope, EnvelopeError> {
    var recipient := card.identity.entityId;
    if card.Problem(x.cardAt).Some? then Err(card.Problem(x.cardAt).value)
    else if sender == [] || recipient == [] then Err(EmptyId)
    else
      var ct := aead.seal(Exchange(card.identity.keysOf, x.eph, x.kem), x.nonce, [], plaintext);
      var unsigned := Envelope(VERSION, sender, recipient, x.now.Floor, x.envelopeNonce, ct, x.nonce, x.eph, x.kem,
                               Signature(sender, []));
      match Bind(Fields(unsigned))
      case None => Err(Unencodable)
      case Some(signable) =>
        var e := unsigned.(sig := Signature(sender, signable));
        if JsonLength(e) > MAX_BYTES then Err(TooLarge) else Ok(e)
  }

  /** verify_envelope, after the ids were compared. */
  predicate Verified(e: Envelope, card: H.Card, l: R.Limits, now: real) {
    && e.version == VERSION && l.Freshness(e.timestamp, now).None?
    && e.sender != [] && e.recipient != [] && e.envelopeNonce != []
    && AllShort(Fields(e)) && e.sig == Signature(card.keysOf, Encoded(Fields(e)))
  }

  /** When the card is checked, when the guard is asked, when the signature check reads the clock, when the guard commits. */
  datatype OpenTimes = OpenTimes(cardAt: real, precheck: real, verify: real, commit: real)

  /** open_from */
  function OpenFrom(aead: Aead, me: Text, card: PeerCard, e: Envelope, l: R.Limits, store: Store, t: OpenTimes)
    : (Store, Result<ByteString, EnvelopeError>)
  {
    if card.Problem(t.cardAt).Some? then (store, Err(card.Problem(t.cardAt).value))
    else if e.recipient != me || e.sender != card.identity.entityId then (store, Err(WrongParty))
    else
      var (store, seen) := R.GuardPrecheck(store, l, Stamp(e), t.precheck, t.precheck);
      if seen.Err? then (store, Err(Replay(seen.error)))
      else if !Verified(e, card.identity, l, t.verify) then (store, Err(Invalid))
      else
        var (store, committed) := R.GuardCommit(store, l, Stamp(e), t.commit, t.commit);
        if committed.Err? then (store, Err(Replay(committed.error)))
        else match aead.open(Exchange(me, e.ephemeralPub, e.kemCiphertext), e.nonce, [], e.ciphertext)
          case None => (store, Err(DecryptFailed))
          case Some(plain) => (store, Ok(plain))
  }

  method Open(aead: Aead, me: Text, card: PeerCard, e: Envelope, guard: R.Guard, t: OpenTimes) returns (r: Result<ByteString, EnvelopeError>)
    modifies guard.store
    ensures (guard.store.Value(), r) == OpenFrom(aead, me, card, e, guard.limits, old(guard.store.Value()), t)
  {
    hide R.GuardPrecheck, R.GuardCommit, Verified;
    if card.revoked {
      return Err(CardRevoked);
    }
    if card.validUntil.Some? && t.cardAt > card.validUntil.value {
      return Err(CardExpired);
    }
    if e.recipient != me {
      return Err(WrongParty);
    }
    if e.sender != card.identity.entityId {
      return Err(WrongParty);
    }
    var seen := guard.Precheck(Stamp(e), t.precheck, t.precheck);
    if seen.Err? {
      return Err(Replay(seen.error));
    }
    if !Verified(e, card.identity, guard.limits, t.verify) {
      return Err(Invalid);
    }
    var committed := guard.Commit(Stamp(e), t.commit, t.commit);
    if committed.Err? {
      return Err(Replay(committed.error));
    }
    var plain := aead.open(Exchange(me, e.ephemeralPub, e.kemCiphertext), e.nonce, [], e.ciphertext);
    return if plain.None? then Err(DecryptFailed) else Ok(plain.value);
  }

  /** ReplayGuard.check_and_open: one pass, no look at the card's validity, no second freshness check before the mark. */
  function CheckAndOpen(aead: Aead, me: Text, card: H.Card, e: Envelope, l: R.Limits, store: Store, t: OpenTimes)
    : (Store, Result<ByteString, EnvelopeError>)
  {
    if !Stamp(e).Usable() then (store, Err(Replay(R.BadEnvelope)))
    else if e.sender != card.entityId then (store, Err(WrongParty))
    else if l.Freshness(e.timestamp, t.precheck).Some? then (store, Err(Replay(l.Freshness(e.timestamp, t.precheck).value)))
    else
      var (store, seen) := store.IsSeen(e.envelopeNonce, t.precheck);
      if seen then (store, Err(Replay(R.Duplicate)))
      else if e.recipient != me || !Verified(e, card, l, t.verify) then (store, Err(Invalid))
      else
        var (store, first) := store.MarkUsed(e.envelopeNonce, l.Ttl(), t.commit);
        if first.Err? then (store, Err(Replay(R.StoreUnavailable)))
        else if !first.value then (store, Err(Replay(R.Duplicate)))
        else match aead.open(Exchange(me, e.ephemeralPub, e.kemCiphertext), e.nonce, [], e.ciphertext)
          case None => (store, Err(DecryptFailed))
          case Some(plain) => (store, Ok(plain))
  }

  method CheckThenOpen(aead: Aead, me: Text, card: H.Card, e: Envelope, guard: R.Guard, t: OpenTimes)
    returns (r: Result<ByteString, EnvelopeError>)
    modifies guard.store
    ensures (guard.store.Value(), r) == CheckAndOpen(aead, me, card, e, guard.limits, old(guard.store.Value()), t)
  {
    hide Verified, Store.IsSeen, Store.MarkUsed;
    if e.envelopeNonce == [] {
      return Err(Replay(R.BadEnvelope));
    }
    if e.sender != card.entityId {
      return Err(WrongParty);
    }
    var d := guard.CheckFreshness(Stamp(e), t.precheck);
    if d.Err? {
      return Err(Replay(d.error));
    }
    var seen := guard.store.IsSeen(e.envelopeNonce, t.precheck);
    if seen {
      return Err(Replay(R.Duplicate));
    }
    if e.recipient != me || !Verified(e, card, guard.limits, t.verify) {
      return Err(Invalid);
    }
    var firstUse := guard.store.MarkUsed(e.envelopeNonce, guard.limits.window + guard.limits.skew, t.commit);
    if firstUse.Err? {
      return Err(Replay(R.StoreUnavailable));
    }
    if !firstUse.value {
      return Err(Replay(R.Duplicate));
    }
    var plain := aead.open(Exchange(me, e.ephemeralPub, e.kemCiphertext), e.nonce, [], e.ciphertext);
    return if plain.None? then Err(DecryptFailed) else Ok(plain.value);
  }

  // ------------------------------------------------------------------ what they guarantee together

  /** A store with room that has no live mark of the nonce; an expired one may still lie there. */
  predicate Unused(store: Store, nonce: Text, at: real) {
    (nonce in store.entries ==> store.entries[nonce] <= at) && |store.entries| < MAX_NONCE_STORE_SIZE
  }

  predicate FreshThroughout(e: Envelope, l: R.Limits, t: OpenTimes) {
    && l.Freshness(e.timestamp, t.precheck).None? && l.Freshness(e.timestamp, t.verify).None?
    && l.Freshness(e.timestamp, t.commit).None?
  }

  /** A seal that returns is opened, once, by the party it was sealed for. */
  lemma OpenInvertsSeal(aead: Aead, from: PeerCard, to: PeerCard, plaintext: ByteString, x: SealInput, l: R.Limits, store: Store, t: OpenTimes)
    requires from.identity.Genuine() && to.identity.Genuine() && from.Problem(t.cardAt).None?
    requires aead.Correct() && Seal(aead, from.identity.entityId, to, plaintext, x).Ok?
    requires var e := Seal(aead, from.identity.entityId, to, plaintext, x).value;
      FreshThroughout(e, l, t) && e.envelopeNonce != [] && Unused(store, e.envelopeNonce, t.precheck)
    ensures var e := Seal(aead, from.identity.entityId, to, plaintext, x).value;
      OpenFrom(aead, to.identity.entityId, from, e, l, store, t).1 == Ok(plaintext)
  {
    hide Store.MarkUsed, Store.IsSeen, Parse, Encoded, AllShort, Decimal, JsonLength;
    var e := Seal(aead, from.identity.entityId, to, plaintext, x).value;
    Unseen(store, e.envelopeNonce, t.precheck);
    FirstMark(store.IsSeen(e.envelopeNonce, t.precheck).0, e.envelopeNonce, l.Ttl(), t.commit);
  }

  /** And so does check_and_open. */
  lemma CheckAndOpenInvertsSeal(aead: Aead, from: PeerCard, to: PeerCard, plaintext: ByteString, x: SealInput, l: R.Limits, store: Store, t: OpenTimes)
    requires from.identity.Genuine() && to.identity.Genuine()
    requires aead.Correct() && Seal(aead, from.identity.entityId, to, plaintext, x).Ok?
    requires var e := Seal(aead, from.identity.entityId, to, plaintext, x).value;
      FreshThroughout(e, l, t) && e.envelopeNonce != [] && Unused(store, e.envelopeNonce, t.precheck)
    ensures var e := Seal(aead, from.identity.entityId, to, plaintext, x).value;
      CheckAndOpen(aead, to.identity.entityId, from.identity, e, l, store, t).1 == Ok(plaintext)
  {
    hide Store.MarkUsed, Store.IsSeen, Parse, Encoded, AllShort, Decimal, JsonLength;
    var e := Seal(aead, from.identity.entityId, to, plaintext, x).value;
    Unseen(store, e.envelopeNonce, t.precheck);
    FirstMark(store.IsSeen(e.envelopeNonce, t.precheck).0, e.envelopeNonce, l.Ttl(), t.commit);
  }

  /** A live mark at the first look refuses the envelope, both ways of opening. */
  lemma LiveMarkRefuses(aead: Aead, me: Text, card: PeerCard, e: Envelope, l: R.Limits, store: Store, t: OpenTimes)
    requires e.recipient == me && e.sender == card.identity.entityId && card.Problem(t.cardAt).None?
    requires e.envelopeNonce != [] && l.Freshness(e.timestamp, t.precheck).None?
    requires e.envelopeNonce in store.entries && store.entries[e.envelopeNonce] > t.precheck
    ensures OpenFrom(aead, me, card, e, l, store, t) == (store, Err(Replay(R.Duplicate)))
    ensures CheckAndOpen(aead, me, card.identity, e, l, store, t) == (store, Err(Replay(R.Duplicate)))
  {}

  lemma Unseen(store: Store, nonce: Text, now: real)
    requires Unused(store, nonce, now)
    ensures var (store', seen) := store.IsSeen(nonce, now);
      !seen && nonce !in store'.entries && |store'.entries| < MAX_NONCE_STORE_SIZE
  {
    if nonce in store.entries {
      assert store.entries.Keys == (store.entries - {nonce}).Keys + {nonce};
    }
  }

  lemma FirstMark(store: Store, nonce: Text, ttl: int, now: real)
    requires nonce !in store.entries && |store.entries| < MAX_NONCE_STORE_SIZE
    ensures store.MarkUsed(nonce, ttl, now).1 == Ok(true)
  {
    UnexpiredShrinks(store.entries, now);
  }

  /** The signed bytes determine everything the recipient goes by. */
  lemma EnvelopeBytesDetermine(e: Envelope, f: Envelope)
    requires e.version == f.version && AllShort(Fields(e)) && AllShort(Fields(f))
    requires Encoded(Fields(e)) == Encoded(Fields(f)) && e.sig == f.sig
    ensures e == f
  {
    hide Encoded, AllShort, Decimal;
    var a, b := Fields(e), Fields(f);
    EncodedInjective(a, b);
    assert a[1] == b[1] && a[2] == b[2] && a[3] == b[3] && a[4] == b[4] && a[5] == b[5] && a[6] == b[6] && a[7] == b[7] && a[8] == b[8];
    DecimalInjective(e.timestamp, f.timestamp);
  }

  /** What seal returns: a versioned envelope signed over its fields. */
  predicate IsSealed(e: Envelope, keysOf: Text) {
    e.version == VERSION && AllShort(Fields(e)) && e.sig == Signature(keysOf, Encoded(Fields(e)))
  }

  /** No envelope: the first field or the number of fields tells. */
  predicate OtherThanEnvelope(fields: seq<ByteString>) {
    fields == [] || fields[0] != VERSION || |fields| != 9
  }

  /** What a sender's key signed: the envelopes it sealed, and messages of other kinds. */
  ghost predicate SignedBySender(keysOf: Text, sealed: set<Envelope>, signed: set<Signature>) {
    && (forall f | f in sealed :: IsSealed(f, keysOf))
    && (forall s | s in signed :: (exists f :: f in sealed && f.sig == s) || SignsNoEnvelope(s))
  }

  ghost predicate SignsNoEnvelope(s: Signature) {
    exists fields :: OtherThanEnvelope(fields) && AllShort(fields) && s.message == Encoded(fields)
  }

  /** With ideal signatures an opened envelope is, field for field, one that its sender sealed. */
  lemma OpenedWasSealed(aead: Aead, me: Text, card: PeerCard, e: Envelope, l: R.Limits, store: Store, t: OpenTimes,
                        sealed: set<Envelope>, signed: set<Signature>)
    requires SignedBySender(card.identity.keysOf, sealed, signed) && e.sig in signed
    ensures OpenFrom(aead, me, card, e, l, store, t).1.Ok? ==> e in sealed
  {
    hide Fields, Encoded, AllShort, R.GuardPrecheck, R.GuardCommit, OtherThanEnvelope;
    if OpenFrom(aead, me, card, e, l, store, t).1.Err? {
      return;
    }
    if SignsNoEnvelope(e.sig) {
      var fields :| OtherThanEnvelope(fields) && AllShort(fields) && e.sig.message == Encoded(fields);
      EncodedInjective(fields, Fields(e));
      EnvelopeIsNotOther(e);
    }
    var f :| f in sealed && f.sig == e.sig;
    EnvelopeBytesDetermine(e, f);
  }

  lemma EnvelopeIsNotOther(e: Envelope)
    ensures !OtherThanEnvelope(Fields(e))
  {}

  /** An opened envelope was committed, so the guard's at-most-once theorem applies to it. */
  lemma OpenedOnce(aead: Aead, me: Text, card: PeerCard, e: Envelope, l: R.Limits, store: Store, t: OpenTimes, events: seq<R.Event>)
    requires l.Valid() && OpenFrom(aead, me, card, e, l, store, t).1.Ok?
    requires e.timestamp as real < t.commit + l.skew as real && R.Clocked(t.commit, 0.0, events)
    ensures !R.CommittedIn(OpenFrom(aead, me, card, e, l, store, t).0, l, events, Stamp(e))
  {
    hide R.GuardPrecheck, R.GuardCommit, Verified, R.CommittedIn, R.Clocked;
    var before := R.GuardPrecheck(store, l, Stamp(e), t.precheck, t.precheck).0;
    R.AtMostOnce(before, l, Stamp(e), t.commit, t.commit, 0.0, events);
  }

  /** In one pass the last freshness reading is that of the signature check, so the gap up to the mark counts. */
  lemma CheckedOnce(aead: Aead, me: Text, card: H.Card, e: Envelope, l: R.Limits, store: Store, t: OpenTimes, gap: real,
                    events: seq<R.Event>)
    requires l.Valid() && CheckAndOpen(aead, me, card, e, l, store, t).1.Ok?
    requires t.verify <= t.commit && e.timestamp as real + gap < t.commit + l.skew as real
    requires R.Clocked(t.commit, gap, events)
    ensures !R.CommittedIn(CheckAndOpen(aead, me, card, e, l, store, t).0, l, events, Stamp(e))
  {
    hide Encoded, AllShort, Fields, Store.IsSeen, Store.MarkUsed, R.CommittedIn, R.Clocked;
    var before := store.IsSeen(e.envelopeNonce, t.precheck).0;
    assert R.GuardCommit(before, l, Stamp(e), t.verify, t.commit).1.Ok?;
    assert R.GuardCommit(before, l, Stamp(e), t.verify, t.commit).0 == CheckAndOpen(aead, me, card, e, l, store, t).0;
    R.AtMostOnce(before, l, Stamp(e), t.verify, t.commit, gap, events);
  }

  lemma PrecheckKeepsBounded(store: Store, l: R.Limits, e: R.Envelope, readAt: real, now: real)
    requires store.Bounded()
    ensures R.GuardPrecheck(store, l, e, readAt, now).0.Bounded()
  {
    hide Store.IsSeen, Store.Bounded;
    if e.Usable() {
      IsSeenFacts(store, e.nonce.value, now);
    }
  }

  /** For any gap other commits may have, open_from opens at most once exactly below clock + skew less the gap. */
  lemma OpenedOnceExactly(aead: Aead, me: Text, card: PeerCard, e: Envelope, l: R.Limits, store: Store, t: OpenTimes, gap: real)
    requires l.Valid() && store.Bounded() && gap >= 0.0 && OpenFrom(aead, me, card, e, l, store, t).1.Ok?
    ensures R.NeverAgain(OpenFrom(aead, me, card, e, l, store, t).0, l, Stamp(e), t.commit, gap)
       <==> e.timestamp as real + gap < t.commit + l.skew as real
  {
    hide R.GuardPrecheck, R.GuardCommit, Verified, R.NeverAgain, Store.Bounded;
    var before := R.GuardPrecheck(store, l, Stamp(e), t.precheck, t.precheck).0;
    PrecheckKeepsBounded(store, l, Stamp(e), t.precheck, t.precheck);
    R.AtMostOnceExactly(before, l, Stamp(e), t.commit, t.commit, gap);
  }

  /** And so does check_and_open. */
  lemma CheckedOnceExactly(aead: Aead, me: Text, card: H.Card, e: Envelope, l: R.Limits, store: Store, t: OpenTimes, gap: real)
    requires l.Valid() && store.Bounded() && gap >= 0.0 && t.verify <= t.commit
    requires CheckAndOpen(aead, me, card, e, l, store, t).1.Ok?
    ensures R.NeverAgain(CheckAndOpen(aead, me, card, e, l, store, t).0, l, Stamp(e), t.commit, gap)
       <==> e.timestamp as real + gap < t.commit + l.skew as real
  {
    hide Encoded, AllShort, Fields, Store.IsSeen, Store.MarkUsed, R.NeverAgain, Store.Bounded;
    var before := store.IsSeen(e.envelopeNonce, t.precheck).0;
    IsSeenFacts(store, e.envelopeNonce, t.precheck);
    assert R.GuardCommit(before, l, Stamp(e), t.verify, t.commit).1.Ok?;
    assert R.GuardCommit(before, l, Stamp(e), t.verify, t.commit).0 == CheckAndOpen(aead, me, card, e, l, store, t).0;
    R.AtMostOnceExactly(before, l, Stamp(e), t.verify, t.commit, gap);
  }

  // ------------------------------------------------------------------ what is said and what is checked

  /** What a sealed envelope says, and that its sender signed all of it. */
  lemma SealSays(aead: Aead, sender: Text, card: PeerCard, plaintext: ByteString, x: SealInput)
    requires Seal(aead, sender, card, plaintext, x).Ok?
    ensures var e := Seal(aead, sender, card, plaintext, x).value;
      && e.version == Ascii("UXSP-1") && e.sender == sender != [] && e.recipient == card.identity.entityId != []
      && e.timestamp == x.now.Floor && e.envelopeNonce == x.envelopeNonce && e.nonce == x.nonce
      && e.ephemeralPub == x.eph && e.kemCiphertext == x.kem
      && IsSealed(e, sender) && JsonLength(e) <= 65536
    ensures !card.revoked && (card.validUntil.Some? ==> x.cardAt <= card.validUntil.value)
  {
    hide Parse, Encoded, AllShort, Decimal, TextLength;
  }

  /** What a refusal over the card means, for sealing and for opening. */
  lemma CardProblems(aead: Aead, sender: Text, card: PeerCard, plaintext: ByteString, x: SealInput,
                     e: Envelope, l: R.Limits, store: Store, t: OpenTimes)
    ensures card.revoked ==> Seal(aead, sender, card, plaintext, x) == Err(CardRevoked)
                             && OpenFrom(aead, sender, card, e, l, store, t) == (store, Err(CardRevoked))
    ensures !card.revoked && card.validUntil.Some? && x.cardAt > card.validUntil.value ==>
      Seal(aead, sender, card, plaintext, x) == Err(CardExpired)
    ensures !card.revoked && card.validUntil.Some? && t.cardAt > card.validUntil.value ==>
      OpenFrom(aead, sender, card, e, l, store, t) == (store, Err(CardExpired))
  {
    hide R.GuardPrecheck, R.GuardCommit, Verified, Bind;
  }

  /** No older than the window and no further ahead than the skew, in plain numbers. */
  predicate InTime(e: Envelope, l: R.Limits, now: real) {
    now - l.window as real <= e.timestamp as real <= now + l.skew as real
  }

  /** What an envelope that open_from opened has been checked for, at which readings. */
  lemma OpenedMeans(aead: Aead, me: Text, card: PeerCard, e: Envelope, l: R.Limits, store: Store, t: OpenTimes)
    requires OpenFrom(aead, me, card, e, l, store, t).1.Ok?
    ensures !card.revoked && (card.validUntil.Some? ==> t.cardAt <= card.validUntil.value)
    ensures e.recipient == me && e.sender == card.identity.entityId && e.version == Ascii("UXSP-1")
    ensures e.sender != [] && e.recipient != [] && e.envelopeNonce != []
    ensures InTime(e, l, t.precheck) && InTime(e, l, t.verify) && InTime(e, l, t.commit)
    ensures IsSealed(e, card.identity.keysOf)
    ensures aead.open(Exchange(me, e.ephemeralPub, e.kemCiphertext), e.nonce, [], e.ciphertext)
      == Some(OpenFrom(aead, me, card, e, l, store, t).1.value)
  {
    hide Store.IsSeen, Store.MarkUsed, Encoded, AllShort, Fields;
  }

  /** The same for check_and_open, which looks at the time twice and not at the card's validity. */
  lemma CheckedMeans(aead: Aead, me: Text, card: H.Card, e: Envelope, l: R.Limits, store: Store, t: OpenTimes)
    requires CheckAndOpen(aead, me, card, e, l, store, t).1.Ok?
    ensures e.recipient == me && e.sender == card.entityId && e.version == Ascii("UXSP-1")
    ensures e.sender != [] && e.recipient != [] && e.envelopeNonce != []
    ensures InTime(e, l, t.precheck) && InTime(e, l, t.verify) && IsSealed(e, card.keysOf)
    ensures aead.open(Exchange(me, e.ephemeralPub, e.kemCiphertext), e.nonce, [], e.ciphertext)
      == Some(CheckAndOpen(aead, me, card, e, l, store, t).1.value)
  {
    hide Store.IsSeen, Store.MarkUsed, Encoded, AllShort, Fields;
  }

  /** An envelope meant for or said to be from somebody else is refused before the guard is asked. */
  lemma WrongPartyRefused(aead: Aead, me: Text, card: PeerCard, e: Envelope, l: R.Limits, store: Store, t: OpenTimes)
    requires card.Problem(t.cardAt).None? && (e.recipient != me || e.sender != card.identity.entityId)
    ensures OpenFrom(aead, me, card, e, l, store, t) == (store, Err(WrongParty))
  {}

  // ------------------------------------------------------------------ which seals return

  lemma SealedLength(aead: Aead, sender: Text, recipient: Text, keysOf: Text, plaintext: ByteString, x: SealInput)
    requires Tagged(aead) && x.Sized()
    ensures var ct := aead.seal(Exchange(keysOf, x.eph, x.kem), x.nonce, [], plaintext);
      var e := Envelope(VERSION, sender, recipient, x.now.Floor, x.envelopeNonce, ct, x.nonce, x.eph, x.kem, Signature(sender, []));
      JsonLength(e) == Overhead(sender, recipient, x.now.Floor) + 2 * |plaintext|
  {
    hide TextLength, Plain, Decimal;
    assert Plain(VERSION) by {
      VersionIsPlain();
    }
    PlainLength(VERSION);
    PlainLength(x.envelopeNonce);
  }

  lemma VersionIsPlain()
    ensures Plain(VERSION)
  {}

  /** The signature does not change the length. */
  lemma LengthIgnoresSignature(e: Envelope, sig: Signature)
    ensures JsonLength(e.(sig := sig)) == JsonLength(e)
  {}

  /** Whether a seal gets as far as the size check. */
  predicate Sealable(sender: Text, card: PeerCard, x: SealInput) {
    card.Problem(x.cardAt).None? && sender != [] && card.identity.entityId != []
  }

  /** Every field can be length-prefixed. */
  predicate Encodable(sender: Text, recipient: Text, plaintext: ByteString, x: SealInput) {
    |sender| <= U32_MAX && |recipient| <= U32_MAX && |plaintext| + TAG_SIZE <= U32_MAX && |Decimal(x.now.Floor)| <= U32_MAX
  }

  lemma EncodableIsShort(e: Envelope, plaintext: ByteString, x: SealInput)
    requires Encodable(e.sender, e.recipient, plaintext, x) && x.Sized()
    requires e.timestamp == x.now.Floor && e.envelopeNonce == x.envelopeNonce && |e.ciphertext| == |plaintext| + TAG_SIZE
    requires e.nonce == x.nonce && e.ephemeralPub == x.eph && e.kemCiphertext == x.kem
    ensures AllShort(Fields(e))
  {
    hide Decimal, Plain;
  }

  lemma FittingIsEncodable(sender: Text, recipient: Text, plaintext: ByteString, x: SealInput)
    requires Overhead(sender, recipient, x.now.Floor) + 2 * |plaintext| <= MAX_BYTES
    ensures Encodable(sender, recipient, plaintext, x)
  {
    hide Decimal, TextLength;
  }

  /** What becomes of a seal whose fields can be encoded: the length decides, and the length is linear in the payload. */
  lemma SizeDecides(aead: Aead, sender: Text, card: PeerCard, plaintext: ByteString, x: SealInput)
    requires Tagged(aead) && x.Sized() && Sealable(sender, card, x) && Encodable(sender, card.identity.entityId, plaintext, x)
    ensures var r := Seal(aead, sender, card, plaintext, x);
      if Overhead(sender, card.identity.entityId, x.now.Floor) + 2 * |plaintext| > MAX_BYTES then r == Err(TooLarge) else r.Ok?
  {
    hide JsonLength, Overhead, Decimal, AllShort, Encoded, Parse, Encodable, SealInput.Sized, Fields;
    var recipient := card.identity.entityId;
    var ct := aead.seal(Exchange(card.identity.keysOf, x.eph, x.kem), x.nonce, [], plaintext);
    var unsigned := Envelope(VERSION, sender, recipient, x.now.Floor, x.envelopeNonce, ct, x.nonce, x.eph, x.kem, Signature(sender, []));
    SealedLength(aead, sender, recipient, card.identity.keysOf, plaintext, x);
    EncodableIsShort(unsigned, plaintext, x);
    LengthIgnoresSignature(unsigned, Signature(sender, Encoded(Fields(unsigned))));
  }

  /** Which seals return: nothing but the card, the two ids and the size matters. */
  lemma SealReturnsExactly(aead: Aead, sender: Text, card: PeerCard, plaintext: ByteString, x: SealInput)
    requires Tagged(aead) && x.Sized()
    ensures Seal(aead, sender, card, plaintext, x).Ok? <==>
      Sealable(sender, card, x) && Overhead(sender, card.identity.entityId, x.now.Floor) + 2 * |plaintext| <= MAX_BYTES
  {
    hide JsonLength, Overhead, Decimal, AllShort, Encoded, Parse, Encodable, SealInput.Sized, Fields;
    var recipient := card.identity.entityId;
    if Sealable(sender, card, x) {
      var ct := aead.seal(Exchange(card.identity.keysOf, x.eph, x.kem), x.nonce, [], plaintext);
      var unsigned := Envelope(VERSION, sender, recipient, x.now.Floor, x.envelopeNonce, ct, x.nonce, x.eph, x.kem, Signature(sender, []));
      SealedLength(aead, sender, recipient, card.identity.keysOf, plaintext, x);
      if AllShort(Fields(unsigned)) {
        LengthIgnoresSignature(unsigned, Signature(sender, Encoded(Fields(unsigned))));
      }
      if Overhead(sender, recipient, x.now.Floor) + 2 * |plaintext| <= MAX_BYTES {
        FittingIsEncodable(sender, recipient, plaintext, x);
        SizeDecides(aead, sender, card, plaintext, x);
      }
    }
  }

  function Pow10(k: nat): nat {
    if k == 0 then 1 else 10 * Pow10(k - 1)
  }

  lemma {:induction false} DigitsAtMost(n: nat, k: nat)
    requires k > 0 && n < Pow10(k)
    ensures |Digits(n)| <= k
  {
    if n >= 10 {
      DigitsAtMost(n / 10, k - 1);
    }
  }

  lemma {:induction false} DigitsAtLeast(n: nat, k: nat)
    requires k > 0 && (k == 1 || n >= Pow10(k - 1))
    ensures |Digits(n)| >= k
  {
    if k > 1 {
      DigitsAtLeast(n / 10, k - 1);
    }
  }

  /** Between two parties with UUID-like ids, in any year from 2001 to 2286, the overhead is 9340 bytes. */
  lemma UsualOverhead(sender: Text, recipient: Text, timestamp: int)
    requires |sender| == |recipient| == 36 && Plain(sender) && Plain(recipient)
    requires 1_000_000_000 <= timestamp < 10_000_000_000
    ensures Overhead(sender, recipient, timestamp) == 9340
  {
    hide Digits, TextLength;
    PlainLength(sender);
    PlainLength(recipient);
    TenDigits();
    DigitsAtMost(timestamp, 10);
    DigitsAtLeast(timestamp, 10);
  }

  lemma TenDigits()
    ensures Pow10(9) == 1_000_000_000 && Pow10(10) == 10_000_000_000
  {
    assert Pow10(3) == 1000;
    assert Pow10(6) == 1_000_000;
  }
}
