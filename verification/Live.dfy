/** The live-streaming ratchet of uxsp/core/live.py: one key per 65536 frames, counted at both ends. */
module Live {
  import opened Wrappers
  import opened Bytes
  import opened Ideal

  const FRAMES_PER_KEY: nat := 65536
  const NONCE_SIZE: nat := 12

  /** The first 2^32 frames: the epoch travels in two bytes. */
  const FRAME_LIMIT: nat := 0x1_0000_0000

  const RATCHET_INFO := Ascii("UXSP-live-ratchet")

  datatype LiveError = MetadataTooLarge | EpochTooLarge | TooShort | Replayed | NotAuthentic

  // ------------------------------------------------------------------ the wire format

  datatype Frame = Frame(metadata: ByteString, epoch: nat, nonce: ByteString, ciphertext: ByteString) {
    predicate Packable() {
      |metadata| <= U16_MAX && epoch <= U16_MAX && |nonce| == NONCE_SIZE
    }
  }

  function Pack(f: Frame): ByteString {
    BigEndian(|f.metadata|, 2) + f.metadata + BigEndian(f.epoch, 2) + f.nonce + f.ciphertext
  }

  function Unpack(b: ByteString): Option<Frame> {
    if |b| < 2 then None
    else
      var m := FromBigEndian(b[..2]);
      if |b| < 2 + m + 2 + NONCE_SIZE then None
      else Some(Frame(b[2..2 + m], FromBigEndian(b[2 + m..2 + m + 2]),
                      b[2 + m + 2..2 + m + 2 + NONCE_SIZE], b[2 + m + 2 + NONCE_SIZE..]))
  }

  lemma UnpackInvertsPack(f: Frame)
    requires f.Packable()
    ensures Unpack(Pack(f)) == Some(f)
  {
    hide BigEndian, FromBigEndian;
    var b := Pack(f);
    var m := |f.metadata|;
    PowersOf256();
    FromBigEndianInverse(m, 2);
    FromBigEndianInverse(f.epoch, 2);
    assert b[..2] == BigEndian(m, 2);
    assert b[2..2 + m] == f.metadata;
    assert b[2 + m..2 + m + 2] == BigEndian(f.epoch, 2);
    assert b[2 + m + 2..2 + m + 2 + NONCE_SIZE] == f.nonce;
    assert b[2 + m + 2 + NONCE_SIZE..] == f.ciphertext;
  }

  lemma PackInvertsUnpack(b: ByteString)
    requires Unpack(b).Some?
    ensures Unpack(b).value.Packable() && Pack(Unpack(b).value) == b
  {
    hide BigEndian, FromBigEndian;
    var m := FromBigEndian(b[..2]);
    PowersOf256();
    BigEndianInverse(b[..2]);
    BigEndianInverse(b[2 + m..2 + m + 2]);
    assert b == b[..2] + b[2..2 + m] + b[2 + m..2 + m + 2] + b[2 + m + 2..2 + m + 2 + NONCE_SIZE] + b[2 + m + 2 + NONCE_SIZE..];
  }

  /** What a routing server reads without any key. */
  function ExtractMetadata(b: ByteString): Option<ByteString> {
    if |b| < 2 then None
    else
      var m := FromBigEndian(b[..2]);
      if |b| < 2 + m then None else Some(b[2..2 + m])
  }

  lemma MetadataIsVisible(f: Frame)
    requires f.Packable()
    ensures ExtractMetadata(Pack(f)) == Some(f.metadata)
  {
    UnpackInvertsPack(f);
  }

  // ------------------------------------------------------------------ the ratchet as a value

  /** The key after n turns of the ratchet. */
  function Advance(key: Secret, n: nat): Secret {
    if n == 0 then key else Derived([Advance(key, n - 1)], RATCHET_INFO)
  }

  datatype State = State(key: Secret, epoch: nat, frameCount: nat, lastSeq: int) {
    /** One more frame, and the turn of the ratchet after the last of its key. */
    function Counted(): State {
      if frameCount + 1 >= FRAMES_PER_KEY then State(Advance(key, 1), epoch + 1, 0, lastSeq)
      else this.(frameCount := frameCount + 1)
    }

    /** The catch-up loop of decrypt_frame. */
    function CaughtUp(target: nat): State {
      if epoch < target then State(Advance(key, target - epoch), target, 0, lastSeq) else this
    }

    function Position(): nat {
      epoch * FRAMES_PER_KEY + frameCount
    }
  }

  function AssociatedData(sessionId: ByteString, epoch: nat, metadata: ByteString): ByteString {
    sessionId + BigEndian(epoch, 2) + metadata
  }

  function Encrypt(s: State, sid: ByteString, frame: ByteString, metadata: ByteString, nonce: ByteString, aead: Aead)
    : (State, Result<ByteString, LiveError>)
  {
    if |metadata| > U16_MAX then (s, Err(MetadataTooLarge))
    else if s.epoch > U16_MAX then (s, Err(EpochTooLarge))
    else
      var ct := aead.seal(s.key, nonce, AssociatedData(sid, s.epoch, metadata), frame);
      (s.Counted(), Ok(Pack(Frame(metadata, s.epoch, nonce, ct))))
  }

  function Decrypt(s: State, sid: ByteString, b: ByteString, expected: Option<int>, aead: Aead)
    : (State, Result<(ByteString, ByteString), LiveError>)
  {
    match Unpack(b)
    case None => (s, Err(TooShort))
    case Some(f) =>
      if expected.Some? && expected.value <= s.lastSeq then (s, Err(Replayed))
      else
        var s := s.CaughtUp(f.epoch);
        match aead.open(s.key, f.nonce, AssociatedData(sid, f.epoch, f.metadata), f.ciphertext)
        case None => (s, Err(NotAuthentic))
        case Some(frame) =>
          var s := if expected.Some? then s.(lastSeq := expected.value) else s;
          (s.Counted(), Ok((frame, f.metadata)))
  }

  // ------------------------------------------------------------------ the ratchet as an object

  class LiveSession {
    const sessionId: ByteString
    const aead: Aead
    var key: Secret
    var epoch: nat
    var frameCount: nat
    var lastSeq: int

    function Value(): State
      reads this
    {
      State(key, epoch, frameCount, lastSeq)
    }

    constructor (key: Secret, sessionId: ByteString, aead: Aead)
      ensures Value() == State(key, 0, 0, -1)
      ensures this.sessionId == sessionId && this.aead == aead
    {
      this.key, this.sessionId, this.aead := key, sessionId, aead;
      epoch, frameCount, lastSeq := 0, 0, -1;
    }

    method RatchetKey()
      modifies this
      ensures Value() == State(Advance(old(key), 1), old(epoch) + 1, 0, old(lastSeq))
    {
      assert Advance(key, 0) == key;
      key := Derived([key], RATCHET_INFO);
      frameCount := 0;
      epoch := epoch + 1;
    }

    method EncryptFrame(frame: ByteString, metadata: ByteString, nonce: ByteString)
      returns (r: Result<ByteString, LiveError>)
      modifies this
      ensures (Value(), r) == Encrypt(old(Value()), sessionId, frame, metadata, nonce, aead)
    {
      if |metadata| > U16_MAX {
        return Err(MetadataTooLarge);
      }
      if epoch > U16_MAX {
        return Err(EpochTooLarge);
      }
      var ad := AssociatedData(sessionId, epoch, metadata);
      var ciphertext := aead.seal(key, nonce, ad, frame);
      var result := Pack(Frame(metadata, epoch, nonce, ciphertext));
      frameCount := frameCount + 1;
      if frameCount >= FRAMES_PER_KEY {
        RatchetKey();
      }
      return Ok(result);
    }

    method CatchUp(target: nat)
      modifies this
      ensures Value() == old(Value()).CaughtUp(target)
    {
      ghost var start := Value();
      while epoch < target
        invariant epoch >= start.epoch && lastSeq == start.lastSeq
        invariant epoch == start.epoch ==> Value() == start
        invariant epoch > start.epoch ==> epoch <= target && frameCount == 0
        invariant key == Advance(start.key, epoch - start.epoch)
      {
        AdvanceOnce(start.key, epoch - start.epoch);
        RatchetKey();
      }
    }

    method DecryptFrame(b: ByteString, expected: Option<int>)
      returns (r: Result<(ByteString, ByteString), LiveError>)
      modifies this
      ensures (Value(), r) == Decrypt(old(Value()), sessionId, b, expected, aead)
    {
      hide Advance, AssociatedData, BigEndian, FromBigEndian;
      var parsed := Unpack(b);
      if parsed.None? {
        return Err(TooShort);
      }
      var f := parsed.value;
      if expected.Some? && expected.value <= lastSeq {
        return Err(Replayed);
      }
      CatchUp(f.epoch);
      var decrypted := aead.open(key, f.nonce, AssociatedData(sessionId, f.epoch, f.metadata), f.ciphertext);
      if decrypted.None? {
        return Err(NotAuthentic);
      }
      if expected.Some? {
        lastSeq := expected.value;
      }
      frameCount := frameCount + 1;
      if frameCount >= FRAMES_PER_KEY {
        RatchetKey();
      }
      return Ok((decrypted.value, f.metadata));
    }
  }

  // ------------------------------------------------------------------ both ends over a lossy channel

  lemma {:induction false} AdvanceTwice(key: Secret, m: nat, n: nat)
    ensures Advance(Advance(key, m), n) == Advance(key, m + n)
  {
    if n > 0 {
      AdvanceTwice(key, m, n - 1);
    }
  }

  lemma AdvanceOnce(key: Secret, n: nat)
    ensures Advance(Advance(key, n), 1) == Advance(key, n + 1)
  {
    AdvanceTwice(key, n, 1);
  }

  /** One frame to send: content, metadata, and the random nonce it will get. */
  datatype Item = Item(frame: ByteString, metadata: ByteString, nonce: ByteString) {
    predicate Sendable() {
      |metadata| <= U16_MAX && |nonce| == NONCE_SIZE
    }
  }

  /** The bytes of frame number i: its epoch is i div 65536 and its key that of the epoch. */
  function Packet(key: Secret, sid: ByteString, i: nat, item: Item, aead: Aead): ByteString {
    var epoch := i / FRAMES_PER_KEY;
    Pack(Frame(item.metadata, epoch, item.nonce,
               aead.seal(Advance(key, epoch), item.nonce, AssociatedData(sid, epoch, item.metadata), item.frame)))
  }

  /** The state of the encrypting end after i frames. */
  function After(key: Secret, i: nat): State {
    State(Advance(key, i / FRAMES_PER_KEY), i / FRAMES_PER_KEY, i % FRAMES_PER_KEY, -1)
  }

  lemma CountedAfter(key: Secret, i: nat)
    ensures After(key, i).Counted() == After(key, i + 1)
  {
    var e := i / FRAMES_PER_KEY;
    AdvanceOnce(key, e);
    hide Advance;
    if i % FRAMES_PER_KEY + 1 == FRAMES_PER_KEY {
      assert i + 1 == (e + 1) * FRAMES_PER_KEY;
    } else {
      assert i + 1 == e * FRAMES_PER_KEY + (i % FRAMES_PER_KEY + 1);
    }
  }

  /** Frame i is encrypted as Packet i while i < 2^32, and refused from then on. */
  lemma SenderStep(key: Secret, sid: ByteString, i: nat, item: Item, aead: Aead)
    requires item.Sendable()
    ensures var (s, r) := Encrypt(After(key, i), sid, item.frame, item.metadata, item.nonce, aead);
      if i < FRAME_LIMIT then s == After(key, i + 1) && r == Ok(Packet(key, sid, i, item, aead))
      else s == After(key, i) && r == Err(EpochTooLarge)
  {
    hide Advance, Pack, AssociatedData;
    CountedAfter(key, i);
  }

  function EncryptAll(s: State, sid: ByteString, items: seq<Item>, aead: Aead): seq<Result<ByteString, LiveError>>
    decreases |items|
  {
    if items == [] then []
    else
      var (s', r) := Encrypt(s, sid, items[0].frame, items[0].metadata, items[0].nonce, aead);
      [r] + EncryptAll(s', sid, items[1..], aead)
  }

  lemma {:induction false} SenderRun(key: Secret, sid: ByteString, start: nat, items: seq<Item>, aead: Aead, i: nat)
    requires forall k | 0 <= k < |items| :: items[k].Sendable()
    requires start + |items| <= FRAME_LIMIT && i < |items|
    ensures var sent := EncryptAll(After(key, start), sid, items, aead);
      |sent| == |items| && sent[i] == Ok(Packet(key, sid, start + i, items[i], aead))
    decreases |items|
  {
    hide Encrypt, Packet, After;
    SenderStep(key, sid, start, items[0], aead);
    if i > 0 {
      SenderRun(key, sid, start + 1, items[1..], aead, i - 1);
      assert start + 1 + (i - 1) == start + i;
    } else if |items| > 1 {
      SenderRun(key, sid, start + 1, items[1..], aead, 0);
    } else {
      assert items[1..] == [];
    }
  }

  /** The decrypting end holds the key of its epoch and is not past frame i. */
  ghost predicate NotAhead(s: State, key: Secret, i: nat) {
    s.key == Advance(key, s.epoch) && s.Position() <= i && s.frameCount < FRAMES_PER_KEY && s.lastSeq < i
  }

  lemma EpochOf(s: State, key: Secret, i: nat)
    requires NotAhead(s, key, i)
    ensures s.epoch <= i / FRAMES_PER_KEY
  {
    assert s.epoch * FRAMES_PER_KEY <= i;
  }

  lemma CaughtUpNotAhead(s: State, key: Secret, i: nat)
    requires NotAhead(s, key, i)
    ensures var t := s.CaughtUp(i / FRAMES_PER_KEY);
      && NotAhead(t, key, i) && t.epoch == i / FRAMES_PER_KEY
      && t.key == Advance(key, i / FRAMES_PER_KEY) && t.lastSeq == s.lastSeq < i
  {
    EpochOf(s, key, i);
    var e := i / FRAMES_PER_KEY;
    if s.epoch < e {
      AdvanceTwice(key, s.epoch, e - s.epoch);
      assert e * FRAMES_PER_KEY <= i;
    }
  }

  lemma CountedNotAhead(s: State, key: Secret, i: nat, last: int)
    requires NotAhead(s, key, i) && last <= i
    ensures NotAhead(s.(lastSeq := last).Counted(), key, i + 1)
  {
    AdvanceOnce(key, s.epoch);
  }

  /**
   A receiver that is not ahead of frame i opens it with the right key, whatever was lost before,
   and is not ahead of frame i + 1 afterwards.
   */
  lemma ReceiverStep(s: State, key: Secret, sid: ByteString, i: nat, item: Item, expected: Option<int>, aead: Aead)
    requires aead.Correct() && item.Sendable() && i < FRAME_LIMIT
    requires NotAhead(s, key, i) && (expected.Some? ==> expected.value == i)
    ensures var (t, r) := Decrypt(s, sid, Packet(key, sid, i, item, aead), expected, aead);
      r == Ok((item.frame, item.metadata)) && NotAhead(t, key, i + 1)
  {
    hide Advance, Pack, Unpack, AssociatedData, NotAhead;
    var e := i / FRAMES_PER_KEY;
    var ad := AssociatedData(sid, e, item.metadata);
    var f := Frame(item.metadata, e, item.nonce, aead.seal(Advance(key, e), item.nonce, ad, item.frame));
    assert f.Packable();
    UnpackInvertsPack(f);
    CaughtUpNotAhead(s, key, i);
    var t := s.CaughtUp(e);
    assert aead.open(t.key, item.nonce, ad, f.ciphertext) == Some(item.frame);
    CountedNotAhead(t, key, i, if expected.Some? then i else t.lastSeq);
    assert t.(lastSeq := t.lastSeq) == t;
  }

  function DecryptAll(s: State, sid: ByteString, frames: seq<ByteString>, expected: seq<Option<int>>, aead: Aead)
    : seq<Result<(ByteString, ByteString), LiveError>>
    requires |frames| == |expected|
    decreases |frames|
  {
    if frames == [] then []
    else
      var (s', r) := Decrypt(s, sid, frames[0], expected[0], aead);
      [r] + DecryptAll(s', sid, frames[1..], expected[1..], aead)
  }

  /** Which frames arrive, in order, with or without the number the application attached. */
  ghost predicate Delivery(numbers: seq<nat>, expected: seq<Option<int>>, start: nat, total: nat) {
    && |numbers| == |expected|
    && (forall k | 0 <= k < |numbers| :: start <= numbers[k] < total)
    && (forall k, l | 0 <= k < l < |numbers| :: numbers[k] < numbers[l])
    && (forall k | 0 <= k < |expected| :: expected[k].Some? ==> expected[k].value == numbers[k])
  }

  function Packets(key: Secret, sid: ByteString, numbers: seq<nat>, items: seq<Item>, aead: Aead): seq<ByteString>
    requires forall k | 0 <= k < |numbers| :: numbers[k] < |items|
  {
    seq(|numbers|, k requires 0 <= k < |numbers| => Packet(key, sid, numbers[k], items[numbers[k]], aead))
  }

  lemma {:induction false} ReceiverRun(s: State, key: Secret, sid: ByteString, numbers: seq<nat>, expected: seq<Option<int>>,
                                      items: seq<Item>, start: nat, aead: Aead, k: nat)
    requires aead.Correct() && |items| <= FRAME_LIMIT
    requires forall i | 0 <= i < |items| :: items[i].Sendable()
    requires Delivery(numbers, expected, start, |items|) && NotAhead(s, key, start) && k < |numbers|
    ensures var got := DecryptAll(s, sid, Packets(key, sid, numbers, items, aead), expected, aead);
      |got| == |numbers| && got[k] == Ok((items[numbers[k]].frame, items[numbers[k]].metadata))
    decreases |numbers|
  {
    hide Decrypt, Packet, NotAhead;
    var i := numbers[0];
    NotAheadLater(s, key, start, i);
    ReceiverStep(s, key, sid, i, items[i], expected[0], aead);
    var (s', _) := Decrypt(s, sid, Packet(key, sid, i, items[i], aead), expected[0], aead);
    assert Packets(key, sid, numbers, items, aead)[1..] == Packets(key, sid, numbers[1..], items, aead);
    if |numbers| > 1 {
      assert Delivery(numbers[1..], expected[1..], i + 1, |items|);
      ReceiverRun(s', key, sid, numbers[1..], expected[1..], items, i + 1, aead, if k > 0 then k - 1 else 0);
    }
  }

  lemma NotAheadLater(s: State, key: Secret, i: nat, j: nat)
    requires NotAhead(s, key, i) && i <= j
    ensures NotAhead(s, key, j)
  {}

  /**
   Agreement over a lossy channel: of the first 2^32 frames of an encrypting session, any strictly
   increasing selection is opened by a decrypting session that started with the same key.
   */
  lemma LossyAgreement(key: Secret, sid: ByteString, items: seq<Item>, numbers: seq<nat>, expected: seq<Option<int>>,
                       aead: Aead, k: nat)
    requires aead.Correct() && |items| <= FRAME_LIMIT
    requires forall i | 0 <= i < |items| :: items[i].Sendable()
    requires Delivery(numbers, expected, 0, |items|) && k < |numbers|
    ensures var sent := EncryptAll(State(key, 0, 0, -1), sid, items, aead);
      var wire := Packets(key, sid, numbers, items, aead);
      && |sent| == |items| && sent[numbers[k]] == Ok(wire[k])
      && |DecryptAll(State(key, 0, 0, -1), sid, wire, expected, aead)| == |numbers|
      && DecryptAll(State(key, 0, 0, -1), sid, wire, expected, aead)[k]
           == Ok((items[numbers[k]].frame, items[numbers[k]].metadata))
  {
    hide EncryptAll, DecryptAll, Packet;
    assert After(key, 0) == State(key, 0, 0, -1);
    SenderRun(key, sid, 0, items, aead, numbers[k]);
    ReceiverRun(State(key, 0, 0, -1), key, sid, numbers, expected, items, 0, aead, k);
  }

  /** A frame that fails to open leaves the session as it was exactly when its epoch is not ahead. */
  lemma FailureKeepsState(s: State, sid: ByteString, b: ByteString, expected: Option<int>, aead: Aead)
    requires Decrypt(s, sid, b, expected, aead).1 == Err(NotAuthentic)
    ensures Decrypt(s, sid, b, expected, aead).0 == s <==> Unpack(b).value.epoch <= s.epoch
  {
    hide Advance, AssociatedData, Unpack;
  }

  // ------------------------------------------------------------------ what a forged frame costs

  /** How many derivations lie between a secret and its root. */
  function Depth(s: Secret): nat {
    match s
    case Derived(ikm, _) => if ikm == [] then 1 else 1 + Depth(ikm[0])
    case _ => 0
  }

  lemma {:induction false} DepthOfAdvance(key: Secret, n: nat)
    ensures Depth(Advance(key, n)) == Depth(key) + n
  {
    if n > 0 {
      DepthOfAdvance(key, n - 1);
    }
  }

  /** No two epochs share a key. */
  lemma EpochKeysDiffer(key: Secret, m: nat, n: nat)
    requires Advance(key, m) == Advance(key, n)
    ensures m == n
  {
    DepthOfAdvance(key, m);
    DepthOfAdvance(key, n);
  }

  /** What was sealed under one key opens under no other. */
  ghost predicate RejectsWrongKey(aead: Aead) {
    forall k, k', n, ad, p | k != k' :: aead.open(k', n, ad, aead.seal(k, n, ad, p)) == None
  }

  /** A receiver past the epoch of a genuine frame cannot open it any more. */
  lemma EarlierEpochRefused(s: State, key: Secret, sid: ByteString, i: nat, item: Item, expected: Option<int>, aead: Aead)
    requires RejectsWrongKey(aead) && item.Sendable() && i < FRAME_LIMIT
    requires s.key == Advance(key, s.epoch) && i / FRAMES_PER_KEY < s.epoch
    requires expected.Some? ==> expected.value > s.lastSeq
    ensures Decrypt(s, sid, Packet(key, sid, i, item, aead), expected, aead) == (s, Err(NotAuthentic))
  {
    hide Advance, Pack, Unpack, AssociatedData;
    var e := i / FRAMES_PER_KEY;
    var ad := AssociatedData(sid, e, item.metadata);
    var f := Frame(item.metadata, e, item.nonce, aead.seal(Advance(key, e), item.nonce, ad, item.frame));
    UnpackInvertsPack(f);
    if Advance(key, e) == s.key {
      EpochKeysDiffer(key, e, s.epoch);
    }
  }

  lemma CaughtUpTo(s: State, key: Secret, e: nat, i: nat)
    requires s.key == Advance(key, s.epoch) && s.epoch < e && s.lastSeq < i && e * FRAMES_PER_KEY <= i
    ensures NotAhead(s.CaughtUp(e), key, i)
  {
    AdvanceTwice(key, s.epoch, e - s.epoch);
  }

  /**
   A forged frame of a later epoch e leaves the receiver in that epoch: of the genuine frames still to
   come exactly those from epoch e on are opened, and the earlier ones are lost.
   */
  lemma ForgedFrameSkipsExactly(s: State, key: Secret, sid: ByteString, forged: ByteString, claimed: Option<int>,
                                i: nat, item: Item, expected: Option<int>, aead: Aead)
    requires aead.Correct() && RejectsWrongKey(aead) && item.Sendable() && i < FRAME_LIMIT
    requires NotAhead(s, key, i) && (expected.Some? ==> expected.value == i)
    requires Decrypt(s, sid, forged, claimed, aead).1 == Err(NotAuthentic)
    requires Unpack(forged).Some? && Unpack(forged).value.epoch > s.epoch
    ensures var t, e := Decrypt(s, sid, forged, claimed, aead).0, Unpack(forged).value.epoch;
      var (_, r) := Decrypt(t, sid, Packet(key, sid, i, item, aead), expected, aead);
      if i / FRAMES_PER_KEY >= e then r == Ok((item.frame, item.metadata)) else r == Err(NotAuthentic)
  {
    hide Advance, Pack, Packet, AssociatedData;
    var t, e := Decrypt(s, sid, forged, claimed, aead).0, Unpack(forged).value.epoch;
    assert t == s.CaughtUp(e);
    AdvanceTwice(key, s.epoch, e - s.epoch);
    if i / FRAMES_PER_KEY >= e {
      assert e * FRAMES_PER_KEY <= i;
      CaughtUpTo(s, key, e, i);
      ReceiverStep(t, key, sid, i, item, expected, aead);
    } else {
      EarlierEpochRefused(t, key, sid, i, item, expected, aead);
    }
  }

  // ------------------------------------------------------------------ replay

  /** A number no greater than one already opened is refused, before the frame is touched. */
  lemma ReplayRefused(s: State, sid: ByteString, b: ByteString, n: int, again: ByteString, m: int, aead: Aead)
    requires Decrypt(s, sid, b, Some(n), aead).1.Ok? && m <= n && Unpack(again).Some?
    ensures var t := Decrypt(s, sid, b, Some(n), aead).0;
      Decrypt(t, sid, again, Some(m), aead) == (t, Err(Replayed))
  {}

  /** What one decrypt does to the last number: it rises to the number opened, and otherwise stays. */
  lemma LastNumber(s: State, sid: ByteString, b: ByteString, expected: Option<int>, aead: Aead)
    ensures var (t, r) := Decrypt(s, sid, b, expected, aead);
      && t.lastSeq == (if r.Ok? && expected.Some? then expected.value else s.lastSeq)
      && (r.Ok? && expected.Some? ==> expected.value > s.lastSeq)
      && (r == Err(Replayed) <==> Unpack(b).Some? && expected.Some? && expected.value <= s.lastSeq)
      && (r == Err(TooShort) <==> Unpack(b).None?)
  {
    hide Unpack, Advance, AssociatedData;
  }

  /** The expected numbers of opened frames strictly increase, whatever arrived and failed in between. */
  lemma {:induction false} OpenedNumbersRise(s: State, sid: ByteString, frames: seq<ByteString>, expected: seq<Option<int>>,
                                            aead: Aead, i: nat, j: nat)
    requires |frames| == |expected| && i < j < |frames| && expected[i].Some? && expected[j].Some?
    ensures var got := DecryptAll(s, sid, frames, expected, aead);
      |got| == |frames| && (got[i].Ok? && got[j].Ok? ==> expected[i].value < expected[j].value)
    decreases |frames|
  {
    hide Decrypt;
    LastNumber(s, sid, frames[0], expected[0], aead);
    var t := Decrypt(s, sid, frames[0], expected[0], aead).0;
    if i > 0 {
      OpenedNumbersRise(t, sid, frames[1..], expected[1..], aead, i - 1, j - 1);
    } else {
      OpenedAbove(t, sid, frames[1..], expected[1..], aead, j - 1);
    }
  }

  lemma {:induction false} OpenedAbove(s: State, sid: ByteString, frames: seq<ByteString>, expected: seq<Option<int>>, aead: Aead, j: nat)
    requires |frames| == |expected| && j < |frames| && expected[j].Some?
    ensures var got := DecryptAll(s, sid, frames, expected, aead);
      |got| == |frames| && (got[j].Ok? ==> expected[j].value > s.lastSeq)
    decreases |frames|
  {
    hide Decrypt;
    LastNumber(s, sid, frames[0], expected[0], aead);
    var t := Decrypt(s, sid, frames[0], expected[0], aead).0;
    if j > 0 {
      OpenedAbove(t, sid, frames[1..], expected[1..], aead, j - 1);
    } else {
      SameNumberOfResults(t, sid, frames[1..], expected[1..], aead);
    }
  }

  lemma {:induction false} SameNumberOfResults(s: State, sid: ByteString, frames: seq<ByteString>, expected: seq<Option<int>>, aead: Aead)
    requires |frames| == |expected|
    ensures |DecryptAll(s, sid, frames, expected, aead)| == |frames|
    decreases |frames|
  {
    if frames != [] {
      SameNumberOfResults(Decrypt(s, sid, frames[0], expected[0], aead).0, sid, frames[1..], expected[1..], aead);
    }
  }

  // ------------------------------------------------------------------ authenticity

  /** Ideal integrity: what opens in this frame was sealed by the encrypting session, as one of its items. */
  ghost predicate SealedBySender(key: Secret, sid: ByteString, items: seq<Item>, k: Secret, ad: ByteString, frame: ByteString) {
    exists i :: 0 <= i < |items| && k == Advance(key, i / 65536) && frame == items[i].frame
             && ad == sid + BigEndian(i / 65536, 2) + items[i].metadata
  }

  lemma SameAssociatedData(sid: ByteString, e: nat, metadata: ByteString, e': nat, metadata': ByteString)
    requires e <= U16_MAX && e' <= U16_MAX
    requires AssociatedData(sid, e, metadata) == sid + BigEndian(e', 2) + metadata'
    ensures e == e' && metadata == metadata'
  {
    hide BigEndian;
    var a, b := AssociatedData(sid, e, metadata), sid + BigEndian(e', 2) + metadata';
    assert BigEndian(e, 2) == a[|sid|..|sid| + 2] && BigEndian(e', 2) == b[|sid|..|sid| + 2];
    assert metadata == a[|sid| + 2..] && metadata' == b[|sid| + 2..];
    PowersOf256();
    FromBigEndianInverse(e, 2);
    FromBigEndianInverse(e', 2);
  }

  /** Whatever bytes arrive, a frame that opens is one that was sent: its content with its own metadata and epoch. */
  lemma OpenedWasSent(s: State, key: Secret, sid: ByteString, items: seq<Item>, b: ByteString, expected: Option<int>, aead: Aead) returns (i: nat)
    requires |items| <= FRAME_LIMIT && Decrypt(s, sid, b, expected, aead).1.Ok? && Unpack(b).Some?
    requires var f, k := Unpack(b).value, s.CaughtUp(Unpack(b).value.epoch).key;
      forall ad | aead.open(k, f.nonce, ad, f.ciphertext).Some? ::
        SealedBySender(key, sid, items, k, ad, aead.open(k, f.nonce, ad, f.ciphertext).value)
    ensures i < |items| && Unpack(b).value.epoch == i / 65536
    ensures Decrypt(s, sid, b, expected, aead).1.value == (items[i].frame, items[i].metadata)
  {
    hide Advance, AssociatedData, BigEndian, FromBigEndian;
    var f := Unpack(b).value;
    PackInvertsUnpack(b);
    hide Unpack;
    var k := s.CaughtUp(f.epoch).key;
    var ad := AssociatedData(sid, f.epoch, f.metadata);
    var frame := aead.open(k, f.nonce, ad, f.ciphertext).value;
    assert SealedBySender(key, sid, items, k, ad, frame);
    i :| 0 <= i < |items| && k == Advance(key, i / 65536) && frame == items[i].frame
      && ad == sid + BigEndian(i / 65536, 2) + items[i].metadata;
    assert i / 65536 <= U16_MAX;
    SameAssociatedData(sid, f.epoch, f.metadata, i / 65536, items[i].metadata);
  }

  /** Metadata over 65535 bytes is refused before anything changes. */
  lemma OversizedMetadataRefused(s: State, sid: ByteString, frame: ByteString, metadata: ByteString, nonce: ByteString, aead: Aead)
    requires |metadata| > 65535
    ensures Encrypt(s, sid, frame, metadata, nonce, aead) == (s, Err(MetadataTooLarge))
  {}
}
