/**
 The session of uxsp/core/session.py: a pure value with one function per locked section, and the
 class that performs those sections step by step.
 */
module Sessions {
  import opened Wrappers
  import opened Bytes
  import opened Ideal

  const WINDOW_SIZE: nat := 128
  const MAX_REMEMBERED: nat := 2 * WINDOW_SIZE

  datatype Phase = Pending | Active | Expired | Revoked {
    function Rank(): nat {
      match this case Pending => 0 case Active => 1 case Expired => 2 case Revoked => 3
    }
  }

  datatype Config = Config(maxLifetime: int, maxMessages: int, keyInfo: ByteString, ordered: bool) {
    predicate Valid() {
      maxLifetime > 0 && maxMessages > 0 && keyInfo != []
    }
  }

  datatype SeqField = NoSeq | NotANumber | Seq(n: int)
  datatype HexField = NoHex | NotHex | Hex(bytes: ByteString)

  /** The payload dictionary as it arrives, each field possibly absent or of the wrong type. */
  datatype Payload = Payload(sessionId: Option<Text>, seqNo: SeqField, ciphertext: HexField, nonce: HexField) {
    predicate WellFormed(id: Text) {
      sessionId == Some(id) && seqNo.Seq? && seqNo.n >= 0 && ciphertext.Hex? && nonce.Hex?
    }
  }

  datatype SessionError =
    | Malformed | CannotActivate | SessionExpired | SessionRevoked | NotActive | Reordered | DecryptFailed

  // ------------------------------------------------------------------ small set facts

  lemma {:induction false} MaxExists(s: set<nat>)
    requires s != {}
    ensures exists m :: m in s && forall x | x in s :: x <= m
  {
    var y :| y in s;
    if s == {y} {
      assert forall x | x in s :: x <= y;
    } else {
      MaxExists(s - {y});
      var m :| m in s - {y} && forall x | x in s - {y} :: x <= m;
      var top := if y > m then y else m;
      assert top in s && forall x | x in s :: x <= top by {
        forall x | x in s ensures x <= top {
          assert x == y || x in s - {y};
        }
      }
    }
  }

  /** max(s, default=-1) */
  function MaxOf(s: set<nat>): (m: int)
    ensures s == {} ==> m == -1
    ensures s != {} ==> m in s
    ensures forall x | x in s :: x <= m
  {
    if s == {} then -1
    else
      MaxExists(s);
      var m: nat :| m in s && forall x | x in s :: x <= m;
      m
  }

  function KeepFrom(s: set<nat>, floor: int): set<nat> {
    set n | n in s && n >= floor
  }

  lemma {:induction false} RangeBound(s: set<nat>, lo: int, hi: int)
    requires forall n | n in s :: lo <= n < hi
    requires lo <= hi
    ensures |s| <= hi - lo
    decreases hi - lo
  {
    if lo == hi {
      assert s == {};
    } else {
      RangeBound(s - {hi - 1}, lo, hi - 1);
      assert |s| <= |s - {hi - 1}| + 1 by {
        if hi - 1 in s {
          assert s == (s - {hi - 1}) + {hi - 1};
        } else {
          assert s == s - {hi - 1};
        }
      }
    }
  }

  function Floor(maxSeen: int): nat {
    if maxSeen >= WINDOW_SIZE then maxSeen - WINDOW_SIZE + 1 else 0
  }

  // ------------------------------------------------------------------ the session as a value

  datatype Session = Session(
    config: Config, id: Text, localId: Text, remoteId: Text, createdAt: real, phase: Phase,
    sendSeq: nat, recvSeq: nat, seen: set<nat>, maxSeen: int, recvCount: nat,
    sendKey: Secret, recvKey: Secret)
  {
    function Received(): nat {
      if config.ordered then recvSeq else recvCount
    }

    function Total(): nat {
      sendSeq + Received()
    }

    predicate Spent(now: real) {
      now - createdAt > config.maxLifetime as real || Total() >= config.maxMessages
    }

    /** _evaluate_expiry_unlocked */
    function Tick(now: real): Session {
      if phase == Active && Spent(now) then this.(phase := Expired) else this
    }

    /** The exception of _check_active_unlocked after the expiry evaluation. */
    function Refusal(): Option<SessionError> {
      match phase
      case Active => None
      case Expired => Some(SessionExpired)
      case Revoked => Some(SessionRevoked)
      case Pending => Some(NotActive)
    }

    /** First locked section of encrypt: a refusal, or the next sequence number. */
    function Allocate(now: real): (Session, Result<nat, SessionError>) {
      var s := Tick(now);
      match s.Refusal()
      case Some(e) => (s, Err(e))
      case None => (s.(sendSeq := s.sendSeq + 1), Ok(s.sendSeq))
    }

    predicate Passes(n: nat) {
      if config.ordered then n == recvSeq
      else n !in seen && (maxSeen >= 0 ==> n >= Floor(maxSeen))
    }

    /** The state after number n passed and its ciphertext opened. */
    function Accept(n: nat): Session {
      if config.ordered then this.(recvSeq := recvSeq + 1)
      else
        var top := if n > maxSeen then n else maxSeen;
        var all := seen + {n};
        this.(seen := if |all| > MAX_REMEMBERED then KeepFrom(all, top - WINDOW_SIZE + 1) else all,
              maxSeen := top, recvCount := recvCount + 1)
    }

    /** The state after number n passed and its ciphertext did not open. */
    function Undo(n: nat): Session {
      if config.ordered || |seen| < MAX_REMEMBERED then this
      else if n <= maxSeen then this.(seen := KeepFrom(seen, maxSeen - WINDOW_SIZE + 1))
      else
        var kept := KeepFrom(seen, n - WINDOW_SIZE + 1);
        this.(seen := kept, maxSeen := MaxOf(kept))
    }

    /** The locked section of decrypt, for a well-formed payload. */
    function Receive(now: real, p: Payload, aead: Aead): (Session, Result<ByteString, SessionError>)
      requires p.WellFormed(id)
    {
      var s := Tick(now);
      match s.Refusal()
      case Some(e) => (s, Err(e))
      case None =>
        var n: nat := p.seqNo.n;
        if !s.Passes(n) then (s, Err(Reordered))
        else match aead.open(s.recvKey, p.nonce.bytes, Numbered(id, n), p.ciphertext.bytes)
          case Some(plain) => (s.Accept(n), Ok(plain))
          case None => (s.Undo(n), Err(DecryptFailed))
    }

    /** The whole of decrypt: validation, the locked section, the closing expiry evaluation. */
    function Decrypt(now: real, later: real, p: Payload, aead: Aead): (Session, Result<ByteString, SessionError>) {
      if !p.WellFormed(id) then (this, Err(Malformed))
      else
        var (s, r) := Receive(now, p, aead);
        (if r.Ok? then s.Tick(later) else s, r)
    }

    /** The whole of encrypt when nothing runs between its two locked sections. */
    function Encrypt(now: real, later: real, plaintext: ByteString, nonce: ByteString, aead: Aead)
      : (Session, Result<Payload, SessionError>)
    {
      var (s, r) := Allocate(now);
      match r
      case Err(e) => (s, Err(e))
      case Ok(n) =>
        var ct := aead.seal(s.sendKey, nonce, Numbered(id, n), plaintext);
        (s.Tick(later), Ok(Payload(Some(id), Seq(n), Hex(ct), Hex(nonce))))
    }

    function Revoke(): Session {
      this.(phase := Revoked, sendKey := Zeroed, recvKey := Zeroed)
    }

    /** What every reachable session satisfies, forged traffic included. */
    ghost predicate Sound() {
      maxSeen == MaxOf(seen) && |seen| <= MAX_REMEMBERED
    }
  }

  const INIT_TO_RESP := Ascii(":enc:init_to_resp")
  const RESP_TO_INIT := Ascii(":enc:resp_to_init")

  function DirectionKey(shared: Secret, config: Config, initToResp: bool): Secret {
    Derived([shared], config.keyInfo + (if initToResp then INIT_TO_RESP else RESP_TO_INIT))
  }

  /** Session.__init__ */
  function NewSession(id: Text, localId: Text, remoteId: Text, shared: Secret, isInitiator: bool,
                      config: Config, now: real): (s: Session)
    ensures s.Sound()
  {
    Session(config, id, localId, remoteId, now, Pending, 0, 0, {}, -1, 0,
            DirectionKey(shared, config, isInitiator), DirectionKey(shared, config, !isInitiator))
  }

  // ------------------------------------------------------------------ the session as an object

  class SessionObject {
    const config: Config
    const id: Text
    const localId: Text
    const remoteId: Text
    const createdAt: real
    const aead: Aead
    var phase: Phase
    var sendSeq: nat
    var recvSeq: nat
    var seenSeqs: set<nat>
    var maxSeenSeq: int
    var recvCount: nat
    var sendKey: Secret
    var recvKey: Secret

    function Value(): Session
      reads this
    {
      Session(config, id, localId, remoteId, createdAt, phase, sendSeq, recvSeq, seenSeqs, maxSeenSeq,
              recvCount, sendKey, recvKey)
    }

    constructor (id: Text, localId: Text, remoteId: Text, shared: Secret, isInitiator: bool,
                 config: Config, now: real, aead: Aead)
      ensures Value() == NewSession(id, localId, remoteId, shared, isInitiator, config, now)
      ensures this.aead == aead
    {
      this.config, this.id, this.localId, this.remoteId := config, id, localId, remoteId;
      this.createdAt, this.aead := now, aead;
      phase := Pending;
      sendSeq, recvSeq, seenSeqs, maxSeenSeq, recvCount := 0, 0, {}, -1, 0;
      sendKey := DirectionKey(shared, config, isInitiator);
      recvKey := DirectionKey(shared, config, !isInitiator);
    }

    method Activate() returns (r: Result<(), SessionError>)
      modifies this`phase
      ensures r.Ok? <==> old(phase) == Pending
      ensures phase == if r.Ok? then Active else old(phase)
    {
      if phase != Pending {
        return Err(CannotActivate);
      }
      phase := Active;
      return Ok(());
    }

    method EvaluateExpiry(now: real)
      modifies this`phase
      ensures Value() == old(Value()).Tick(now)
      ensures phase == if old(phase) == Active && (now - createdAt > config.maxLifetime as real
                           || sendSeq + (if config.ordered then recvSeq else recvCount) >= config.maxMessages)
                       then Expired else old(phase)
    {
      if phase != Active {
        return;
      }
      var elapsed := now - createdAt;
      if elapsed > config.maxLifetime as real {
        phase := Expired;
        return;
      }
      var recv := if config.ordered then recvSeq else recvCount;
      var total := sendSeq + recv;
      if total >= config.maxMessages {
        phase := Expired;
      }
    }

    method CheckActive(now: real) returns (refusal: Option<SessionError>)
      modifies this`phase
      ensures Value() == old(Value()).Tick(now) && refusal == Value().Refusal()
      ensures refusal.None? <==> phase == Active
      ensures (phase == Expired ==> refusal == Some(SessionExpired)) && (phase == Revoked ==> refusal == Some(SessionRevoked))
      ensures phase == Pending ==> refusal == Some(NotActive)
    {
      EvaluateExpiry(now);
      if phase == Expired {
        return Some(SessionExpired);
      }
      if phase == Revoked {
        return Some(SessionRevoked);
      }
      if phase != Active {
        return Some(NotActive);
      }
      return None;
    }

    /** The locked section that opens encrypt. */
    method AllocateNumber(now: real) returns (r: Result<nat, SessionError>)
      modifies this`phase, this`sendSeq
      ensures (Value(), r) == old(Value()).Allocate(now)
    {
      var refusal := CheckActive(now);
      if refusal.Some? {
        return Err(refusal.value);
      }
      var n := sendSeq;
      sendSeq := sendSeq + 1;
      return Ok(n);
    }

    /** What follows outside the lock: seal under the key held by now, then evaluate expiry. */
    method SealNumbered(n: nat, plaintext: ByteString, nonce: ByteString, later: real) returns (p: Payload)
      modifies this`phase
      ensures Value() == old(Value()).Tick(later)
      ensures p == Payload(Some(id), Seq(n), Hex(aead.seal(sendKey, nonce, Numbered(id, n), plaintext)), Hex(nonce))
    {
      var ciphertext := aead.seal(sendKey, nonce, Numbered(id, n), plaintext);
      EvaluateExpiry(later);
      return Payload(Some(id), Seq(n), Hex(ciphertext), Hex(nonce));
    }

    /** Both parts, with no other thread in between. */
    method Encrypt(plaintext: ByteString, nonce: ByteString, now: real, later: real)
      returns (r: Result<Payload, SessionError>)
      modifies this
      ensures (Value(), r) == old(Value()).Encrypt(now, later, plaintext, nonce, aead)
    {
      var n := AllocateNumber(now);
      if n.Err? {
        return Err(n.error);
      }
      var p := SealNumbered(n.value, plaintext, nonce, later);
      return Ok(p);
    }

    /** The window branch up to the decryption: remember, count, raise the maximum, prune. */
    method Remember(n: nat)
      requires !config.ordered && n !in seenSeqs && Value().Sound()
      modifies this`seenSeqs, this`maxSeenSeq, this`recvCount
      ensures Value() == old(Value()).Accept(n)
    {
      seenSeqs := seenSeqs + {n};
      recvCount := recvCount + 1;
      if n > maxSeenSeq {
        maxSeenSeq := n;
      }
      if |seenSeqs| > WINDOW_SIZE * 2 {
        var newFloor := maxSeenSeq - WINDOW_SIZE + 1;
        seenSeqs := set m | m in seenSeqs && m >= newFloor;
      }
    }

    /** The check of decrypt before the ciphertext is touched, and the mark it leaves. */
    method Admit(n: nat) returns (passed: bool)
      requires Value().Sound()
      modifies this`recvSeq, this`seenSeqs, this`maxSeenSeq, this`recvCount
      ensures passed <==> old(Value()).Passes(n)
      ensures Value() == if passed then old(Value()).Accept(n) else old(Value())
    {
      if config.ordered {
        if n < recvSeq {
          return false;
        }
        if n > recvSeq {
          return false;
        }
        recvSeq := recvSeq + 1;
      } else {
        var windowFloor := if maxSeenSeq - WINDOW_SIZE + 1 > 0 then maxSeenSeq - WINDOW_SIZE + 1 else 0;
        if n in seenSeqs {
          return false;
        }
        if maxSeenSeq >= 0 && n < windowFloor {
          return false;
        }
        Remember(n);
      }
      return true;
    }

    /** The except branch: forget the number, discount it, recompute the maximum. */
    method RollBack(n: nat, ghost before: Session)
      requires before.Sound() && before.Passes(n) && Value() == before.Accept(n)
      modifies this`recvSeq, this`seenSeqs, this`maxSeenSeq, this`recvCount
      ensures Value() == before.Undo(n)
    {
      if config.ordered {
        if recvSeq == n + 1 {
          recvSeq := n;
        }
      } else {
        AcceptThenForget(before, n);
        seenSeqs := seenSeqs - {n};
        if recvCount > 0 {
          recvCount := recvCount - 1;
        }
        if n == maxSeenSeq {
          maxSeenSeq := MaxOf(seenSeqs);
        }
      }
    }

    method Decrypt(p: Payload, now: real, later: real) returns (r: Result<ByteString, SessionError>)
      requires Value().Sound()
      modifies this
      ensures (Value(), r) == old(Value()).Decrypt(now, later, p, aead)
      ensures Value().Sound()
    {
      if p.sessionId != Some(id) {
        return Err(Malformed);
      }
      if p.ciphertext.NoHex? || p.nonce.NoHex? || p.seqNo.NoSeq? {
        return Err(Malformed);
      }
      if !p.seqNo.Seq? || p.seqNo.n < 0 {
        return Err(Malformed);
      }
      if !p.ciphertext.Hex? || !p.nonce.Hex? {
        return Err(Malformed);
      }
      var n: nat := p.seqNo.n;
      var refusal := CheckActive(now);
      if refusal.Some? {
        return Err(refusal.value);
      }
      ghost var before := Value();
      var passed := Admit(n);
      if !passed {
        return Err(Reordered);
      }
      var plain := aead.open(recvKey, p.nonce.bytes, Numbered(id, n), p.ciphertext.bytes);
      if plain.None? {
        RollBack(n, before);
        UndoSound(before, n);
        return Err(DecryptFailed);
      }
      AcceptSound(before, n);
      EvaluateExpiry(later);
      return Ok(plain.value);
    }

    method Revoke()
      modifies this
      ensures Value() == old(Value()).Revoke()
      ensures phase == Revoked && sendKey == recvKey == Zeroed
    {
      phase := Revoked;
      sendKey := Zeroed;
      recvKey := Zeroed;
    }

    method IsActive(now: real) returns (active: bool)
      modifies this`phase
      ensures Value() == old(Value()).Tick(now)
      ensures active <==> phase == Active
    {
      EvaluateExpiry(now);
      active := phase == Active;
    }

    method RemainingMessages(now: real) returns (n: int)
      modifies this`phase
      ensures Value() == old(Value()).Tick(now)
      ensures phase != Active ==> n == 0
      ensures phase == Active ==> n > 0 && n + Value().Total() == config.maxMessages
    {
      EvaluateExpiry(now);
      if phase != Active {
        return 0;
      }
      var recv := if config.ordered then recvSeq else recvCount;
      var total := sendSeq + recv;
      return if config.maxMessages - total > 0 then config.maxMessages - total else 0;
    }
  }

  // ------------------------------------------------------------------ what a step keeps

  lemma AcceptSound(s: Session, n: nat)
    requires s.Sound() && s.Passes(n)
    ensures s.Accept(n).Sound()
  {
    var a := s.Accept(n);
    if !s.config.ordered {
      assert a.maxSeen in a.seen && forall x | x in a.seen :: x <= a.maxSeen;
      assert MaxOf(a.seen) == a.maxSeen;
      if |s.seen + {n}| > MAX_REMEMBERED {
        RangeBound(a.seen, a.maxSeen - WINDOW_SIZE + 1, a.maxSeen + 1);
      }
    }
  }

  /** Marking first and rolling back afterwards ends in the closed form Undo. */
  lemma AcceptThenForget(s: Session, n: nat)
    requires s.Sound() && s.Passes(n) && !s.config.ordered
    ensures var a := s.Accept(n);
      var left := a.seen - {n};
      s.Undo(n) == a.(seen := left, recvCount := s.recvCount,
                      maxSeen := if n == a.maxSeen then MaxOf(left) else a.maxSeen)
  {
    var left := s.Accept(n).seen - {n};
    assert |s.seen + {n}| == |s.seen| + 1;
    if |s.seen| < MAX_REMEMBERED {
      assert left == s.seen;
    } else {
      assert left == s.Undo(n).seen;
    }
  }

  lemma UndoSound(s: Session, n: nat)
    requires s.Sound() && s.Passes(n)
    ensures s.Undo(n).Sound()
  {
    var u := s.Undo(n);
    assert u.seen <= s.seen;
    SubsetCard(u.seen, s.seen);
    if u != s && n <= s.maxSeen {
      assert s.maxSeen in u.seen;
    }
  }

  lemma SubsetCard(a: set<nat>, b: set<nat>)
    requires a <= b
    ensures |a| <= |b|
  {
    assert b == a + (b - a);
  }

  // ------------------------------------------------------------------ the life of a session

  /** Too old, by more than the lifetime. */
  predicate Outlived(s: Session, now: real) {
    now - s.createdAt > s.config.maxLifetime as real
  }

  /** A number is left of the budget for sent and accepted messages together. */
  predicate InBudget(s: Session) {
    s.sendSeq + (if s.config.ordered then s.recvSeq else s.recvCount) < s.config.maxMessages
  }

  /** An encrypt of an active session succeeds exactly within the lifetime and the budget; otherwise it has expired. */
  lemma EncryptsExactlyWhileAlive(s: Session, now: real, later: real, plaintext: ByteString, nonce: ByteString, aead: Aead)
    requires s.phase == Active
    ensures s.Encrypt(now, later, plaintext, nonce, aead).1.Ok? <==> !Outlived(s, now) && InBudget(s)
    ensures Outlived(s, now) || !InBudget(s) ==>
      s.Encrypt(now, later, plaintext, nonce, aead) == (s.(phase := Expired), Err(SessionExpired))
  {}

  /** A decrypt past the end of the session fails the same way, whatever it is given; within it, passing and opening decide. */
  lemma DecryptsExactlyWhileAlive(s: Session, now: real, later: real, p: Payload, aead: Aead)
    requires s.phase == Active && p.WellFormed(s.id)
    ensures Outlived(s, now) || !InBudget(s) ==> s.Decrypt(now, later, p, aead) == (s.(phase := Expired), Err(SessionExpired))
    ensures !Outlived(s, now) && InBudget(s) ==>
      var n: nat := p.seqNo.n;
      var plain := aead.open(s.recvKey, p.nonce.bytes, Numbered(s.id, n), p.ciphertext.bytes);
      s.Decrypt(now, later, p, aead).1
        == if !s.Passes(n) then Err(Reordered) else if plain.None? then Err(DecryptFailed) else Ok(plain.value)
  {}

  /** A session that is not active refuses both ways, names its state and does not change. */
  lemma EndedSessionsRefuse(s: Session, now: real, later: real, plaintext: ByteString, nonce: ByteString, p: Payload, aead: Aead)
    requires s.phase != Active && p.WellFormed(s.id)
    ensures var error := if s.phase == Expired then SessionExpired else if s.phase == Revoked then SessionRevoked else NotActive;
      && s.Encrypt(now, later, plaintext, nonce, aead) == (s, Err(error))
      && s.Decrypt(now, later, p, aead) == (s, Err(error))
  {}

  /** A payload for another session, or with a missing or ill-typed field, is refused before anything else happens. */
  lemma MalformedIsRefusedFirst(s: Session, now: real, later: real, p: Payload, aead: Aead)
    requires p.sessionId != Some(s.id) || !p.seqNo.Seq? || p.seqNo.n < 0 || !p.ciphertext.Hex? || !p.nonce.Hex?
    ensures s.Decrypt(now, later, p, aead) == (s, Err(Malformed))
  {}

  /** A call that succeeds leaves the session expired at once if by then it is too old or its budget is used up. */
  lemma ExpiresAtOnce(s: Session, now: real, later: real, plaintext: ByteString, nonce: ByteString, p: Payload, aead: Aead)
    ensures var (e, r) := s.Encrypt(now, later, plaintext, nonce, aead);
      r.Ok? ==> e.phase == if Outlived(s, later) || !InBudget(e) then Expired else Active
    ensures var (d, r) := s.Decrypt(now, later, p, aead);
      r.Ok? ==> d.phase == if Outlived(s, later) || !InBudget(d) then Expired else Active
  {}
}
