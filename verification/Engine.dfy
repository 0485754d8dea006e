/**
 Sending and receiving whole payloads, uxsp/secure/_engine.py: one envelope when the payload is small,
 otherwise an envelope around a fresh session key and chunks sealed under it, each bound to its place.
 */
module Engine {
  import opened Wrappers
  import opened Bytes
  import opened Ideal
  import opened Sorting
  import opened Envelopes
  import C = Chunks
  import Chunking
  import opened Reassembly
  import opened NonceStore
  import R = ReplayGuard
  import H = Handshake
  import BindFields

  const SINGLE_LIMIT: nat := 30 * 1024
  const CHUNK_SIZE: nat := 16 * 1024
  const KEY_SIZE: nat := 32

  /** The defaults of create_chunked_transfer. */
  const CHUNK_META := C.Meta(Ascii("binary"), None, Ascii("application/octet-stream"), None)

  datatype SealedChunk = SealedChunk(c: ByteString, n: ByteString)

  datatype Package = Package(sender: Text, receiver: Text, dataType: Text, chunked: bool,
                             envelope: Option<Envelope>, chunks: seq<SealedChunk>)

  datatype EngineError =
    | ReceiveError | TypeMismatch | DuplicateMessage | MessageExpired | InvalidSender
    | BadEnvelope | Raised(e: EnvelopeError) | BadChunk | BadTransfer(reason: C.ChunkError)

  datatype World = World(aead: Aead, chunks: C.Env)

  // ------------------------------------------------------------------ sealing chunks

  /** The key bytes, once the array holds them. */
  function SealedAt(aead: Aead, key: ByteString, envelopeNonce: Text, packed: seq<ByteString>, nonces: nat -> ByteString, i: nat)
    : SealedChunk
    requires i < |packed|
  {
    SealedChunk(aead.seal(Raw(key), nonces(i), Numbered(envelopeNonce, i), packed[i]), nonces(i))
  }

  ghost predicate AreSealed(aead: Aead, key: ByteString, envelopeNonce: Text, packed: seq<ByteString>,
                            nonces: nat -> ByteString, chunks: seq<SealedChunk>)
  {
    |chunks| == |packed| && forall i | 0 <= i < |packed| :: chunks[i] == SealedAt(aead, key, envelopeNonce, packed, nonces, i)
  }

  /** What one decrypt of the receiving loop gives. */
  function OpenedAt(aead: Aead, key: ByteString, envelopeNonce: Text, chunks: seq<SealedChunk>, i: nat): Option<ByteString>
    requires i < |chunks|
  {
    if |key| != KEY_SIZE || |chunks[i].n| != NONCE_SIZE then None
    else aead.open(Raw(key), chunks[i].n, Numbered(envelopeNonce, i), chunks[i].c)
  }

  function OpenedAll(aead: Aead, key: ByteString, envelopeNonce: Text, chunks: seq<SealedChunk>, upTo: nat): (r: Option<seq<ByteString>>)
    requires upTo <= |chunks|
    ensures r.Some? ==> |r.value| == upTo && forall i | 0 <= i < upTo :: OpenedAt(aead, key, envelopeNonce, chunks, i) == Some(r.value[i])
    ensures r.None? ==> exists i :: 0 <= i < upTo && OpenedAt(aead, key, envelopeNonce, chunks, i).None?
  {
    if upTo == 0 then Some([])
    else
      match OpenedAll(aead, key, envelopeNonce, chunks, upTo - 1)
      case None => None
      case Some(front) =>
        match OpenedAt(aead, key, envelopeNonce, chunks, upTo - 1)
        case None => None
        case Some(raw) => Some(front + [raw])
  }

  /** Overwrites the key; what the finally blocks do on every path. */
  method Zeroize(key: array<Byte>)
    modifies key
    ensures key[..] == seq(key.Length, _ => 0)
  {
    for i := 0 to key.Length
      invariant forall k | 0 <= k < i :: key[k] == 0
    {
      key[i] := 0;
    }
  }

  method SealChunks(aead: Aead, key: array<Byte>, envelopeNonce: Text, packed: seq<ByteString>, nonces: nat -> ByteString)
    returns (chunks: seq<SealedChunk>)
    ensures AreSealed(aead, key[..], envelopeNonce, packed, nonces, chunks)
  {
    chunks := [];
    for i := 0 to |packed|
      invariant |chunks| == i
      invariant forall k | 0 <= k < i :: chunks[k] == SealedAt(aead, key[..], envelopeNonce, packed, nonces, k)
    {
      var ad := Numbered(envelopeNonce, i);
      var sealed := aead.seal(Raw(key[..]), nonces(i), ad, packed[i]);
      chunks := chunks + [SealedChunk(sealed, nonces(i))];
    }
  }

  method OpenChunks(aead: Aead, key: array<Byte>, envelopeNonce: Text, chunks: seq<SealedChunk>) returns (r: Option<seq<ByteString>>)
    ensures r == OpenedAll(aead, key[..], envelopeNonce, chunks, |chunks|)
  {
    var rawChunks: seq<ByteString> := [];
    for i := 0 to |chunks|
      invariant OpenedAll(aead, key[..], envelopeNonce, chunks, i) == Some(rawChunks)
    {
      var raw := OpenedAt(aead, key[..], envelopeNonce, chunks, i);
      if raw.None? {
        OpeningFails(aead, key[..], envelopeNonce, chunks, i, |chunks|);
        return None;
      }
      rawChunks := rawChunks + [raw.value];
    }
    return Some(rawChunks);
  }

  lemma {:induction false} OpeningFails(aead: Aead, key: ByteString, envelopeNonce: Text, chunks: seq<SealedChunk>, i: nat, upTo: nat)
    requires i < upTo <= |chunks| && OpenedAt(aead, key, envelopeNonce, chunks, i).None?
    ensures OpenedAll(aead, key, envelopeNonce, chunks, upTo).None?
    decreases upTo
  {
    if i < upTo - 1 {
      OpeningFails(aead, key, envelopeNonce, chunks, i, upTo - 1);
    }
  }

  // ------------------------------------------------------------------ send and receive

  datatype SendInput = SendInput(seal: SealInput, transferId: Text, nonces: nat -> ByteString)

  /** key: the 32 random bytes, drawn only for large payloads; wiped before the call ends in any way. */
  method SendPayload(w: World, sender: Text, card: PeerCard, dataType: Text, payload: ByteString, key: array<Byte>, x: SendInput)
    returns (r: Result<Package, EngineError>)
    modifies key
    ensures |payload| > SINGLE_LIMIT ==> key[..] == seq(key.Length, _ => 0)
    ensures |payload| <= SINGLE_LIMIT ==>
      match Seal(w.aead, sender, card, payload, x.seal)
      case Err(e) => r == Err(Raised(e))
      case Ok(e) => r == Ok(Package(sender, card.identity.entityId, dataType, false, Some(e), []))
    ensures |payload| > SINGLE_LIMIT && r.Ok? ==> SentInChunks(w, sender, card, dataType, payload, old(key[..]), x, r.value)
    ensures |payload| > SINGLE_LIMIT ==> (r.Ok? <==> Sendable(w, sender, card, payload, old(key[..]), x))
  {
    hide Seal, C.ToBytes, Chunking.ChunksOf;
    if |payload| <= SINGLE_LIMIT {
      var e := Seal(w.aead, sender, card, payload, x.seal);
      return if e.Err? then Err(Raised(e.error)) else Ok(Package(sender, card.identity.entityId, dataType, false, Some(e.value), []));
    }
    var e := Seal(w.aead, sender, card, key[..], x.seal);
    if e.Err? {
      Zeroize(key);
      return Err(Raised(e.error));
    }
    SealNames(w.aead, sender, card, key[..], x.seal);
    var packed := Chunking.CreateChunkedTransfer(w.chunks, x.transferId, payload, CHUNK_SIZE, CHUNK_META);
    if packed.Err? {
      Zeroize(key);
      return Err(BadTransfer(packed.error));
    }
    var sealed := SealChunks(w.aead, key, e.value.envelopeNonce, packed.value, x.nonces);
    Zeroize(key);
    return Ok(Package(sender, card.identity.entityId, dataType, true, Some(e.value), sealed));
  }

  /** The key fits an envelope, and every chunk header its limit. */
  ghost predicate Sendable(w: World, sender: Text, card: PeerCard, payload: ByteString, key: ByteString, x: SendInput) {
    Seal(w.aead, sender, card, key, x.seal).Ok? && forall c | c in Created(w, x, payload) :: C.ToBytes(w.chunks, c).Ok?
  }

  lemma SealNames(aead: Aead, sender: Text, card: PeerCard, plaintext: ByteString, x: SealInput)
    requires Seal(aead, sender, card, plaintext, x).Ok?
    ensures Seal(aead, sender, card, plaintext, x).value.envelopeNonce == x.envelopeNonce
  {
    hide BindFields.Bind, JsonLength;
  }

  function Created(w: World, x: SendInput, payload: ByteString): seq<C.Chunk> {
    Chunking.ChunksOf(w.chunks, x.transferId, payload, CHUNK_META, CHUNK_SIZE)
  }

  /** A package around the sealed key and the sealed chunks of the payload. */
  ghost predicate SentInChunks(w: World, sender: Text, card: PeerCard, dataType: Text, payload: ByteString, key: ByteString,
                               x: SendInput, p: Package)
  {
    && p.sender == sender && p.receiver == card.identity.entityId && p.dataType == dataType
    && p.chunked && p.envelope.Some? && Seal(w.aead, sender, card, key, x.seal) == Ok(p.envelope.value)
    && exists packed :: Chunking.Packs(w.chunks, Created(w, x, payload), packed)
                     && AreSealed(w.aead, key, p.envelope.value.envelopeNonce, packed, x.nonces, p.chunks)
  }

  function Translated(e: EnvelopeError): EngineError {
    match e
    case Replay(Duplicate) => DuplicateMessage
    case Replay(Stale) => MessageExpired
    case Replay(Future) => MessageExpired
    case Invalid => InvalidSender
    case CardRevoked => InvalidSender
    case CardExpired => InvalidSender
    case _ => Raised(e)
  }

  /** The chunked branch once the session key is known. */
  function ReceiveChunks(w: World, key: ByteString, envelopeNonce: Text, chunks: seq<SealedChunk>): Result<ByteString, EngineError> {
    match OpenedAll(w.aead, key, envelopeNonce, chunks, |chunks|)
    case None => Err(BadChunk)
    case Some(raw) =>
      match Assemble(w.chunks, raw)
      case Err(e) => Err(BadTransfer(e))
      case Ok(m) => Ok(m.1)
  }

  /** Envelope.from_dict on what arrived. */
  function Parsed(w: World, e: Envelope): Result<Envelope, EngineError> {
    if e.version != VERSION || JsonLength(e) > MAX_BYTES then Err(BadEnvelope) else Ok(e)
  }

  function Receive(w: World, me: Text, card: PeerCard, expected: Option<Text>, p: Package, l: R.Limits, store: Store, t: OpenTimes)
    : (Store, Result<ByteString, EngineError>)
  {
    if p.sender != card.identity.entityId || p.receiver != me then (store, Err(ReceiveError))
    else if expected.Some? && p.dataType != expected.value then (store, Err(TypeMismatch))
    else if (p.chunked && p.chunks == []) || p.envelope.None? then (store, Err(ReceiveError))
    else match Parsed(w, p.envelope.value)
      case Err(e) => (store, Err(e))
      case Ok(e) =>
        var (store, plain) := OpenFrom(w.aead, me, card, e, l, store, t);
        if plain.Err? then (store, Err(Translated(plain.error)))
        else (store, if p.chunked then ReceiveChunks(w, plain.value, e.envelopeNonce, p.chunks) else Ok(plain.value))
  }

  /** The second half of the chunked branch; the key array is wiped on every path. */
  method ReceiveUnder(w: World, key: array<Byte>, envelopeNonce: Text, chunks: seq<SealedChunk>) returns (r: Result<ByteString, EngineError>)
    modifies key
    ensures r == ReceiveChunks(w, old(key[..]), envelopeNonce, chunks)
    ensures key[..] == seq(key.Length, _ => 0)
  {
    var raw := OpenChunks(w.aead, key, envelopeNonce, chunks);
    if raw.None? {
      Zeroize(key);
      return Err(BadChunk);
    }
    var reassembled := Reassemble(w.chunks, raw.value);
    Zeroize(key);
    return if reassembled.Err? then Err(BadTransfer(reassembled.error)) else Ok(reassembled.value.1);
  }

  method ReceivePayload(w: World, me: Text, card: PeerCard, expected: Option<Text>, p: Package, guard: R.Guard, t: OpenTimes)
    returns (r: Result<ByteString, EngineError>)
    modifies guard.store
    ensures (guard.store.Value(), r) == Receive(w, me, card, expected, p, guard.limits, old(guard.store.Value()), t)
  {
    hide OpenFrom, ReceiveChunks, JsonLength;
    if p.sender != card.identity.entityId {
      return Err(ReceiveError);
    }
    if p.receiver != me {
      return Err(ReceiveError);
    }
    if expected.Some? && p.dataType != expected.value {
      return Err(TypeMismatch);
    }
    if p.chunked && p.chunks == [] {
      return Err(ReceiveError);
    }
    if p.envelope.None? {
      return Err(ReceiveError);
    }
    var e := Parsed(w, p.envelope.value);
    if e.Err? {
      return Err(e.error);
    }
    var plain := Open(w.aead, me, card, e.value, guard, t);
    if plain.Err? {
      return Err(Translated(plain.error));
    }
    if !p.chunked {
      return Ok(plain.value);
    }
    var key := new Byte[|plain.value|](i requires 0 <= i < |plain.value| => plain.value[i]);
    assert key[..] == plain.value;
    r := ReceiveUnder(w, key, e.value.envelopeNonce, p.chunks);
  }

  // ------------------------------------------------------------------ position binding

  /** The last colon of "<id>:<n>" is the one before the number. */
  lemma NumberedDetermines(id: Text, m: int, other: Text, n: int)
    requires Numbered(id, m) == Numbered(other, n)
    ensures id == other && m == n
  {
    var s, d, e := Numbered(id, m), Decimal(m), Decimal(n);
    assert s[|id|] == COLON && s[|other|] == COLON;
    assert forall k | |id| < k < |s| :: s[k] == d[k - |id| - 1];
    assert forall k | |other| < k < |s| :: s[k] == e[k - |other| - 1];
    assert id == s[..|id|] && other == s[..|other|];
    NumberedInjective(id, m, n);
  }

  /** Ideal integrity under a fresh key: a received chunk that opens, under whatever data, is a sent one with its data. */
  ghost predicate NoneForged(aead: Aead, key: ByteString, envelopeNonce: Text, packed: seq<ByteString>, chunks: seq<SealedChunk>) {
    forall k, ad | 0 <= k < |chunks| && aead.open(Raw(key), chunks[k].n, ad, chunks[k].c).Some? ::
      SentAs(envelopeNonce, packed, ad, aead.open(Raw(key), chunks[k].n, ad, chunks[k].c).value)
  }

  ghost predicate SentAs(envelopeNonce: Text, packed: seq<ByteString>, ad: ByteString, plain: ByteString) {
    exists i :: 0 <= i < |packed| && ad == Numbered(envelopeNonce, i) && plain == packed[i]
  }

  lemma OpenedInPlace(aead: Aead, key: ByteString, envelopeNonce: Text, packed: seq<ByteString>, claimed: Text,
                      chunks: seq<SealedChunk>, i: nat)
    requires NoneForged(aead, key, envelopeNonce, packed, chunks) && i < |chunks|
    requires OpenedAt(aead, key, claimed, chunks, i).Some?
    ensures i < |packed| && OpenedAt(aead, key, claimed, chunks, i) == Some(packed[i])
  {
    hide Numbered;
    var ad := Numbered(claimed, i);
    var plain := aead.open(Raw(key), chunks[i].n, ad, chunks[i].c).value;
    assert SentAs(envelopeNonce, packed, ad, plain);
    var j :| 0 <= j < |packed| && ad == Numbered(envelopeNonce, j) && plain == packed[j];
    NumberedDetermines(claimed, i, envelopeNonce, j);
  }

  /** A proper prefix of a transfer is never complete: its chunks announce the full number. */
  lemma PrefixIsIncomplete(w: World, x: SendInput, payload: ByteString, packed: seq<ByteString>, n: nat)
    requires w.chunks.Correct() && x.transferId != [] && Chunking.Packs(w.chunks, Created(w, x, payload), packed) && n < |packed|
    ensures Assemble(w.chunks, packed[..n]).Err?
  {
    hide C.FromBytes, C.ToBytes, Chunking.Slices, C.Sound, C.Hashed;
    if n > 0 {
      var created := Created(w, x, payload);
      forall i | 0 <= i < n ensures C.FromBytes(w.chunks, packed[..n][i]) == Ok(created[..n][i]) {
        CreatedChunk(w.chunks, x.transferId, payload, CHUNK_META, CHUNK_SIZE, i);
        C.FromBytesInvertsToBytes(w.chunks, created[i]);
      }
      DecodedIs(w.chunks, packed[..n], created[..n]);
      assert created[..n][0].total == |packed|;
    }
  }

  /**
   Position binding: under the key of one send, a list of sealed chunks is accepted only if it opens,
   place by place, to the chunks that were sent, all of them; and then it yields the payload.
   */
  lemma PositionBinding(w: World, key: ByteString, envelopeNonce: Text, payload: ByteString, x: SendInput,
                        packed: seq<ByteString>, claimed: Text, chunks: seq<SealedChunk>)
    requires w.chunks.Correct() && x.transferId != [] && Chunking.Packs(w.chunks, Created(w, x, payload), packed)
    requires NoneForged(w.aead, key, envelopeNonce, packed, chunks)
    ensures ReceiveChunks(w, key, claimed, chunks).Ok? ==>
      && OpenedAll(w.aead, key, claimed, chunks, |chunks|) == Some(packed)
      && ReceiveChunks(w, key, claimed, chunks) == Ok(payload)
  {
    hide Assemble, Chunking.ChunksOf, Chunking.Packs, NoneForged, OpenedAt, Numbered;
    if ReceiveChunks(w, key, claimed, chunks).Err? {
      return;
    }
    var raw := OpenedAll(w.aead, key, claimed, chunks, |chunks|).value;
    forall i | 0 <= i < |raw| ensures i < |packed| && raw[i] == packed[i] {
      OpenedInPlace(w.aead, key, envelopeNonce, packed, claimed, chunks, i);
    }
    NoLonger(raw, packed);
    assert raw == packed[..|raw|];
    if |raw| < |packed| {
      PrefixIsIncomplete(w, x, payload, packed, |raw|);
    }
    assert raw == packed;
    RoundTrip(w.chunks, x.transferId, payload, CHUNK_META, CHUNK_SIZE, packed, packed);
  }

  lemma NoLonger(raw: seq<ByteString>, packed: seq<ByteString>)
    requires forall i | 0 <= i < |raw| :: i < |packed| && raw[i] == packed[i]
    ensures |raw| <= |packed|
  {
    if |raw| > 0 {
      var last := raw[|raw| - 1];
      assert |raw| - 1 < |packed|;
    }
  }

  /** The envelope an accepting receiver opened, when it bears the signature of this seal, yields what was sealed. */
  lemma OpenedPlaintext(aead: Aead, from: PeerCard, to: PeerCard, plaintext: ByteString, x: SealInput, e: Envelope,
                        l: R.Limits, store: Store, t: OpenTimes)
    requires from.identity.Genuine() && to.identity.Genuine()
    requires aead.Correct() && Seal(aead, from.identity.entityId, to, plaintext, x).Ok?
    requires e.sig == Seal(aead, from.identity.entityId, to, plaintext, x).value.sig
    ensures OpenFrom(aead, to.identity.entityId, from, e, l, store, t).1.Ok? ==>
      && OpenFrom(aead, to.identity.entityId, from, e, l, store, t).1 == Ok(plaintext)
      && e == Seal(aead, from.identity.entityId, to, plaintext, x).value
  {
    hide BindFields.Encoded, BindFields.AllShort, BindFields.Parse, R.GuardPrecheck, R.GuardCommit, Decimal, JsonLength;
    if OpenFrom(aead, to.identity.entityId, from, e, l, store, t).1.Err? {
      return;
    }
    EnvelopeBytesDetermine(e, Seal(aead, from.identity.entityId, to, plaintext, x).value);
  }

  /** The envelope of p is the one around the key of this chunked send. */
  ghost predicate CarriesKeyOf(w: World, from: PeerCard, to: PeerCard, key: ByteString, x: SendInput, p: Package) {
    && Seal(w.aead, from.identity.entityId, to, key, x.seal).Ok?
    && p.envelope.Some? && p.envelope.value.sig == Seal(w.aead, from.identity.entityId, to, key, x.seal).value.sig
  }

  /**
   End to end: a package that carries the signature of a chunked send and is accepted, in any state of
   the guard and at any time, delivers that send's payload, whatever became of its chunks, if and only
   if it is still marked as chunked. The mark is not signed; without it the session key is delivered.
   */
  lemma AcceptedIsWhole(w: World, from: PeerCard, to: PeerCard, payload: ByteString, key: ByteString, x: SendInput,
                        packed: seq<ByteString>, p: Package, expected: Option<Text>, l: R.Limits, store: Store, t: OpenTimes)
    requires w.aead.Correct() && w.chunks.Correct() && x.transferId != [] && from.identity.Genuine() && to.identity.Genuine()
    requires |key| == KEY_SIZE && |payload| > SINGLE_LIMIT
    requires CarriesKeyOf(w, from, to, key, x, p) && Chunking.Packs(w.chunks, Created(w, x, payload), packed)
    requires p.chunked ==> NoneForged(w.aead, key, x.seal.envelopeNonce, packed, p.chunks)
    ensures var r := Receive(w, to.identity.entityId, from, expected, p, l, store, t).1;
      r.Ok? ==>
        && (r == Ok(payload) <==> p.chunked)
        && (!p.chunked ==> r == Ok(key))
        && (p.chunked ==> OpenedAll(w.aead, key, p.envelope.value.envelopeNonce, p.chunks, |p.chunks|) == Some(packed))
  {
    hide Seal, OpenFrom, ReceiveChunks, NoneForged, Chunking.Packs, Chunking.ChunksOf, OpenedAll, JsonLength;
    if Receive(w, to.identity.entityId, from, expected, p, l, store, t).1.Err? {
      return;
    }
    var e := p.envelope.value;
    OpenedPlaintext(w.aead, from, to, key, x.seal, e, l, store, t);
    SealNames(w.aead, from.identity.entityId, to, key, x.seal);
    if p.chunked {
      PositionBinding(w, key, x.seal.envelopeNonce, payload, x, packed, e.envelopeNonce, p.chunks);
    }
  }

  /** The failing input: the package of any chunked send with its mark cleared is accepted in time, and hands up the session key. */
  lemma ClearedMarkDeliversKey(w: World, from: PeerCard, to: PeerCard, dataType: Text, payload: ByteString, key: ByteString,
                               x: SendInput, p: Package, l: R.Limits, store: Store, t: OpenTimes)
    requires w.aead.Correct() && from.identity.Genuine() && to.identity.Genuine() && from.Problem(t.cardAt).None?
    requires SentInChunks(w, from.identity.entityId, to, dataType, payload, key, x, p)
    requires p.envelope.value.envelopeNonce != []
    requires FreshThroughout(p.envelope.value, l, t) && Unused(store, p.envelope.value.envelopeNonce, t.precheck)
    ensures Receive(w, to.identity.entityId, from, Some(dataType), p.(chunked := false, chunks := []), l, store, t).1 == Ok(key)
  {
    hide Seal, OpenFrom, FreshThroughout, Unused, SealedAt, Chunking.Packs, Chunking.ChunksOf, Chunking.Slices;
    SealedParses(w, from.identity.entityId, to, key, x.seal);
    OpenInvertsSeal(w.aead, from, to, key, x.seal, l, store, t);
  }

  lemma SealedOpens(aead: Aead, key: ByteString, envelopeNonce: Text, packed: seq<ByteString>, nonces: nat -> ByteString,
                    chunks: seq<SealedChunk>)
    requires aead.Correct() && |key| == KEY_SIZE && forall i :: |nonces(i)| == NONCE_SIZE
    requires AreSealed(aead, key, envelopeNonce, packed, nonces, chunks)
    ensures OpenedAll(aead, key, envelopeNonce, chunks, |chunks|) == Some(packed)
  {
    hide Numbered;
    forall i | 0 <= i < |chunks| ensures OpenedAt(aead, key, envelopeNonce, chunks, i) == Some(packed[i]) {
      assert chunks[i] == SealedAt(aead, key, envelopeNonce, packed, nonces, i);
    }
    hide OpenedAt;
    assert OpenedAll(aead, key, envelopeNonce, chunks, |chunks|).value == packed;
  }

  /** Every send that returns is received: the unmodified package, opened for the first time and in time, gives the payload. */
  lemma SentIsReceived(w: World, from: PeerCard, to: PeerCard, dataType: Text, payload: ByteString, key: ByteString, x: SendInput,
                       p: Package, l: R.Limits, store: Store, t: OpenTimes)
    requires w.aead.Correct() && w.chunks.Correct() && x.transferId != []
    requires from.identity.Genuine() && to.identity.Genuine() && from.Problem(t.cardAt).None?
    requires |key| == KEY_SIZE && forall i :: |x.nonces(i)| == NONCE_SIZE
    requires if |payload| <= SINGLE_LIMIT then
               exists e :: Seal(w.aead, from.identity.entityId, to, payload, x.seal) == Ok(e)
                        && p == Package(from.identity.entityId, to.identity.entityId, dataType, false, Some(e), [])
             else SentInChunks(w, from.identity.entityId, to, dataType, payload, key, x, p)
    requires p.envelope.Some? && p.envelope.value.envelopeNonce != []
    requires FreshThroughout(p.envelope.value, l, t) && Unused(store, p.envelope.value.envelopeNonce, t.precheck)
    ensures Receive(w, to.identity.entityId, from, Some(dataType), p, l, store, t).1 == Ok(payload)
  {
    hide Seal, OpenFrom, OpenedAll, Assemble, FreshThroughout, Unused, SealedAt, Chunking.Packs, Chunking.ChunksOf, Chunking.Slices,
         JsonLength;
    var plaintext := if |payload| <= SINGLE_LIMIT then payload else key;
    SealedParses(w, from.identity.entityId, to, plaintext, x.seal);
    OpenInvertsSeal(w.aead, from, to, plaintext, x.seal, l, store, t);
    if |payload| > SINGLE_LIMIT {
      var packed :| Chunking.Packs(w.chunks, Created(w, x, payload), packed)
                 && AreSealed(w.aead, key, p.envelope.value.envelopeNonce, packed, x.nonces, p.chunks);
      SomeChunks(w, x, payload, packed);
      SealedOpens(w.aead, key, p.envelope.value.envelopeNonce, packed, x.nonces, p.chunks);
      RoundTrip(w.chunks, x.transferId, payload, CHUNK_META, CHUNK_SIZE, packed, packed);
    }
  }

  lemma SealedParses(w: World, sender: Text, to: PeerCard, plaintext: ByteString, x: SealInput)
    requires Seal(w.aead, sender, to, plaintext, x).Ok?
    ensures var e := Seal(w.aead, sender, to, plaintext, x).value;
      Parsed(w, e) == Ok(e)
  {
    hide BindFields.Bind, JsonLength;
    LengthIgnoresSignature(Seal(w.aead, sender, to, plaintext, x).value, Signature(sender, []));
  }

  lemma SomeChunks(w: World, x: SendInput, payload: ByteString, packed: seq<ByteString>)
    requires Chunking.Packs(w.chunks, Created(w, x, payload), packed)
    ensures packed != []
  {}

  // ------------------------------------------------------------------ which sends return

  /** The plaintext of the envelope a send seals. */
  function Enveloped(payload: ByteString, key: ByteString): ByteString {
    if |payload| <= SINGLE_LIMIT then payload else key
  }

  /** The envelope of a send can be sealed exactly when the ids leave room for its content. */
  lemma SendFitsExactly(w: World, sender: Text, card: PeerCard, payload: ByteString, key: ByteString, x: SendInput)
    requires Tagged(w.aead) && x.seal.Sized() && |key| == KEY_SIZE
    ensures Seal(w.aead, sender, card, Enveloped(payload, key), x.seal).Ok? <==>
      && Sealable(sender, card, x.seal)
      && Overhead(sender, card.identity.entityId, x.seal.now.Floor)
         + 2 * (if |payload| <= SINGLE_LIMIT then |payload| else KEY_SIZE) <= MAX_BYTES
  {
    SealReturnsExactly(w.aead, sender, card, Enveloped(payload, key), x.seal);
  }

  /**
   The limit of the single-envelope branch is too high: between parties with 36-character ids every
   payload of 28099 to 30720 bytes is refused as too large, though one of 30721 bytes can be sent.
   */
  lemma SingleLimitIsTooHigh(w: World, sender: Text, card: PeerCard, payload: ByteString, key: ByteString, x: SendInput)
    requires Tagged(w.aead) && x.seal.Sized() && |key| == KEY_SIZE && Sealable(sender, card, x.seal)
    requires |sender| == |card.identity.entityId| == 36 && Plain(sender) && Plain(card.identity.entityId)
    requires 1_000_000_000.0 <= x.seal.now < 10_000_000_000.0
    ensures 28_098 < |payload| <= 30_720 <==> Seal(w.aead, sender, card, Enveloped(payload, key), x.seal) == Err(TooLarge)
    ensures |payload| <= 28_098 || |payload| > 30_720 <==> Seal(w.aead, sender, card, Enveloped(payload, key), x.seal).Ok?
  {
    hide Seal, Overhead, Decimal, Plain, SealInput.Sized, Sealable;
    var recipient := card.identity.entityId;
    UsualOverhead(sender, recipient, x.seal.now.Floor);
    UsualIsEncodable(sender, recipient, Enveloped(payload, key), x.seal);
    SizeDecides(w.aead, sender, card, Enveloped(payload, key), x.seal);
  }

  lemma UsualIsEncodable(sender: Text, recipient: Text, plaintext: ByteString, x: SealInput)
    requires |sender| == |recipient| == 36 && |plaintext| <= SINGLE_LIMIT && 1_000_000_000.0 <= x.now < 10_000_000_000.0
    ensures Encodable(sender, recipient, plaintext, x)
  {
    hide Digits;
    TenDigits();
    DigitsAtMost(x.now.Floor, 10);
  }

  // ------------------------------------------------------------------ what is refused

  /** An accepted package is from the sender and for the receiver it names, and of the type that was asked for. */
  lemma AcceptedAsAsked(w: World, me: Text, card: PeerCard, expected: Option<Text>, p: Package, l: R.Limits, store: Store, t: OpenTimes)
    requires Receive(w, me, card, expected, p, l, store, t).1.Ok?
    ensures p.sender == card.identity.entityId && p.receiver == me && (expected.Some? ==> p.dataType == expected.value)
    ensures p.envelope.Some? && (p.chunked ==> p.chunks != [])
    ensures p.envelope.value.recipient == me && p.envelope.value.sender == card.identity.entityId
    ensures JsonLength(p.envelope.value) <= 65536
  {
    hide R.GuardPrecheck, R.GuardCommit, Verified, ReceiveChunks, JsonLength;
  }

  /** Mismatches are reported in this order, and leave the guard as it was. */
  lemma MismatchRefused(w: World, me: Text, card: PeerCard, expected: Option<Text>, p: Package, l: R.Limits, store: Store, t: OpenTimes)
    ensures p.sender != card.identity.entityId || p.receiver != me ==>
      Receive(w, me, card, expected, p, l, store, t) == (store, Err(ReceiveError))
    ensures p.sender == card.identity.entityId && p.receiver == me && expected.Some? && p.dataType != expected.value ==>
      Receive(w, me, card, expected, p, l, store, t) == (store, Err(TypeMismatch))
    ensures p.sender == card.identity.entityId && p.receiver == me && (expected.Some? ==> p.dataType == expected.value) ==>
      && (p.envelope.None? || (p.chunked && p.chunks == []) ==>
            Receive(w, me, card, expected, p, l, store, t) == (store, Err(ReceiveError)))
      && (p.envelope.Some? && (p.chunked ==> p.chunks != []) && JsonLength(p.envelope.value) > 65536 ==>
            Receive(w, me, card, expected, p, l, store, t) == (store, Err(BadEnvelope)))
  {
    hide OpenFrom, ReceiveChunks, JsonLength;
  }

  /** A key that is not 32 bytes, or a nonce that is not 12, opens nothing. */
  lemma WrongSizesOpenNothing(w: World, key: ByteString, envelopeNonce: Text, chunks: seq<SealedChunk>, i: nat)
    requires i < |chunks| && (|key| != 32 || |chunks[i].n| != 12)
    ensures ReceiveChunks(w, key, envelopeNonce, chunks) == Err(BadChunk)
  {
    OpeningFails(w.aead, key, envelopeNonce, chunks, i, |chunks|);
  }

  /** How failures of the envelope are reported: replays, times and invalid senders by their names. */
  lemma FailuresNamed(w: World, me: Text, card: PeerCard, expected: Option<Text>, p: Package, l: R.Limits, store: Store, t: OpenTimes)
    requires p.sender == card.identity.entityId && p.receiver == me && (expected.Some? ==> p.dataType == expected.value)
    requires p.envelope.Some? && (p.chunked ==> p.chunks != []) && Parsed(w, p.envelope.value).Ok?
    requires OpenFrom(w.aead, me, card, p.envelope.value, l, store, t).1.Err?
    ensures var (store', r) := Receive(w, me, card, expected, p, l, store, t);
      var e := OpenFrom(w.aead, me, card, p.envelope.value, l, store, t).1.error;
      && store' == OpenFrom(w.aead, me, card, p.envelope.value, l, store, t).0
      && (r == Err(DuplicateMessage) <==> e == Replay(R.Duplicate))
      && (r == Err(MessageExpired) <==> e == Replay(R.Stale) || e == Replay(R.Future))
      && (r == Err(InvalidSender) <==> e == Invalid || e == CardRevoked || e == CardExpired)
      && r.Err?
  {
    hide OpenFrom, ReceiveChunks, JsonLength;
  }

  /** A large payload travels in pieces of 16384 bytes. */
  lemma PiecesOf16K(w: World, sender: Text, card: PeerCard, dataType: Text, payload: ByteString, key: ByteString, x: SendInput, p: Package)
    requires SentInChunks(w, sender, card, dataType, payload, key, x, p) && |payload| > 30 * 1024
    ensures |p.chunks| == (|payload| + 16383) / 16384
  {
    hide Seal, AreSealed, Chunking.Slices;
    var packed :| Chunking.Packs(w.chunks, Created(w, x, payload), packed)
               && AreSealed(w.aead, key, p.envelope.value.envelopeNonce, packed, x.nonces, p.chunks);
    SealedCount(w.aead, key, p.envelope.value.envelopeNonce, packed, x.nonces, p.chunks);
    Chunking.SliceCountIsCeil(payload, CHUNK_SIZE);
  }

  lemma SealedCount(aead: Aead, key: ByteString, envelopeNonce: Text, packed: seq<ByteString>, nonces: nat -> ByteString, chunks: seq<SealedChunk>)
    requires AreSealed(aead, key, envelopeNonce, packed, nonces, chunks)
    ensures |chunks| == |packed|
  {}
}
