/** The two-tier key store of uxsp/storage/keystore.py: a cache that may fail or forget in front of a backend. */
module KeyStoreCache {
  import opened Wrappers
  import opened Bytes
  import T = Tiered

  datatype Card = Card(entityId: Text, content: ByteString)

  datatype KeyError = Duplicate | Unavailable

  type Cards = map<Text, Card>

  datatype Stores = Stores(cache: Cards, backend: Cards)

  function Lookup(m: Cards, id: Text): Option<Card> {
    if id in m then Some(m[id]) else None
  }

  predicate Lands(a: T.Access) {
    a.Answers? || a.landed
  }

  /** A put on one store; a failing one may have taken effect. */
  function PutIn(m: Cards, card: Card, overwrite: bool, a: T.Access): (Cards, Option<KeyError>) {
    var duplicate := !overwrite && card.entityId in m;
    (if Lands(a) && !duplicate then m[card.entityId := card] else m,
     if a.Fails? then Some(Unavailable) else if duplicate then Some(Duplicate) else None)
  }

  function DeleteIn(m: Cards, id: Text, a: T.Access): (Cards, Result<bool, KeyError>) {
    (if Lands(a) then m - {id} else m, if a.Fails? then Err(Unavailable) else Ok(id in m))
  }

  /** What happens, and how each access it makes ends. */
  datatype Event =
    | Put(card: Card, overwrite: bool, backend: T.Access, write: T.Access)
    | Get(id: Text, read: T.Access, backend: T.Access, fill: T.Access)
    | Delete(id: Text, backend: T.Access, evict: T.Access)
    | Vanish(id: Text)

  function Step(s: Stores, e: Event): Stores {
    match e
    case Put(card, overwrite, backend, write) =>
      var (b, error) := PutIn(s.backend, card, overwrite, backend);
      Stores(if error.Some? then s.cache else PutIn(s.cache, card, true, write).0, b)
    case Get(id, read, backend, fill) =>
      if (read.Answers? && id in s.cache) || backend.Fails? || id !in s.backend then s
      else s.(cache := PutIn(s.cache, s.backend[id], true, fill).0)
    case Delete(id, backend, evict) =>
      var (b, deleted) := DeleteIn(s.backend, id, backend);
      Stores(if deleted.Err? then s.cache else DeleteIn(s.cache, id, evict).0, b)
    case Vanish(id) => s.(cache := s.cache - {id})
  }

  /** What a get returns or raises. */
  function Got(s: Stores, id: Text, read: T.Access, backend: T.Access): Result<Option<Card>, KeyError> {
    if read.Answers? && id in s.cache then Ok(Some(s.cache[id]))
    else if backend.Fails? then Err(Unavailable)
    else Ok(Lookup(s.backend, id))
  }

  // ------------------------------------------------------------------ the objects

  class MapKeyStore {
    var cards: Cards

    constructor ()
      ensures cards == map[]
    {
      cards := map[];
    }

    method Put(card: Card, overwrite: bool, a: T.Access) returns (r: Option<KeyError>)
      modifies this
      ensures (cards, r) == PutIn(old(cards), card, overwrite, a)
    {
      if a == T.Fails(false) {
        return Some(Unavailable);
      }
      if !overwrite && card.entityId in cards {
        return Some(if a.Fails? then Unavailable else Duplicate);
      }
      cards := cards[card.entityId := card];
      return if a.Fails? then Some(Unavailable) else None;
    }

    method Get(id: Text, a: T.Access) returns (r: Result<Option<Card>, KeyError>)
      ensures r == if a.Fails? then Err(Unavailable) else Ok(Lookup(cards, id))
    {
      if a.Fails? {
        return Err(Unavailable);
      }
      return Ok(Lookup(cards, id));
    }

    method Delete(id: Text, a: T.Access) returns (r: Result<bool, KeyError>)
      modifies this
      ensures (cards, r) == DeleteIn(old(cards), id, a)
    {
      if a == T.Fails(false) {
        return Err(Unavailable);
      }
      var present := id in cards;
      cards := cards - {id};
      return if a.Fails? then Err(Unavailable) else Ok(present);
    }
  }

  class CachingKeyStore {
    const cache: MapKeyStore
    const backend: MapKeyStore

    ghost function Value(): Stores
      reads cache, backend
    {
      Stores(cache.cards, backend.cards)
    }

    constructor (cache: MapKeyStore, backend: MapKeyStore)
      requires cache != backend
      ensures this.cache == cache && this.backend == backend
    {
      this.cache, this.backend := cache, backend;
    }

    method Put(card: Card, overwrite: bool, onBackend: T.Access, onWrite: T.Access) returns (r: Option<KeyError>)
      requires cache != backend
      modifies cache, backend
      ensures Value() == Step(old(Value()), Event.Put(card, overwrite, onBackend, onWrite))
      ensures r == PutIn(old(backend.cards), card, overwrite, onBackend).1
    {
      r := backend.Put(card, overwrite, onBackend);
      if r.Some? {
        return;
      }
      var _ := cache.Put(card, true, onWrite);
    }

    method Get(id: Text, onRead: T.Access, onBackend: T.Access, onFill: T.Access) returns (r: Result<Option<Card>, KeyError>)
      requires cache != backend
      modifies cache
      ensures Value() == Step(old(Value()), Event.Get(id, onRead, onBackend, onFill))
      ensures r == Got(old(Value()), id, onRead, onBackend)
    {
      var cached := cache.Get(id, onRead);
      if cached.Ok? && cached.value.Some? {
        return cached;
      }
      r := backend.Get(id, onBackend);
      if r.Ok? && r.value.Some? {
        var _ := cache.Put(r.value.value, true, onFill);
      }
    }

    method Delete(id: Text, onBackend: T.Access, onEvict: T.Access) returns (r: Result<bool, KeyError>)
      requires cache != backend
      modifies cache, backend
      ensures Value() == Step(old(Value()), Event.Delete(id, onBackend, onEvict))
      ensures r == DeleteIn(old(backend.cards), id, onBackend).1
    {
      r := backend.Delete(id, onBackend);
      if r.Err? {
        return;
      }
      var _ := cache.Delete(id, onEvict);
    }
  }

  // ------------------------------------------------------------------ coherence

  /** Cards are filed under their own id, and what the cache holds the backend holds too. */
  ghost predicate Coherent(s: Stores) {
    && (forall id | id in s.backend :: s.backend[id].entityId == id)
    && (forall id | id in s.cache :: Lookup(s.backend, id) == Some(s.cache[id]))
  }

  /** Coherence is exactly what a reader can tell. */
  lemma CoherentIffReadsAgree(s: Stores)
    requires forall id | id in s.backend :: s.backend[id].entityId == id
    ensures Coherent(s) <==> forall id :: Got(s, id, T.Answers, T.Answers) == Ok(Lookup(s.backend, id))
  {
    forall id | id in s.cache && Got(s, id, T.Answers, T.Answers) == Ok(Lookup(s.backend, id))
      ensures Lookup(s.backend, id) == Some(s.cache[id])
    {}
  }

  /** The backend changed under a cached entry and the cache was not brought along. */
  predicate LeavesStale(s: Stores, e: Event) {
    match e
    case Put(card, overwrite, backend, write) =>
      && Lands(backend) && (overwrite || card.entityId !in s.backend)
      && !(backend.Answers? && Lands(write))
      && card.entityId in s.cache && s.cache[card.entityId] != card
    case Delete(id, backend, evict) =>
      Lands(backend) && !(backend.Answers? && Lands(evict)) && id in s.cache
    case _ => false
  }

  /** Coherence survives a step exactly when the step leaves nothing stale. */
  lemma CoherenceExactly(s: Stores, e: Event)
    requires Coherent(s)
    ensures Coherent(Step(s, e)) <==> !LeavesStale(s, e)
  {
    var s' := Step(s, e);
    if LeavesStale(s, e) {
      var id := if e.Put? then e.card.entityId else e.id;
      assert id in s'.cache && Lookup(s'.backend, id) != Some(s'.cache[id]);
    }
  }

  /** Without overwrite an existing card is refused and nothing changes, in the backend or in the cache. */
  lemma DuplicateRefused(s: Stores, card: Card, backend: T.Access, write: T.Access)
    requires card.entityId in s.backend
    ensures Step(s, Put(card, false, backend, write)) == s
    ensures PutIn(s.backend, card, false, backend).1 == Some(if backend.Fails? then Unavailable else Duplicate)
  {}

  /** Otherwise the card is filed under its id, and nothing else changes in either store. */
  lemma PutFiles(s: Stores, card: Card, overwrite: bool)
    requires overwrite || card.entityId !in s.backend
    ensures Step(s, Put(card, overwrite, T.Answers, T.Answers))
      == Stores(s.cache[card.entityId := card], s.backend[card.entityId := card])
    ensures PutIn(s.backend, card, overwrite, T.Answers).1.None?
  {}

  /** A delete that answers says whether the card was there, and it is gone from both stores. */
  lemma DeleteRemoves(s: Stores, id: Text)
    ensures Step(s, Delete(id, T.Answers, T.Answers)) == Stores(s.cache - {id}, s.backend - {id})
    ensures DeleteIn(s.backend, id, T.Answers).1 == Ok(id in s.backend)
  {}

  /** A get that misses brings the card into the cache, so the next one is served from there. */
  lemma MissFills(s: Stores, id: Text, down: T.Access)
    requires id !in s.cache && id in s.backend && s.backend[id].entityId == id
    ensures var t := Step(s, Get(id, T.Answers, T.Answers, T.Answers));
      t.backend == s.backend && Got(t, id, T.Answers, down) == Ok(Some(s.backend[id]))
  {}

  function Run(s: Stores, events: seq<Event>): Stores
    decreases |events|
  {
    if events == [] then s else Run(Step(s, events[0]), events[1..])
  }

  /** At every moment of the run a get that is answered returns what the backend holds. */
  ghost predicate ReadsAgreeThroughout(s: Stores, events: seq<Event>)
    decreases |events|
  {
    && (forall id :: Got(s, id, T.Answers, T.Answers) == Ok(Lookup(s.backend, id)))
    && (events == [] || ReadsAgreeThroughout(Step(s, events[0]), events[1..]))
  }

  predicate NeverStale(s: Stores, events: seq<Event>)
    decreases |events|
  {
    events == [] || (!LeavesStale(s, events[0]) && NeverStale(Step(s, events[0]), events[1..]))
  }

  lemma StepKeepsFiling(s: Stores, e: Event)
    requires forall id | id in s.backend :: s.backend[id].entityId == id
    ensures forall id | id in Step(s, e).backend :: Step(s, e).backend[id].entityId == id
  {}

  /** Reads agree with the backend throughout a run if and only if no step of it leaves anything stale. */
  lemma {:induction false} ReadsAgreeExactly(s: Stores, events: seq<Event>)
    requires Coherent(s)
    ensures ReadsAgreeThroughout(s, events) <==> NeverStale(s, events)
    decreases |events|
  {
    CoherentIffReadsAgree(s);
    if events != [] {
      var s' := Step(s, events[0]);
      CoherenceExactly(s, events[0]);
      StepKeepsFiling(s, events[0]);
      CoherentIffReadsAgree(s');
      hide Step, Coherent, LeavesStale, Got;
      if LeavesStale(s, events[0]) {
        assert !ReadsAgreeThroughout(s', events[1..]);
      } else {
        ReadsAgreeExactly(s', events[1..]);
      }
    }
  }

  /**
   No backend call takes effect and still raises, and after a backend call that answers the cache
   write of put and the eviction of delete take effect. The backend may raise without effect.
   */
  predicate WritesReach(e: Event) {
    match e
    case Put(_, _, backend, write) => backend != T.Fails(true) && (backend.Answers? ==> Lands(write))
    case Delete(_, backend, evict) => backend != T.Fails(true) && (backend.Answers? ==> Lands(evict))
    case _ => true
  }

  lemma {:induction false} ReachingWritesAreNeverStale(s: Stores, events: seq<Event>)
    requires forall e | e in events :: WritesReach(e)
    ensures NeverStale(s, events)
    decreases |events|
  {
    hide Step;
    if events != [] {
      assert WritesReach(events[0]);
      ReachingWritesAreNeverStale(Step(s, events[0]), events[1..]);
    }
  }

  lemma {:induction false} AgreeAtEnd(s: Stores, events: seq<Event>, id: Text)
    requires ReadsAgreeThroughout(s, events)
    ensures Got(Run(s, events), id, T.Answers, T.Answers) == Ok(Lookup(Run(s, events).backend, id))
    decreases |events|
  {
    hide Step, Got;
    if events != [] {
      AgreeAtEnd(Step(s, events[0]), events[1..], id);
    }
  }

  /**
   Every get of such a run that returns, returns what the backend holds: whatever the cache forgot,
   whichever reads and back-fills failed, and after puts refused as duplicates or by a backend that is down.
   */
  lemma GetsSeeTheBackend(events: seq<Event>, id: Text, read: T.Access, backend: T.Access)
    requires forall e | e in events :: WritesReach(e)
    ensures var s := Run(Stores(map[], map[]), events);
      var r := Got(s, id, read, backend);
      && (r.Ok? ==> r.value == Lookup(s.backend, id))
      && (r.Err? ==> backend.Fails?)
  {
    hide Run, WritesReach, ReadsAgreeThroughout, NeverStale;
    var start := Stores(map[], map[]);
    ReachingWritesAreNeverStale(start, events);
    ReadsAgreeExactly(start, events);
    AgreeAtEnd(start, events, id);
  }

  /** One lost eviction suffices: a deleted card is still served. */
  lemma LostEvictionServesDeleted(card: Card)
    ensures var events := [Event.Put(card, true, T.Answers, T.Answers), Event.Delete(card.entityId, T.Answers, T.Fails(false))];
      var s := Run(Stores(map[], map[]), events);
      Lookup(s.backend, card.entityId) == None && Got(s, card.entityId, T.Answers, T.Answers) == Ok(Some(card))
  {
    var start := Stores(map[], map[]);
    var put, delete := Event.Put(card, true, T.Answers, T.Answers), Event.Delete(card.entityId, T.Answers, T.Fails(false));
    var s := Step(Step(start, put), delete);
    assert [put, delete][1..] == [delete] && [delete][1..] == [];
    assert Run(start, [put, delete]) == Run(Step(start, put), [delete]) == Run(s, []) == s;
  }
}
