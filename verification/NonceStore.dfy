/** The in-process nonce store of uxsp/core/nonce.py: a map from nonce to expiry, lazily pruned. */
module NonceStore {
  import opened Wrappers
  import opened Bytes

  const MAX_NONCE_STORE_SIZE: nat := 100_000
  const CALLS_PER_CLEANUP: nat := 1000

  datatype StoreError = StoreFull

  function Unexpired(entries: map<Text, real>, now: real): map<Text, real> {
    map k | k in entries && entries[k] > now :: entries[k]
  }

  function Expired(entries: map<Text, real>, now: real): set<Text> {
    set k | k in entries && entries[k] <= now
  }

  datatype Store = Store(entries: map<Text, real>, calls: nat) {
    predicate Bounded() {
      |entries| <= MAX_NONCE_STORE_SIZE
    }

    function Cleanup(now: real): Store {
      this.(entries := Unexpired(entries, now))
    }

    /** The periodic cleanup that opens every mark_used. */
    function Housekeep(now: real): Store {
      if calls + 1 >= CALLS_PER_CLEANUP then Store(Unexpired(entries, now), 0) else this.(calls := calls + 1)
    }

    function MarkUsed(nonce: Text, ttl: int, now: real): (Store, Result<bool, StoreError>) {
      var s := Housekeep(now);
      if nonce in s.entries then (s, Ok(false))
      else
        var s := if |s.entries| < MAX_NONCE_STORE_SIZE then s else s.Cleanup(now);
        if |s.entries| >= MAX_NONCE_STORE_SIZE then (s, Err(StoreFull))
        else (s.(entries := s.entries[nonce := now + ttl as real]), Ok(true))
    }

    function IsSeen(nonce: Text, now: real): (Store, bool) {
      if nonce !in entries then (this, false)
      else if now >= entries[nonce] then (this.(entries := entries - {nonce}), false)
      else (this, true)
    }
  }

  const EMPTY := Store(map[], 0)

  class MemoryNonceStore {
    var store: map<Text, real>
    var callsSinceCleanup: nat

    function Value(): Store
      reads this
    {
      Store(store, callsSinceCleanup)
    }

    constructor ()
      ensures Value() == EMPTY
    {
      store := map[];
      callsSinceCleanup := 0;
    }

    method Cleanup(now: real) returns (removed: nat)
      modifies this`store
      ensures Value() == old(Value()).Cleanup(now)
      ensures removed == |old(store)| - |store|
    {
      var expired := Expired(store, now);
      removed := |expired|;
      UnexpiredSplits(store, now);
      ghost var before, done := store, {};
      var left := expired;
      while left != {}
        invariant done + left == expired
        invariant store == before - done
        decreases |left|
      {
        var k :| k in left;
        MinusTwice(before, done, k);
        store := store - {k};
        left, done := left - {k}, done + {k};
      }
    }

    method MarkUsed(nonce: Text, ttl: int, now: real) returns (r: Result<bool, StoreError>)
      modifies this
      ensures (Value(), r) == old(Value()).MarkUsed(nonce, ttl, now)
    {
      callsSinceCleanup := callsSinceCleanup + 1;
      if callsSinceCleanup >= CALLS_PER_CLEANUP {
        var _ := Cleanup(now);
        callsSinceCleanup := 0;
      }
      if nonce in store {
        return Ok(false);
      }
      if |store| >= MAX_NONCE_STORE_SIZE {
        var _ := Cleanup(now);
        if |store| >= MAX_NONCE_STORE_SIZE {
          return Err(StoreFull);
        }
      }
      store := store[nonce := now + ttl as real];
      return Ok(true);
    }

    method IsSeen(nonce: Text, now: real) returns (seen: bool)
      modifies this`store
      ensures (Value(), seen) == old(Value()).IsSeen(nonce, now)
    {
      if nonce !in store {
        return false;
      }
      if now >= store[nonce] {
        store := store - {nonce};
        return false;
      }
      return true;
    }
  }

  // ------------------------------------------------------------------ what a step keeps

  /** A mark that is alive at least until the given instant. */
  ghost predicate Marked(s: Store, nonce: Text, until: real) {
    nonce in s.entries && s.entries[nonce] >= until
  }

  lemma UnexpiredSplits(entries: map<Text, real>, now: real)
    ensures entries - Expired(entries, now) == Unexpired(entries, now)
    ensures |Unexpired(entries, now)| == |entries| - |Expired(entries, now)|
  {
    assert entries.Keys == Unexpired(entries, now).Keys + Expired(entries, now);
  }

  lemma UnexpiredShrinks(entries: map<Text, real>, now: real)
    ensures |Unexpired(entries, now)| <= |entries|
  {
    UnexpiredSplits(entries, now);
  }

  lemma MarkUsedFacts(s: Store, nonce: Text, ttl: int, now: real)
    ensures var (s', r) := s.MarkUsed(nonce, ttl, now);
      && (s.Bounded() ==> s'.Bounded())
      && (r == Ok(true) ==> nonce in s'.entries && s'.entries[nonce] == now + ttl as real)
      && (r == Ok(true) ==> nonce !in s.entries || s.entries[nonce] <= now)
      && (forall other, until | now < until && Marked(s, other, until) :: Marked(s', other, until))
  {
    UnexpiredShrinks(s.entries, now);
    var h := s.Housekeep(now);
    if nonce !in h.entries && |h.entries| < MAX_NONCE_STORE_SIZE {
      assert h.entries[nonce := now + ttl as real].Keys == h.entries.Keys + {nonce};
    } else if nonce !in h.entries {
      UnexpiredShrinks(h.entries, now);
      var c := h.Cleanup(now);
      assert c.entries[nonce := now + ttl as real].Keys == c.entries.Keys + {nonce};
    }
  }

  lemma IsSeenFacts(s: Store, nonce: Text, now: real)
    ensures var (s', seen) := s.IsSeen(nonce, now);
      && (s.Bounded() ==> s'.Bounded())
      && (forall other, until | now < until && Marked(s, other, until) :: Marked(s', other, until))
      && (seen <==> nonce in s.entries && now < s.entries[nonce])
      && s'.calls == s.calls
      && (forall other :: other in s'.entries <==> other in s.entries && (other != nonce || seen))
      && (forall other | other in s'.entries :: s'.entries[other] == s.entries[other])
  {
    if nonce in s.entries {
      assert s.entries.Keys == (s.entries - {nonce}).Keys + {nonce};
    }
  }

  lemma CleanupFacts(s: Store, now: real)
    ensures s.Bounded() ==> s.Cleanup(now).Bounded()
    ensures forall other | other in s.Cleanup(now).entries :: s.Cleanup(now).entries[other] > now
    ensures forall other, until | now < until && Marked(s, other, until) :: Marked(s.Cleanup(now), other, until)
  {
    UnexpiredShrinks(s.entries, now);
  }

  /** Whether the nonce is there when mark_used looks: every thousandth call drops what has expired first. */
  predicate Blocks(s: Store, nonce: Text, now: real) {
    nonce in s.entries && (s.calls + 1 >= 1000 ==> s.entries[nonce] > now)
  }

  function LiveMarks(s: Store, now: real): set<Text> {
    set k | k in s.entries && s.entries[k] > now
  }

  /** Exactly when mark_used says no, fails, or takes the mark: full means 100 000 marks that have not expired. */
  lemma MarkUsedExactly(s: Store, nonce: Text, ttl: int, now: real)
    requires s.Bounded()
    ensures var r := s.MarkUsed(nonce, ttl, now).1;
      && (r == Ok(false) <==> Blocks(s, nonce, now))
      && (r == Err(StoreFull) <==> !Blocks(s, nonce, now) && |LiveMarks(s, now)| >= 100_000)
      && (r == Ok(true) <==> !Blocks(s, nonce, now) && |LiveMarks(s, now)| < 100_000)
  {
    var live := LiveMarks(s, now);
    assert live == Unexpired(s.entries, now).Keys;
    UnexpiredShrinks(s.entries, now);
    var h := s.Housekeep(now);
    assert Unexpired(h.entries, now) == Unexpired(s.entries, now);
    UnexpiredShrinks(h.entries, now);
  }

  /** Nothing appears in the store but the mark just taken, and every thousandth call leaves only live entries. */
  lemma MarkUsedKeeps(s: Store, nonce: Text, ttl: int, now: real)
    ensures var (s', r) := s.MarkUsed(nonce, ttl, now);
      && (forall other | other in s'.entries && (other != nonce || r != Ok(true)) ::
            other in s.entries && s'.entries[other] == s.entries[other])
      && s'.calls == (if s.calls + 1 >= 1000 then 0 else s.calls + 1)
      && (s.calls + 1 >= 1000 ==> forall other | other in s'.entries && (other != nonce || r != Ok(true)) :: s'.entries[other] > now)
  {}
}
