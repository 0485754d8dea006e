/** The replay guard of uxsp/core/replay.py over the in-process nonce store. */
module ReplayGuard {
  import opened Wrappers
  import opened Bytes
  import opened NonceStore

  datatype ReplayError = BadEnvelope | Stale | Future | Duplicate | StoreUnavailable

  /** The two fields the guard reads, None when absent or unusable. */
  datatype Envelope = Envelope(timestamp: Option<int>, nonce: Option<Text>) {
    predicate Usable() {
      timestamp.Some? && nonce.Some? && nonce.value != []
    }
  }

  datatype Limits = Limits(window: int, skew: int) {
    predicate Valid() {
      0 <= skew < window
    }

    /** _check_freshness_normalised; None means fresh. */
    function Freshness(ts: int, now: real): Option<ReplayError> {
      if now - ts as real > window as real then Some(Stale)
      else if ts as real > now + skew as real then Some(Future)
      else None
    }

    function Ttl(): int {
      window + skew
    }
  }

  // Freshness is read off the clock at `readAt`, the store is asked at `now`.

  function GuardCommit(s: Store, l: Limits, e: Envelope, readAt: real, now: real): (Store, Result<(), ReplayError>) {
    if !e.Usable() then (s, Err(BadEnvelope))
    else match l.Freshness(e.timestamp.value, readAt)
      case Some(err) => (s, Err(err))
      case None =>
        var (s', r) := s.MarkUsed(e.nonce.value, l.Ttl(), now);
        (s', if r.Err? then Err(StoreUnavailable) else if r.value then Ok(()) else Err(Duplicate))
  }

  function GuardPrecheck(s: Store, l: Limits, e: Envelope, readAt: real, now: real): (Store, Result<(), ReplayError>) {
    if !e.Usable() then (s, Err(BadEnvelope))
    else match l.Freshness(e.timestamp.value, readAt)
      case Some(err) => (s, Err(err))
      case None =>
        var (s', seen) := s.IsSeen(e.nonce.value, now);
        (s', if seen then Err(Duplicate) else Ok(()))
  }

  /** No older than the window, no further ahead than the skew. */
  predicate InTime(l: Limits, e: Envelope, readAt: real)
    requires e.Usable()
  {
    readAt - l.window as real <= e.timestamp.value as real <= readAt + l.skew as real
  }

  class Guard {
    const store: MemoryNonceStore
    const limits: Limits

    constructor (store: MemoryNonceStore, limits: Limits)
      ensures this.store == store && this.limits == limits
    {
      this.store, this.limits := store, limits;
    }

    method CheckFreshness(e: Envelope, now: real) returns (r: Result<(int, Text), ReplayError>)
      ensures r.Ok? <==> e.Usable() && limits.Freshness(e.timestamp.value, now).None?
      ensures r.Ok? ==> r.value == (e.timestamp.value, e.nonce.value)
      ensures r.Err? ==> r.error == if e.Usable() then limits.Freshness(e.timestamp.value, now).value else BadEnvelope
      ensures r.Ok? <==> e.Usable() && now - limits.window as real <= e.timestamp.value as real <= now + limits.skew as real
      ensures e.Usable() && e.timestamp.value as real > now + limits.skew as real && limits.Valid() ==> r == Err(Future)
      ensures e.Usable() && (e.timestamp.value as real) < now - limits.window as real ==> r == Err(Stale)
    {
      if e.timestamp.None? || e.nonce.None? || e.nonce.value == [] {
        return Err(BadEnvelope);
      }
      var age := now - e.timestamp.value as real;
      if age > limits.window as real {
        return Err(Stale);
      }
      if e.timestamp.value as real > now + limits.skew as real {
        return Err(Future);
      }
      return Ok((e.timestamp.value, e.nonce.value));
    }

    method Precheck(e: Envelope, readAt: real, now: real) returns (r: Result<(), ReplayError>)
      modifies store
      ensures (store.Value(), r) == GuardPrecheck(old(store.Value()), limits, e, readAt, now)
      ensures r.Ok? ==> e.Usable() && InTime(limits, e, readAt)
    {
      var d := CheckFreshness(e, readAt);
      if d.Err? {
        return Err(d.error);
      }
      var seen := store.IsSeen(d.value.1, now);
      if seen {
        return Err(Duplicate);
      }
      return Ok(());
    }

    method Commit(e: Envelope, readAt: real, now: real) returns (r: Result<(), ReplayError>)
      modifies store
      ensures (store.Value(), r) == GuardCommit(old(store.Value()), limits, e, readAt, now)
      ensures r.Ok? ==> e.Usable() && InTime(limits, e, readAt)
    {
      var d := CheckFreshness(e, readAt);
      if d.Err? {
        return Err(d.error);
      }
      var firstUse := store.MarkUsed(d.value.1, limits.window + limits.skew, now);
      if firstUse.Err? {
        return Err(StoreUnavailable);
      }
      if !firstUse.value {
        return Err(Duplicate);
      }
      return Ok(());
    }
  }

  // ------------------------------------------------------------------ runs

  /** Everything that can touch the store, in the order of its lock; other users included. */
  datatype Event =
    | DoCommit(e: Envelope, readAt: real, now: real)
    | DoPrecheck(e: Envelope, readAt: real, now: real)
    | DoCleanup(now: real)
    | OtherMark(nonce: Text, ttl: int, now: real)
    | OtherIsSeen(nonce: Text, now: real)

  function Step(s: Store, l: Limits, v: Event): Store {
    match v
    case DoCommit(e, readAt, now) => GuardCommit(s, l, e, readAt, now).0
    case DoPrecheck(e, readAt, now) => GuardPrecheck(s, l, e, readAt, now).0
    case DoCleanup(now) => s.Cleanup(now)
    case OtherMark(nonce, ttl, now) => s.MarkUsed(nonce, ttl, now).0
    case OtherIsSeen(nonce, now) => s.IsSeen(nonce, now).0
  }

  predicate Commits(s: Store, l: Limits, v: Event, e: Envelope) {
    v.DoCommit? && v.e == e && GuardCommit(s, l, e, v.readAt, v.now).1.Ok?
  }

  /** Is e committed somewhere in the run? */
  predicate CommittedIn(s: Store, l: Limits, events: seq<Event>, e: Envelope)
    decreases |events|
  {
    events != [] && (Commits(s, l, events[0], e) || CommittedIn(Step(s, l, events[0]), l, events[1..], e))
  }

  /** The clock never goes back; a freshness reading is at most `gap` older than the store access. */
  predicate Clocked(t: real, gap: real, events: seq<Event>)
    decreases |events|
  {
    events == [] ||
    var v := events[0];
    && t <= v.now
    && (v.DoCommit? ==> v.now - gap <= v.readAt <= v.now)
    && Clocked(v.now, gap, events[1..])
  }

  /** What a freshness verdict means. */
  lemma FreshnessMeans(l: Limits, ts: int, now: real)
    requires l.Valid()
    ensures l.Freshness(ts, now).None? <==> now - l.window as real <= ts as real <= now + l.skew as real
    ensures l.Freshness(ts, now) == Some(Stale) <==> (ts as real) < now - l.window as real
    ensures l.Freshness(ts, now) == Some(Future) <==> ts as real > now + l.skew as real
  {}

  /** A commit succeeds exactly for a usable envelope in time whose nonce does not block, if the store has room. */
  lemma CommitExactly(s: Store, l: Limits, e: Envelope, readAt: real, now: real)
    requires s.Bounded()
    ensures GuardCommit(s, l, e, readAt, now).1.Ok? <==>
      && e.timestamp.Some? && e.nonce.Some? && e.nonce.value != [] && InTime(l, e, readAt)
      && !Blocks(s, e.nonce.value, now) && |LiveMarks(s, now)| < 100_000
  {
    hide Store.MarkUsed;
    if e.Usable() {
      MarkUsedExactly(s, e.nonce.value, l.Ttl(), now);
    }
  }

  /** A precheck succeeds exactly for a usable envelope in time without a live mark. */
  lemma PrecheckExactly(s: Store, l: Limits, e: Envelope, readAt: real, now: real)
    ensures GuardPrecheck(s, l, e, readAt, now).1.Ok? <==>
      && e.timestamp.Some? && e.nonce.Some? && e.nonce.value != [] && InTime(l, e, readAt)
      && !(e.nonce.value in s.entries && s.entries[e.nonce.value] > now)
  {}

  /** What a refused commit reports, in the order of the checks. */
  lemma RefusalNames(s: Store, l: Limits, e: Envelope, readAt: real, now: real)
    requires l.Valid() && s.Bounded()
    ensures var r := GuardCommit(s, l, e, readAt, now).1;
      if !e.Usable() then r == Err(BadEnvelope)
      else if !InTime(l, e, readAt) then r == Err(if (e.timestamp.value as real) < readAt - l.window as real then Stale else Future)
      else if Blocks(s, e.nonce.value, now) then r == Err(Duplicate)
      else r == Ok(()) || r == Err(StoreUnavailable)
  {
    hide Store.MarkUsed;
    if e.Usable() {
      MarkUsedExactly(s, e.nonce.value, l.Ttl(), now);
    }
  }

  /** Over a whole run: an envelope is committed only by a call whose clock reading finds it in time. */
  lemma {:induction false} CommitsAreInTime(s: Store, l: Limits, events: seq<Event>, e: Envelope) returns (k: nat)
    requires CommittedIn(s, l, events, e)
    ensures k < |events| && events[k].DoCommit? && events[k].e == e && e.Usable() && InTime(l, e, events[k].readAt)
    decreases |events|
  {
    if Commits(s, l, events[0], e) {
      k := 0;
    } else {
      k := CommitsAreInTime(Step(s, l, events[0]), l, events[1..], e);
      k := k + 1;
    }
  }

  lemma StepKeepsMark(s: Store, l: Limits, v: Event, nonce: Text, until: real)
    requires Marked(s, nonce, until) && v.now < until
    ensures Marked(Step(s, l, v), nonce, until)
  {
    match v
    case DoCommit(e, _, now) =>
      if e.Usable() {
        MarkUsedFacts(s, e.nonce.value, l.Ttl(), now);
      }
    case DoPrecheck(e, _, now) =>
      if e.Usable() {
        IsSeenFacts(s, e.nonce.value, now);
      }
    case DoCleanup(now) => CleanupFacts(s, now);
    case OtherMark(n, ttl, now) => MarkUsedFacts(s, n, ttl, now);
    case OtherIsSeen(n, now) => IsSeenFacts(s, n, now);
  }

  /** Once the clock has passed the last instant at which e is fresh, nothing commits it. */
  lemma {:induction false} StaleForEver(s: Store, l: Limits, events: seq<Event>, e: Envelope, t: real, gap: real)
    requires e.Usable() && Clocked(t, gap, events)
    requires t > e.timestamp.value as real + l.window as real + gap
    ensures !CommittedIn(s, l, events, e)
    decreases |events|
  {
    if events != [] {
      StaleForEver(Step(s, l, events[0]), l, events[1..], e, events[0].now, gap);
    }
  }

  lemma {:induction false} MarkBlocks(s: Store, l: Limits, events: seq<Event>, e: Envelope, until: real, t: real, gap: real)
    requires e.Usable() && Marked(s, e.nonce.value, until) && Clocked(t, gap, events)
    requires until > e.timestamp.value as real + l.window as real + gap
    ensures !CommittedIn(s, l, events, e)
    decreases |events|
  {
    if events != [] {
      var v := events[0];
      if v.now < until {
        MarkUsedFacts(s, e.nonce.value, l.Ttl(), v.now);
        StepKeepsMark(s, l, v, e.nonce.value, until);
        MarkBlocks(Step(s, l, v), l, events[1..], e, until, v.now, gap);
      } else {
        StaleForEver(Step(s, l, v), l, events[1..], e, v.now, gap);
      }
    }
  }

  /**
   At most once, with any delay between the two clock readings of a commit up to `gap`: an
   envelope first committed with its timestamp more than the gap below clock + skew is never
   committed again, whatever else uses or cleans the store.
   */
  lemma AtMostOnce(s: Store, l: Limits, e: Envelope, readAt: real, now: real, gap: real, events: seq<Event>)
    requires l.Valid() && readAt <= now
    requires GuardCommit(s, l, e, readAt, now).1.Ok?
    requires e.timestamp.value as real + gap < now + l.skew as real
    requires Clocked(now, gap, events)
    ensures !CommittedIn(GuardCommit(s, l, e, readAt, now).0, l, events, e)
  {
    MarkUsedFacts(s, e.nonce.value, l.Ttl(), now);
    MarkBlocks(GuardCommit(s, l, e, readAt, now).0, l, events, e, now + l.Ttl() as real, now, gap);
  }

  /** The two calls that open an envelope a second time when its timestamp is clock + skew. */
  function SecondOpening(l: Limits, e: Envelope, now: real): seq<Event> {
    var t := now + l.Ttl() as real;
    [DoPrecheck(e, t, t), DoCommit(e, t, t)]
  }

  lemma ClosedEndsMeet(s: Store, l: Limits, e: Envelope, now: real)
    requires l.Valid() && s.Bounded()
    requires GuardCommit(s, l, e, now, now).1.Ok?
    requires e.timestamp.value as real >= now + l.skew as real
    ensures Clocked(now, 0.0, SecondOpening(l, e, now))
    ensures CommittedIn(GuardCommit(s, l, e, now, now).0, l, SecondOpening(l, e, now), e)
  {
    var t := now + l.Ttl() as real;
    var events := SecondOpening(l, e, now);
    var s1 := GuardCommit(s, l, e, now, now).0;
    var s2 := Step(s1, l, events[0]);
    MarkUsedFacts(s, e.nonce.value, l.Ttl(), now);
    ExpiredMarkDropped(s1, l, e, t);
    UnmarkedCommits(s2, l, e, t);
    assert events[1..] == [DoCommit(e, t, t)];
    assert Commits(s2, l, events[1..][0], e);
    assert CommittedIn(s2, l, events[1..], e);
  }

  /** At the instant of its expiry a mark is dropped by the peek of precheck. */
  lemma ExpiredMarkDropped(s: Store, l: Limits, e: Envelope, t: real)
    requires s.Bounded() && e.Usable() && l.Freshness(e.timestamp.value, t).None?
    requires e.nonce.value in s.entries && s.entries[e.nonce.value] == t
    ensures var s' := GuardPrecheck(s, l, e, t, t).0;
      e.nonce.value !in s'.entries && |s'.entries| < MAX_NONCE_STORE_SIZE
  {
    var left := s.entries - {e.nonce.value};
    assert s.entries.Keys == left.Keys + {e.nonce.value};
  }

  lemma UnmarkedCommits(s: Store, l: Limits, e: Envelope, t: real)
    requires |s.entries| < MAX_NONCE_STORE_SIZE
    requires e.Usable() && l.Freshness(e.timestamp.value, t).None? && e.nonce.value !in s.entries
    ensures GuardCommit(s, l, e, t, t).1.Ok?
  {
    UnexpiredShrinks(s.entries, t);
  }

  ghost predicate NeverAgain(s: Store, l: Limits, e: Envelope, t: real, gap: real) {
    forall events | Clocked(t, gap, events) :: !CommittedIn(s, l, events, e)
  }

  /** A cleanup as the mark expires, and a commit whose freshness reading was as late as the envelope allows. */
  function LateCommit(l: Limits, e: Envelope, now: real): seq<Event>
    requires e.Usable()
  {
    var t, last := now + l.Ttl() as real, e.timestamp.value as real + l.window as real;
    [DoCleanup(t), DoCommit(e, if t < last then t else last, t)]
  }

  /** Cleaning up at the expiry of a mark drops it and makes room. */
  lemma CleanupDropsMark(s: Store, nonce: Text, t: real)
    requires s.Bounded() && nonce in s.entries && s.entries[nonce] <= t
    ensures nonce !in s.Cleanup(t).entries && |s.Cleanup(t).entries| < MAX_NONCE_STORE_SIZE
  {
    UnexpiredSplits(s.entries, t);
    assert nonce in Expired(s.entries, t);
  }

  lemma GapReopens(s: Store, l: Limits, e: Envelope, readAt: real, now: real, gap: real)
    requires l.Valid() && s.Bounded() && readAt <= now && gap >= 0.0
    requires GuardCommit(s, l, e, readAt, now).1.Ok?
    requires e.timestamp.value as real + gap >= now + l.skew as real
    ensures Clocked(now, gap, LateCommit(l, e, now))
    ensures CommittedIn(GuardCommit(s, l, e, readAt, now).0, l, LateCommit(l, e, now), e)
  {
    hide Store.MarkUsed, Store.Cleanup;
    var t := now + l.Ttl() as real;
    var events := LateCommit(l, e, now);
    var s1 := GuardCommit(s, l, e, readAt, now).0;
    MarkUsedFacts(s, e.nonce.value, l.Ttl(), now);
    CleanupDropsMark(s1, e.nonce.value, t);
    var s2 := s1.Cleanup(t);
    LateReadingCommits(s2, l, e, events[1].readAt, t);
    assert events[1..] == [events[1]] && events[1..][1..] == [];
    assert t - gap <= events[1].readAt <= t;
    assert Clocked(t, gap, events[1..]);
    assert Commits(s2, l, events[1..][0], e);
    assert CommittedIn(s2, l, events[1..], e);
  }

  lemma LateReadingCommits(s: Store, l: Limits, e: Envelope, readAt: real, t: real)
    requires |s.entries| < MAX_NONCE_STORE_SIZE
    requires e.Usable() && l.Freshness(e.timestamp.value, readAt).None? && e.nonce.value !in s.entries
    ensures GuardCommit(s, l, e, readAt, t).1.Ok?
  {
    UnexpiredShrinks(s.entries, t);
  }

  /** For any gap between the two readings of a commit, at-most-once holds exactly below clock + skew less the gap. */
  lemma AtMostOnceExactly(s: Store, l: Limits, e: Envelope, readAt: real, now: real, gap: real)
    requires l.Valid() && s.Bounded() && readAt <= now && gap >= 0.0
    requires GuardCommit(s, l, e, readAt, now).1.Ok?
    ensures NeverAgain(GuardCommit(s, l, e, readAt, now).0, l, e, now, gap)
       <==> e.timestamp.value as real + gap < now + l.skew as real
  {
    var after := GuardCommit(s, l, e, readAt, now).0;
    if e.timestamp.value as real + gap < now + l.skew as real {
      forall events | Clocked(now, gap, events)
        ensures !CommittedIn(after, l, events, e)
      {
        AtMostOnce(s, l, e, readAt, now, gap, events);
      }
    } else {
      GapReopens(s, l, e, readAt, now, gap);
      var again := LateCommit(l, e, now);
      assert Clocked(now, gap, again) && CommittedIn(after, l, again, e);
    }
  }
}
