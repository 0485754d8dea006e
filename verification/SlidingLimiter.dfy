/** The sliding-window limiter of uxsp/core/rate_limit.py. */
module SlidingLimiter {
  import opened Wrappers
  import opened Bytes
  import opened Intervals

  const MAX_ENTRIES: nat := 10_000

  type Log = map<Text, seq<real>>

  function Kept(log: Log, key: Text): seq<real> {
    if key in log then log[key] else []
  }

  /** The log after _cleanup_locked: every deque pruned, empty deques dropped. */
  function Cleaned(log: Log, cutoff: real): Log {
    map k | k in log && Recent(log[k], cutoff) != [] :: Recent(log[k], cutoff)
  }

  /** The automatic cleanup at the start of check, once a minute. */
  function Housekept(log: Log, lastCleanup: real, now: real, window: real): Log {
    if now - lastCleanup > 60.0 then Cleaned(log, now - window) else log
  }

  predicate HasRoom(log: Log, key: Text) {
    key in log || |log| < MAX_ENTRIES
  }

  /** The decision of check on a log. */
  predicate Admits(log: Log, key: Text, max: nat, window: real, now: real) {
    max > 0 && HasRoom(log, key) && |Recent(Kept(log, key), now - window)| < max
  }

  /** retry_after of a refusal. */
  function RetryAfter(log: Log, key: Text, max: nat, window: real, now: real): real {
    var recent := Recent(Kept(log, key), now - window);
    if max == 0 || !HasRoom(log, key) || recent == [] then window
    else if recent[0] + window - now > 0.0 then recent[0] + window - now
    else 0.0
  }

  // ------------------------------------------------------------------ the invariant of one key

  /** The full admission log of a key. */
  ghost predicate LogOk(all: seq<real>, max: nat, window: real, clock: real) {
    Sorted(all) && Spaced(all, max, window) && forall i | 0 <= i < |all| :: all[i] <= clock
  }

  /** What is held is a suffix of the full log that lost only entries up to the cutoff. */
  ghost predicate LostOnlyOld(kept: seq<real>, all: seq<real>, cutoff: real) {
    && |kept| <= |all|
    && kept == all[|all| - |kept|..]
    && forall i | 0 <= i < |all| - |kept| :: all[i] <= cutoff
  }

  ghost predicate KeyValid(kept: seq<real>, all: seq<real>, max: nat, window: real, clock: real) {
    LogOk(all, max, window, clock) && LostOnlyOld(kept, all, clock - window)
  }

  ghost predicate LogValid(log: Log, admitted: Log, max: nat, window: real, clock: real) {
    && |log| <= MAX_ENTRIES
    && forall key :: KeyValid(Kept(log, key), Kept(admitted, key), max, window, clock)
  }

  lemma KeyOf(log: Log, admitted: Log, key: Text, max: nat, window: real, clock: real)
    requires LogValid(log, admitted, max, window, clock)
    ensures KeyValid(Kept(log, key), Kept(admitted, key), max, window, clock)
  {}

  /** What is held decides like the full log cut at the window. */
  lemma RecentAgrees(kept: seq<real>, all: seq<real>, old': real, cutoff: real)
    requires LostOnlyOld(kept, all, old') && old' <= cutoff
    ensures Recent(kept, cutoff) == Recent(all, cutoff)
  {
    var lost := all[..|all| - |kept|];
    assert all == lost + kept;
    assert forall i | 0 <= i < |lost| :: lost[i] <= cutoff;
    RecentOfSuffix(lost, kept, cutoff);
  }

  lemma RecentLosesOnlyOld(all: seq<real>, cutoff: real)
    requires Sorted(all)
    ensures LostOnlyOld(Recent(all, cutoff), all, cutoff)
  {
    RecentIsSuffix(all, cutoff);
    RecentIsAfter(all, cutoff);
  }

  lemma PruneKeepsValid(kept: seq<real>, all: seq<real>, max: nat, window: real, clock: real, now: real)
    requires KeyValid(kept, all, max, window, clock) && clock <= now
    ensures KeyValid(Recent(kept, now - window), all, max, window, now)
    ensures Recent(kept, now - window) == Recent(all, now - window)
  {
    hide LostOnlyOld;
    RecentAgrees(kept, all, clock - window, now - window);
    RecentLosesOnlyOld(all, now - window);
  }

  lemma AdmitKeepsValid(kept: seq<real>, all: seq<real>, max: nat, window: real, now: real)
    requires KeyValid(kept, all, max, window, now)
    requires |Recent(all, now - window)| < max
    ensures KeyValid(kept + [now], all + [now], max, window, now)
  {
    assert LogOk(all + [now], max, window, now) by {
      AdmitKeepsSpaced(all, max, window, now);
    }
    hide LogOk;
    var d := |all| - |kept|;
    assert (all + [now])[d..] == all[d..] + [now];
  }

  lemma LaterValid(log: Log, admitted: Log, max: nat, window: real, clock: real, now: real)
    requires LogValid(log, admitted, max, window, clock) && clock <= now
    ensures LogValid(log, admitted, max, window, now)
  {
    forall key ensures KeyValid(Kept(log, key), Kept(admitted, key), max, window, now) {
      hide Kept;
      assert KeyValid(Kept(log, key), Kept(admitted, key), max, window, clock);
    }
  }

  lemma CleanedSmaller(log: Log, cutoff: real)
    ensures |Cleaned(log, cutoff)| <= |log|
    ensures forall key | key in log && key !in Cleaned(log, cutoff) :: |Cleaned(log, cutoff)| < |log|
  {
    hide Recent;
    var gone := log.Keys - Cleaned(log, cutoff).Keys;
    assert log.Keys == Cleaned(log, cutoff).Keys + gone;
    assert forall key | key in log && key !in Cleaned(log, cutoff) :: key in gone;
  }

  function EmptyKeys(log: Log): set<Text> {
    set k | k in log && log[k] == []
  }

  ghost predicate PrunedTo(before: Log, pruned: Log, cutoff: real) {
    pruned.Keys == before.Keys && forall k | k in pruned :: pruned[k] == Recent(before[k], cutoff)
  }

  lemma DropEmpty(before: Log, pruned: Log, emptyKeys: set<Text>, cutoff: real)
    requires PrunedTo(before, pruned, cutoff) && emptyKeys == EmptyKeys(pruned)
    ensures pruned - emptyKeys == Cleaned(before, cutoff)
    ensures |emptyKeys| == |before| - |pruned - emptyKeys|
  {
    hide Recent;
    RemoveCount(pruned, emptyKeys);
    assert |pruned| == |before| by {
      assert pruned.Keys == before.Keys;
    }
    var left := pruned - emptyKeys;
    assert forall k :: k in left <==> k in pruned && pruned[k] != [];
  }

  lemma RemoveCount(log: Log, gone: set<Text>)
    requires gone <= log.Keys
    ensures |log - gone| == |log| - |gone|
  {
    assert log.Keys == (log - gone).Keys + gone;
  }

  lemma KeptOfCleaned(log: Log, key: Text, cutoff: real)
    ensures Kept(Cleaned(log, cutoff), key) == Recent(Kept(log, key), cutoff)
  {}

  lemma CleanedValid(log: Log, admitted: Log, max: nat, window: real, clock: real, now: real)
    requires LogValid(log, admitted, max, window, clock) && clock <= now
    ensures LogValid(Cleaned(log, now - window), admitted, max, window, now)
  {
    CleanedSmaller(log, now - window);
    forall key ensures KeyValid(Kept(Cleaned(log, now - window), key), Kept(admitted, key), max, window, now) {
      hide Kept, KeyValid, Cleaned, Recent;
      assert KeyValid(Kept(log, key), Kept(admitted, key), max, window, clock);
      KeptOfCleaned(log, key, now - window);
      PruneKeepsValid(Kept(log, key), Kept(admitted, key), max, window, clock, now);
    }
  }

  /** Replacing the deque and the admissions of one key. */
  lemma UpdateValid(log: Log, admitted: Log, key: Text, kept: seq<real>, all: seq<real>, max: nat, window: real, now: real)
    requires LogValid(log, admitted, max, window, now) && HasRoom(log, key)
    requires KeyValid(kept, all, max, window, now)
    ensures LogValid(log[key := kept], admitted[key := all], max, window, now)
  {
    hide KeyValid;
    assert log[key := kept].Keys == log.Keys + {key};
    var log', admitted' := log[key := kept], admitted[key := all];
    forall k ensures KeyValid(Kept(log', k), Kept(admitted', k), max, window, now) {
      assert k != key ==> KeyValid(Kept(log, k), Kept(admitted, k), max, window, now);
    }
  }

  /** Pruning the deque of one key. */
  lemma PruneOneValid(log: Log, admitted: Log, key: Text, max: nat, window: real, now: real)
    requires LogValid(log, admitted, max, window, now) && HasRoom(log, key)
    ensures LogValid(log[key := Recent(Kept(log, key), now - window)], admitted, max, window, now)
  {
    var all := Kept(admitted, key);
    assert KeyValid(Kept(log, key), all, max, window, now);
    hide KeyValid;
    PruneKeepsValid(Kept(log, key), all, max, window, now, now);
    var kept := Recent(Kept(log, key), now - window);
    hide Recent;
    UpdateValid(log, admitted, key, kept, all, max, window, now);
    var log', admitted' := log[key := kept], admitted[key := all];
    forall k ensures KeyValid(Kept(log', k), Kept(admitted, k), max, window, now) {
      assert Kept(admitted', k) == Kept(admitted, k);
      assert KeyValid(Kept(log', k), Kept(admitted', k), max, window, now);
    }
  }

  lemma KeptWithout(log: Log, key: Text, k: Text)
    ensures Kept(log - {key}, k) == if k == key then [] else Kept(log, k)
  {}

  lemma ForgetValid(log: Log, admitted: Log, key: Text, max: nat, window: real, now: real)
    requires LogValid(log, admitted, max, window, now)
    ensures LogValid(log - {key}, admitted - {key}, max, window, now)
  {
    hide KeyValid;
    assert log.Keys == (log - {key}).Keys + log.Keys * {key};
    var log', admitted' := log - {key}, admitted - {key};
    forall k ensures KeyValid(Kept(log', k), Kept(admitted', k), max, window, now) {
      hide Kept;
      KeptWithout(log, key, k);
      KeptWithout(admitted, key, k);
      assert KeyValid(Kept(log, k), Kept(admitted, k), max, window, now);
      if k == key {
        EmptyValid(max, window, now);
      }
    }
  }

  lemma EmptyValid(max: nat, window: real, now: real)
    ensures KeyValid([], [], max, window, now)
  {}

  // ------------------------------------------------------------------ the limiter

  /** Popping from the left while the head is at or before the cutoff. */
  method PopOld(ts: seq<real>, cutoff: real) returns (r: seq<real>)
    ensures r == Recent(ts, cutoff)
  {
    r := ts;
    while r != [] && r[0] <= cutoff
      invariant Recent(r, cutoff) == Recent(ts, cutoff)
      decreases |r|
    {
      r := r[1..];
    }
  }

  class SlidingRateLimiter {
    const max: nat
    const window: real
    var log: Log
    var lastCleanup: real
    /** Every admission of a key since its last reset, and the latest clock reading. */
    ghost var admitted: Log
    ghost var clock: real

    ghost predicate Valid()
      reads this
    {
      window > 0.0 && LogValid(log, admitted, max, window, clock)
    }

    constructor (max: nat, window: real, now: real)
      requires window > 0.0
      ensures Valid() && clock == lastCleanup == now
      ensures this.max == max && this.window == window && log == map[] && admitted == map[]
    {
      this.max, this.window := max, window;
      log, lastCleanup := map[], now;
      admitted, clock := map[], now;
    }

    method Check(key: Text, now: real) returns (r: Result<(), real>)
      requires Valid() && clock <= now
      modifies this
      ensures Valid() && clock == now
      ensures r.Ok? <==> Admits(old(Housekept(log, lastCleanup, now, window)), key, max, window, now)
      ensures r.Ok? ==> |Recent(old(Kept(admitted, key)), now - window)| < max
      ensures r.Err? ==> r.error == RetryAfter(old(Housekept(log, lastCleanup, now, window)), key, max, window, now)
      ensures max > 0 && (key in old(log) || |old(log)| < 10_000) && key in log ==>
        (r.Ok? <==> |Recent(old(Kept(admitted, key)), now - window)| < max)
      ensures max == 0 ==> r == Err(window)
      ensures lastCleanup == if now - old(lastCleanup) > 60.0 then now else old(lastCleanup)
      ensures log - {key} == old(Housekept(log, lastCleanup, now, window)) - {key}
      ensures admitted == if r.Ok? then old(admitted)[key := old(Kept(admitted, key)) + [now]] else old(admitted)
    {
      hide KeyValid, Recent, Cleaned;
      if now - lastCleanup > 60.0 {
        var _ := Cleanup(now);
        lastCleanup := now;
      } else {
        LaterValid(log, admitted, max, window, clock, now);
        clock := now;
      }
      if max == 0 {
        return Err(window);
      }
      if key !in log && |log| >= MAX_ENTRIES {
        return Err(window);
      }
      r := Record(key, now);
    }

    /** The rest of check: prune the key's deque, refuse or append. */
    method Record(key: Text, now: real) returns (r: Result<(), real>)
      requires Valid() && clock == now && max > 0 && HasRoom(log, key)
      modifies this`log, this`admitted
      ensures Valid()
      ensures r.Ok? <==> |Recent(old(Kept(log, key)), now - window)| < max
      ensures Recent(old(Kept(log, key)), now - window) == Recent(old(Kept(admitted, key)), now - window)
      ensures r.Err? ==> r.error == RetryAfter(old(log), key, max, window, now)
      ensures log - {key} == old(log) - {key}
      ensures admitted == if r.Ok? then old(admitted)[key := old(Kept(admitted, key)) + [now]] else old(admitted)
    {
      hide KeyValid, LogValid, Recent, Kept;
      var timestamps := PruneKey(key, now);
      if |timestamps| >= max {
        var retryAfter := timestamps[0] + window - now;
        return Err(if retryAfter > 0.0 then retryAfter else 0.0);
      }
      Append(key, timestamps, now);
      return Ok(());
    }

    method PruneKey(key: Text, now: real) returns (timestamps: seq<real>)
      requires Valid() && clock == now && HasRoom(log, key)
      modifies this`log
      ensures Valid()
      ensures timestamps == Recent(old(Kept(log, key)), now - window) == Recent(Kept(admitted, key), now - window)
      ensures log == old(log)[key := timestamps]
      ensures KeyValid(timestamps, Kept(admitted, key), max, window, now)
    {
      hide KeyValid, LogValid, Recent, Kept, HasRoom;
      ghost var all := Kept(admitted, key);
      KeyOf(log, admitted, key, max, window, now);
      PruneKeepsValid(Kept(log, key), all, max, window, now, now);
      PruneOneValid(log, admitted, key, max, window, now);
      timestamps := PopOld(Kept(log, key), now - window);
      log := log[key := timestamps];
    }

    method Append(key: Text, timestamps: seq<real>, now: real)
      requires Valid() && clock == now && HasRoom(log, key)
      requires KeyValid(timestamps, Kept(admitted, key), max, window, now)
      requires |Recent(Kept(admitted, key), now - window)| < max
      modifies this`log, this`admitted
      ensures Valid()
      ensures log == old(log)[key := timestamps + [now]]
      ensures admitted == old(admitted)[key := old(Kept(admitted, key)) + [now]]
    {
      hide KeyValid, LogValid, Recent, Kept;
      ghost var all := Kept(admitted, key);
      AdmitKeepsValid(timestamps, all, max, window, now);
      UpdateValid(log, admitted, key, timestamps + [now], all + [now], max, window, now);
      log := log[key := timestamps + [now]];
      admitted := admitted[key := all + [now]];
    }

    method Reset(key: Text)
      requires Valid()
      modifies this`log, this`admitted
      ensures Valid()
      ensures log == old(log) - {key} && admitted == old(admitted) - {key}
    {
      hide LogValid;
      ForgetValid(log, admitted, key, max, window, clock);
      log := log - {key};
      admitted := admitted - {key};
    }

    method Cleanup(now: real) returns (removed: nat)
      requires Valid() && clock <= now
      modifies this`log, this`clock
      ensures Valid() && clock == now
      ensures log == Cleaned(old(log), now - window)
      ensures removed == |old(log)| - |log|
    {
      hide LogValid, Recent, Cleaned, PrunedTo, EmptyKeys;
      CleanedValid(log, admitted, max, window, clock, now);
      ghost var before := log;
      var emptyKeys := PruneAll(now - window);
      removed := |emptyKeys|;
      DropEmpty(before, log, emptyKeys, now - window);
      log := log - emptyKeys;
      clock := now;
    }

    /** The first loop of cleanup: prune every deque in place, collect the keys left empty. */
    method PruneAll(cutoff: real) returns (emptyKeys: set<Text>)
      modifies this`log
      ensures PrunedTo(old(log), log, cutoff) && emptyKeys == EmptyKeys(log)
    {
      hide Recent;
      ghost var before := log;
      emptyKeys := {};
      var left := log.Keys;
      while left != {}
        invariant log.Keys == before.Keys && left <= log.Keys
        invariant forall k | k in left :: log[k] == before[k]
        invariant forall k | k in log && k !in left :: log[k] == Recent(before[k], cutoff)
        invariant forall k :: k in emptyKeys <==> k in log && k !in left && log[k] == []
        decreases |left|
      {
        var k :| k in left;
        var ts := PopOld(log[k], cutoff);
        log := log[k := ts];
        if ts == [] {
          emptyKeys := emptyKeys + {k};
        }
        left := left - {k};
      }
    }

    /** Counts from the right and changes nothing. */
    method Remaining(key: Text, now: real) returns (n: int)
      requires Valid() && clock <= now
      ensures n == max - |Recent(Kept(admitted, key), now - window)| >= 0
    {
      ghost var all := Kept(admitted, key);
      assert KeyValid(Kept(log, key), all, max, window, clock);
      PruneKeepsValid(Kept(log, key), all, max, window, clock, now);
      RecentAtMostMax(all, max, window, now);
      if key !in log || log[key] == [] {
        return max;
      }
      SuffixSorted(log[key], all);
      hide Valid, KeyValid;
      var recent := CountFromRight(log[key], now - window);
      return if max - recent > 0 then max - recent else 0;
    }

    /** The promise of the limiter, in every reachable state and for every interval. */
    lemma WindowBound(key: Text, start: real)
      requires Valid()
      ensures CountIn(Kept(admitted, key), start, start + window) <= max
    {
      assert KeyValid(Kept(log, key), Kept(admitted, key), max, window, clock);
      SpacedBoundsCount(Kept(admitted, key), max, window, start);
    }
  }

  lemma SuffixSorted(kept: seq<real>, all: seq<real>)
    requires Sorted(all) && |kept| <= |all| && kept == all[|all| - |kept|..]
    ensures Sorted(kept)
  {}

  method CountFromRight(timestamps: seq<real>, cutoff: real) returns (recent: nat)
    requires Sorted(timestamps)
    ensures recent == |Recent(timestamps, cutoff)|
  {
    RecentIsAfter(timestamps, cutoff);
    hide Recent, Sorted;
    recent := 0;
    while recent < |timestamps| && timestamps[|timestamps| - 1 - recent] > cutoff
      invariant recent <= |Recent(timestamps, cutoff)|
    {
      recent := recent + 1;
    }
  }

  lemma RecentAtMostMax(all: seq<real>, max: nat, window: real, now: real)
    requires LogOk(all, max, window, now)
    ensures |Recent(all, now - window)| <= max
  {
    RecentIsAfter(all, now - window);
    hide Recent;
    if max < |all| {
      assert all[|all| - 1] - all[|all| - 1 - max] >= window;
    }
  }

  /** A cleanup at any earlier moment does not change the decision for a tracked key. */
  lemma CleanupKeepsDecision(log: Log, key: Text, max: nat, window: real, cleanedAt: real, now: real)
    requires key in log && |log| <= MAX_ENTRIES && cleanedAt <= now
    ensures Admits(Cleaned(log, cleanedAt - window), key, max, window, now) <==> Admits(log, key, max, window, now)
  {
    CleanedSmaller(log, cleanedAt - window);
    KeptOfCleaned(log, key, cleanedAt - window);
    RecentTwice(log[key], cleanedAt - window, now - window);
    hide Recent, Cleaned;
  }

  lemma WindowMovesOn(all: seq<real>, max: nat, window: real, now: real, later: real)
    requires max > 0 && LogOk(all, max, window, now)
    requires |Recent(all, now - window)| >= max
    requires now <= later && Recent(all, now - window)[0] + window <= later
    ensures |Recent(all, later - window)| < max
  {
    RecentAtMostMax(all, max, window, now);
    RecentIsSuffix(all, now - window);
    RecentIsAfter(all, later - window);
    hide Recent, LogOk;
    assert all[|all| - max] <= later - window;
  }

  /**
   Waiting retry_after is enough: a key that was refused for its rate is admitted by then, whatever
   cleanups and other keys did meanwhile, unless the table has no room for it any more.
   */
  lemma RetryAfterSuffices(log: Log, admitted: Log, log': Log, admitted': Log, key: Text,
                           max: nat, window: real, now: real, clock': real, later: real)
    requires LogValid(log, admitted, max, window, now) && max > 0 && HasRoom(log, key)
    requires !Admits(log, key, max, window, now)
    requires LogValid(log', admitted', max, window, clock') && Kept(admitted', key) == Kept(admitted, key)
    requires now <= clock' <= later && now + RetryAfter(log, key, max, window, now) <= later
    ensures Admits(log', key, max, window, later) <==> HasRoom(log', key)
  {
    hide LogValid, Recent, Kept, LostOnlyOld;
    var all := Kept(admitted, key);
    KeyOf(log, admitted, key, max, window, now);
    KeyOf(log', admitted', key, max, window, clock');
    RecentAgrees(Kept(log, key), all, now - window, now - window);
    RecentAgrees(Kept(log', key), all, clock' - window, later - window);
    WindowMovesOn(all, max, window, now, later);
  }

  /** The wait of a refusal for rate is the least that helps: at any earlier moment the same log still refuses. */
  lemma RetryAfterIsLeast(log: Log, admitted: Log, key: Text, max: nat, window: real, now: real, earlier: real)
    requires LogValid(log, admitted, max, window, now) && max > 0 && HasRoom(log, key) && window > 0.0
    requires !Admits(log, key, max, window, now)
    requires now <= earlier < now + RetryAfter(log, key, max, window, now)
    ensures !Admits(log, key, max, window, earlier)
  {
    hide LogValid, KeyValid;
    KeyOf(log, admitted, key, max, window, now);
    KeptSorted(Kept(log, key), Kept(admitted, key), max, window, now);
    RecentIsAfter(Kept(log, key), now - window);
    RecentIsAfter(Kept(log, key), earlier - window);
    RecentIsSuffix(Kept(log, key), now - window);
    hide Recent, Kept;
  }

  lemma KeptSorted(kept: seq<real>, all: seq<real>, max: nat, window: real, clock: real)
    requires KeyValid(kept, all, max, window, clock)
    ensures Sorted(kept)
  {
    SuffixSorted(kept, all);
  }

  /** Without requests at all, or without room for a new key, the wait is a whole window. */
  lemma BlockedForAWindow(log: Log, key: Text, max: nat, window: real, now: real)
    requires max == 0 || (key !in log && |log| >= 10_000)
    ensures !Admits(log, key, max, window, now) && RetryAfter(log, key, max, window, now) == window
  {}

  /** A cleanup keeps exactly the keys with an admission inside the window, and of those exactly such admissions. */
  lemma CleanedExactly(log: Log, cutoff: real, key: Text)
    requires Sorted(Kept(log, key))
    ensures key in Cleaned(log, cutoff) <==> exists i :: 0 <= i < |Kept(log, key)| && Kept(log, key)[i] > cutoff
    ensures forall i | 0 <= i < |Kept(Cleaned(log, cutoff), key)| :: Kept(Cleaned(log, cutoff), key)[i] > cutoff
  {
    var ts := Kept(log, key);
    RecentIsAfter(ts, cutoff);
    RecentIsSuffix(ts, cutoff);
    KeptOfCleaned(log, key, cutoff);
    var r := Recent(ts, cutoff);
    hide Recent;
    assert r != [] ==> ts[|ts| - 1] > cutoff;
  }

  /** The automatic cleanup runs exactly when more than a minute has passed since the last one. */
  lemma HousekeptExactly(log: Log, lastCleanup: real, now: real, window: real)
    ensures Housekept(log, lastCleanup, now, window) == if now > lastCleanup + 60.0 then Cleaned(log, now - window) else log
  {}
}
