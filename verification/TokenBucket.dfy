/** The token bucket limiter of sdks/js/src/rateLimit.ts, over exact reals; times in milliseconds. */
module TokenBucket {
  import opened Wrappers
  import opened Bytes
  import opened Intervals

  function Seconds(ms: int): real {
    ms as real / 1000.0
  }

  function Min(x: real, y: real): real {
    if x <= y then x else y
  }

  // ------------------------------------------------------------------ the potential of one bucket

  /**
   From every past admission on: the tokens left plus the admissions since then are paid for by one
   full bucket and the refill since then.
   */
  ghost predicate Paid(tokens: real, last: real, times: seq<real>, capacity: real, rate: real) {
    forall i | 0 <= i < |times| :: WithinMeter(tokens + (|times| - i) as real, capacity, rate, last - times[i])
  }

  /**
   The lower side: at some moment since, the bucket was full, and what is missing by now is exactly what was
   admitted from then on less the refill.
   */
  ghost predicate FullSince(tokens: real, last: real, times: seq<real>, capacity: real, rate: real, since: real, m: nat) {
    && since <= last && m <= |times|
    && (forall i | m <= i < |times| :: times[i] >= since)
    && tokens + (|times| - m) as real == capacity + rate * (last - since)
  }

  ghost predicate WasFull(tokens: real, last: real, times: seq<real>, capacity: real, rate: real) {
    exists since, m :: FullSince(tokens, last, times, capacity, rate, since, m)
  }

  ghost predicate BucketOk(tokens: real, last: real, times: seq<real>, capacity: real, rate: real) {
    && 0.0 <= tokens <= capacity
    && Sorted(times) && (forall i | 0 <= i < |times| :: times[i] <= last)
    && Metered(times, capacity, rate)
    && Paid(tokens, last, times, capacity, rate)
    && WasFull(tokens, last, times, capacity, rate)
  }

  lemma MeterShift(amount: real, burst: real, rate: real, span: real, dt: real)
    requires WithinMeter(amount, burst, rate, span)
    ensures WithinMeter(amount + dt * rate, burst, rate, span + dt)
  {
    assert rate * (span + dt) == rate * span + dt * rate;
  }

  lemma RefillKeepsPaid(tokens: real, last: real, times: seq<real>, capacity: real, rate: real, dt: real)
    requires Paid(tokens, last, times, capacity, rate) && dt >= 0.0
    ensures Paid(Min(capacity, tokens + dt * rate), last + dt, times, capacity, rate)
  {
    forall i | 0 <= i < |times|
      ensures WithinMeter(Min(capacity, tokens + dt * rate) + (|times| - i) as real, capacity, rate, last + dt - times[i])
    {
      MeterShift(tokens + (|times| - i) as real, capacity, rate, last - times[i], dt);
      assert last - times[i] + dt == last + dt - times[i];
    }
  }

  /** The tokens of a bucket after refill. */
  function Refilled(tokens: real, lastRefill: int, now: int, capacity: real, rate: real): real {
    if now > lastRefill then Min(capacity, tokens + (Seconds(now) - Seconds(lastRefill)) * rate) else tokens
  }

  lemma RefillKeepsFull(tokens: real, lastRefill: int, now: int, times: seq<real>, capacity: real, rate: real)
    requires WasFull(tokens, Seconds(lastRefill), times, capacity, rate) && lastRefill <= now
    requires tokens <= capacity && forall i | 0 <= i < |times| :: times[i] <= Seconds(lastRefill)
    ensures WasFull(Refilled(tokens, lastRefill, now, capacity, rate), Seconds(now), times, capacity, rate)
  {
    var after := Refilled(tokens, lastRefill, now, capacity, rate);
    var last, t := Seconds(lastRefill), Seconds(now);
    var since: real, m: nat :| FullSince(tokens, last, times, capacity, rate, since, m);
    if after == capacity {
      assert rate * 0.0 == 0.0;
      assert FullSince(after, t, times, capacity, rate, t, |times|);
    } else {
      assert rate * (t - since) == rate * (last - since) + (t - last) * rate;
      assert FullSince(after, t, times, capacity, rate, since, m);
    }
  }

  lemma RefillKeeps(tokens: real, lastRefill: int, now: int, times: seq<real>, capacity: real, rate: real)
    requires BucketOk(tokens, Seconds(lastRefill), times, capacity, rate) && rate > 0.0 && lastRefill <= now
    ensures BucketOk(Refilled(tokens, lastRefill, now, capacity, rate), Seconds(now), times, capacity, rate)
  {
    RefillKeepsFull(tokens, lastRefill, now, times, capacity, rate);
    hide Paid, Metered, Sorted, WasFull;
    var dt := Seconds(now) - Seconds(lastRefill);
    ProductPositive(dt, rate);
    RefillKeepsPaid(tokens, Seconds(lastRefill), times, capacity, rate, dt);
    assert Seconds(lastRefill) + dt == Seconds(now);
  }

  lemma SpendKeepsPaid(tokens: real, last: real, times: seq<real>, capacity: real, rate: real)
    requires Paid(tokens, last, times, capacity, rate) && 1.0 <= tokens <= capacity
    ensures Paid(tokens - 1.0, last, times + [last], capacity, rate)
    ensures Metered(times, capacity, rate) ==> Metered(times + [last], capacity, rate)
  {
    var all := times + [last];
    forall i | 0 <= i < |all|
      ensures WithinMeter(tokens - 1.0 + (|all| - i) as real, capacity, rate, last - all[i])
    {
      if i < |times| {
        assert all[i] == times[i];
        assert tokens - 1.0 + (|all| - i) as real == tokens + (|times| - i) as real;
      } else {
        assert rate * 0.0 == 0.0;
      }
    }
    if Metered(times, capacity, rate) {
      forall i, j | 0 <= i <= j < |all| ensures WithinMeter((j - i + 1) as real, capacity, rate, all[j] - all[i]) {
        if j < |times| {
          assert all[i] == times[i] && all[j] == times[j];
        } else {
          assert WithinMeter(tokens - 1.0 + (|all| - i) as real, capacity, rate, last - all[i]);
        }
      }
    }
  }

  lemma SpendKeepsFull(tokens: real, last: real, times: seq<real>, capacity: real, rate: real)
    requires WasFull(tokens, last, times, capacity, rate)
    ensures WasFull(tokens - 1.0, last, times + [last], capacity, rate)
  {
    var since: real, m: nat :| FullSince(tokens, last, times, capacity, rate, since, m);
    var all := times + [last];
    assert (|all| - m) as real == (|times| - m) as real + 1.0;
    assert FullSince(tokens - 1.0, last, all, capacity, rate, since, m);
  }

  /** Taking one token for an admission at the moment of the last refill. */
  lemma SpendKeeps(tokens: real, last: real, times: seq<real>, capacity: real, rate: real)
    requires BucketOk(tokens, last, times, capacity, rate) && tokens >= 1.0
    ensures BucketOk(tokens - 1.0, last, times + [last], capacity, rate)
  {
    SpendKeepsFull(tokens, last, times, capacity, rate);
    hide Paid, Metered, Sorted, WasFull;
    SpendKeepsPaid(tokens, last, times, capacity, rate);
    AppendSorted(times, last);
  }

  // ------------------------------------------------------------------ the limiter

  class Bucket {
    var tokens: real
    var lastRefill: int

    constructor (tokens: real, lastRefill: int)
      ensures this.tokens == tokens && this.lastRefill == lastRefill
    {
      this.tokens, this.lastRefill := tokens, lastRefill;
    }
  }

  class RateLimiter {
    const capacity: real
    const refillRatePerSec: real
    var buckets: map<Text, Bucket>
    /** Every admission of a key since its last reset, in seconds. */
    ghost var admitted: map<Text, seq<real>>

    ghost function TimesOf(key: Text): seq<real>
      reads this
    {
      if key in admitted then admitted[key] else []
    }

    ghost predicate Valid()
      reads this, buckets.Values
    {
      && capacity > 0.0 && refillRatePerSec > 0.0
      && (forall k, l | k in buckets && l in buckets && k != l :: buckets[k] != buckets[l])
      && (forall k | k !in buckets :: TimesOf(k) == [])
      && (forall k | k in buckets ::
            BucketOk(buckets[k].tokens, Seconds(buckets[k].lastRefill), TimesOf(k), capacity, refillRatePerSec))
    }

    /** The clock has not gone back since this bucket was last used. */
    ghost predicate NotBefore(key: Text, now: int)
      reads this, buckets.Values
    {
      key in buckets ==> buckets[key].lastRefill <= now
    }

    constructor (capacity: real, refillRatePerSec: real)
      requires capacity > 0.0 && refillRatePerSec > 0.0
      ensures Valid() && buckets == map[] && admitted == map[]
      ensures this.capacity == capacity && this.refillRatePerSec == refillRatePerSec
    {
      this.capacity, this.refillRatePerSec := capacity, refillRatePerSec;
      buckets := map[];
      admitted := map[];
    }

    method Refill(bucket: Bucket, now: int)
      modifies bucket
      ensures bucket.tokens == Refilled(old(bucket.tokens), old(bucket.lastRefill), now, capacity, refillRatePerSec)
      ensures bucket.lastRefill == if now > old(bucket.lastRefill) then now else old(bucket.lastRefill)
      ensures now > old(bucket.lastRefill) ==>
        bucket.tokens == Min(capacity, old(bucket.tokens) + (now - old(bucket.lastRefill)) as real / 1000.0 * refillRatePerSec)
    {
      var elapsed := (now - bucket.lastRefill) as real / 1000.0;
      if elapsed > 0.0 {
        assert elapsed == Seconds(now) - Seconds(bucket.lastRefill);
        bucket.tokens := Min(capacity, bucket.tokens + elapsed * refillRatePerSec);
        bucket.lastRefill := now;
      }
    }

    /** Tokens of a key right before the decision at this moment. */
    function TokensAt(key: Text, now: int): real
      reads this, buckets.Values
    {
      if key !in buckets then capacity
      else Refilled(buckets[key].tokens, buckets[key].lastRefill, now, capacity, refillRatePerSec)
    }

    method IsAllowed(key: Text, now: int) returns (allowed: bool)
      requires Valid() && NotBefore(key, now)
      modifies this, buckets.Values
      ensures Valid() && fresh(buckets.Values - old(buckets.Values))
      ensures allowed <==> old(TokensAt(key, now)) >= 1.0
      ensures key in old(buckets) ==>
        var elapsed := (now - old(buckets[key].lastRefill)) as real / 1000.0;
        allowed <==> capacity >= 1.0 && old(buckets[key].tokens) + elapsed * refillRatePerSec >= 1.0
      ensures key !in old(buckets) ==> (allowed <==> capacity >= 1.0)
      ensures buckets.Keys == old(buckets.Keys) + {key} && buckets[key].lastRefill == now
      ensures buckets[key].tokens == old(TokensAt(key, now)) - (if allowed then 1.0 else 0.0)
      ensures forall k | k in old(buckets) && k != key ::
        buckets[k] == old(buckets[k]) && buckets[k].tokens == old(buckets[k].tokens) && buckets[k].lastRefill == old(buckets[k].lastRefill)
      ensures admitted == if allowed then old(admitted)[key := old(TimesOf(key)) + [Seconds(now)]] else old(admitted)
    {
      hide BucketOk, Refilled;
      if key in buckets {
        RefilledReachesOne(buckets[key].tokens, buckets[key].lastRefill, now, TimesOf(key), capacity, refillRatePerSec);
      }
      if key !in buckets {
        FullBucketOk(Seconds(now), capacity, refillRatePerSec);
        RefilledAtOnce(now, capacity, refillRatePerSec);
        var bucket := new Bucket(capacity, now);
        buckets := buckets[key := bucket];
      }
      allowed := Take(key, now);
    }

    /** The rest of isAllowed, for a key that has a bucket. */
    method Take(key: Text, now: int) returns (allowed: bool)
      requires Valid() && key in buckets && buckets[key].lastRefill <= now
      modifies this`admitted, buckets[key]
      ensures Valid()
      ensures allowed <==> old(TokensAt(key, now)) >= 1.0
      ensures buckets[key].lastRefill == now
      ensures buckets[key].tokens == old(TokensAt(key, now)) - (if allowed then 1.0 else 0.0)
      ensures admitted == if allowed then old(admitted)[key := old(TimesOf(key)) + [Seconds(now)]] else old(admitted)
    {
      hide BucketOk, Refilled;
      ghost var times := TimesOf(key);
      var bucket := buckets[key];
      RefillKeeps(bucket.tokens, bucket.lastRefill, now, times, capacity, refillRatePerSec);
      Refill(bucket, now);
      if bucket.tokens >= 1.0 {
        SpendKeeps(bucket.tokens, Seconds(now), times, capacity, refillRatePerSec);
        bucket.tokens := bucket.tokens - 1.0;
        admitted := admitted[key := times + [Seconds(now)]];
        return true;
      }
      return false;
    }

    method Reset(key: Option<Text>)
      requires Valid()
      modifies this`buckets, this`admitted
      ensures Valid()
      ensures key.None? ==> buckets == map[] && admitted == map[]
      ensures key.Some? ==> buckets == old(buckets) - {key.value} && admitted == old(admitted) - {key.value}
    {
      hide BucketOk;
      if key.Some? {
        buckets := buckets - {key.value};
        admitted := admitted - {key.value};
      } else {
        buckets := map[];
        admitted := map[];
      }
    }

    /** In every reachable state, any interval admits at most a full bucket plus its refill. */
    lemma IntervalBound(key: Text, start: real, end: real)
      requires Valid() && start <= end
      ensures CountIn(TimesOf(key), start, end) as real <= capacity + refillRatePerSec * (end - start)
      ensures key in buckets ==> 0.0 <= buckets[key].tokens <= capacity
    {
      MeteredBoundsCount(TimesOf(key), capacity, refillRatePerSec, start, end);
    }

    /**
     The lower side: what a key has left is the full burst of some earlier moment, plus the refill since, less
     the admissions since. So a refusal means that more than capacity - 1 + rate * time were admitted since then.
     */
    lemma RefusedOnlyWhenSpent(key: Text, now: int) returns (since: real, m: nat)
      requires Valid() && NotBefore(key, now) && TokensAt(key, now) < 1.0 && capacity >= 1.0
      ensures key in buckets && since <= Seconds(now) && m <= |TimesOf(key)|
      ensures forall i | m <= i < |TimesOf(key)| :: since <= TimesOf(key)[i] <= Seconds(now)
      ensures (|TimesOf(key)| - m) as real > capacity - 1.0 + refillRatePerSec * (Seconds(now) - since)
    {
      hide Refilled, Paid, Metered;
      var b := buckets[key];
      RefillKeeps(b.tokens, b.lastRefill, now, TimesOf(key), capacity, refillRatePerSec);
      var tokens := TokensAt(key, now);
      since, m :| FullSince(tokens, Seconds(now), TimesOf(key), capacity, refillRatePerSec, since, m);
    }

    /** A key left alone for capacity / refillRate seconds has its full burst back. */
    lemma IdleKeyIsFull(key: Text, now: int)
      requires Valid() && key in buckets && (now - buckets[key].lastRefill) as real / 1000.0 * refillRatePerSec >= capacity
      ensures TokensAt(key, now) == capacity
    {
      hide Paid, Metered, Sorted, WasFull;
      var b := buckets[key];
      assert BucketOk(b.tokens, Seconds(b.lastRefill), TimesOf(key), capacity, refillRatePerSec);
      assert (now - b.lastRefill) as real / 1000.0 == Seconds(now) - Seconds(b.lastRefill);
      if now <= b.lastRefill {
        ProductPositive((b.lastRefill - now) as real / 1000.0, refillRatePerSec);
      }
    }
  }

  lemma RefilledAtOnce(now: int, capacity: real, rate: real)
    ensures Refilled(capacity, now, now, capacity, rate) == capacity
  {}

  lemma FullBucketOk(last: real, capacity: real, rate: real)
    requires capacity > 0.0
    ensures BucketOk(capacity, last, [], capacity, rate)
  {
    assert rate * 0.0 == 0.0;
    assert FullSince(capacity, last, [], capacity, rate, last, 0);
  }

  lemma RefilledReachesOne(tokens: real, lastRefill: int, now: int, times: seq<real>, capacity: real, rate: real)
    requires BucketOk(tokens, Seconds(lastRefill), times, capacity, rate) && lastRefill <= now
    ensures Refilled(tokens, lastRefill, now, capacity, rate) >= 1.0 <==>
      capacity >= 1.0 && tokens + (now - lastRefill) as real / 1000.0 * rate >= 1.0
  {
    hide Paid, Metered, Sorted, WasFull;
    assert (now - lastRefill) as real / 1000.0 == Seconds(now) - Seconds(lastRefill);
  }
}
