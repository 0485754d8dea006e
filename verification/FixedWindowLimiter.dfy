/** The fixed-window limiter of uxsp/core/rate_limit.py. */
module FixedWindowLimiter {
  import opened Wrappers
  import opened Bytes
  import opened Intervals

  const MAX_ENTRIES: nat := 100_000

  /** Requests counted in the current window of a key, and when that window started. */
  datatype Counter = Counter(count: nat, start: real)

  type Table = map<Text, Counter>

  /** The table after _cleanup_locked: counters of finished windows are dropped. */
  function Cleaned(table: Table, window: real, now: real): Table {
    map k | k in table && now - table[k].start < window :: table[k]
  }

  function Housekept(table: Table, lastCleanup: real, window: real, now: real): Table {
    if now - lastCleanup > 60.0 then Cleaned(table, window, now) else table
  }

  predicate HasRoom(table: Table, key: Text) {
    key in table || |table| < MAX_ENTRIES
  }

  /** The counter of a key after an admission, or retry_after. */
  function Decide(table: Table, key: Text, max: nat, window: real, now: real): Result<Counter, real> {
    if max == 0 || !HasRoom(table, key) then Err(window)
    else if key !in table || now - table[key].start >= window then Ok(Counter(1, now))
    else if table[key].count >= max then Err(window - (now - table[key].start))
    else Ok(Counter(table[key].count + 1, table[key].start))
  }

  /** When a request is admitted: fewer than max so far in the window that is running, if one is. */
  lemma DecidesExactly(table: Table, key: Text, max: nat, window: real, now: real)
    ensures Decide(table, key, max, window, now).Ok? <==>
      && max > 0 && (key in table || |table| < 100_000)
      && (key in table && now < table[key].start + window ==> table[key].count < max)
  {}

  /** What an admission records: one more in the running window, or the first of a window that starts now. */
  lemma AdmissionCounts(table: Table, key: Text, max: nat, window: real, now: real)
    requires Decide(table, key, max, window, now).Ok?
    ensures Decide(table, key, max, window, now).value ==
      if key in table && now < table[key].start + window then Counter(table[key].count + 1, table[key].start) else Counter(1, now)
  {}

  /** The wait of a refusal for rate is exact: the same table admits the key from then on and not before. */
  lemma WaitIsExact(table: Table, key: Text, max: nat, window: real, now: real, later: real)
    requires max > 0 && key in table && table[key].start <= now <= later
    requires Decide(table, key, max, window, now).Err?
    ensures Decide(table, key, max, window, later).Ok? <==> later >= now + Decide(table, key, max, window, now).error
  {}

  lemma BlockedForAWindow(table: Table, key: Text, max: nat, window: real, now: real)
    requires max == 0 || (key !in table && |table| >= 100_000)
    ensures Decide(table, key, max, window, now) == Err(window)
  {}

  /** The automatic cleanup runs exactly when more than a minute has passed since the last one. */
  lemma HousekeptExactly(table: Table, lastCleanup: real, window: real, now: real)
    ensures Housekept(table, lastCleanup, window, now) == if now > lastCleanup + 60.0 then Cleaned(table, window, now) else table
  {}

  /** A cleanup keeps exactly the counters whose window is still running. */
  lemma CleanedExactly(table: Table, window: real, now: real, key: Text)
    ensures key in Cleaned(table, window, now) <==> key in table && now < table[key].start + window
    ensures key in Cleaned(table, window, now) ==> Cleaned(table, window, now)[key] == table[key]
  {}

  // ------------------------------------------------------------------ the history of one key

  /** Every admission of a key since its last reset, the window each fell in, the window starts. */
  datatype History = History(times: seq<real>, windows: seq<nat>, starts: seq<real>)

  const NOTHING := History([], [], [])

  ghost predicate StartsApart(starts: seq<real>, window: real) {
    forall w, v | 0 <= w < v < |starts| :: starts[v] >= starts[w] + window
  }

  /** Every admission lies inside its window, windows in order. */
  ghost predicate Placed(h: History, window: real) {
    && |h.times| == |h.windows|
    && (forall i | 0 <= i < |h.windows| :: h.windows[i] < |h.starts|)
    && (forall i | 0 <= i < |h.windows| :: h.starts[h.windows[i]] <= h.times[i] < h.starts[h.windows[i]] + window)
    && (forall i, j | 0 <= i <= j < |h.windows| :: h.windows[i] <= h.windows[j])
  }

  /** No window holds more than max admissions. */
  ghost predicate AtMost(windows: seq<nat>, max: nat) {
    forall i, j | 0 <= i && i + max <= j < |windows| :: windows[i] < windows[j]
  }

  /** If admission i is the first of its window it opened it. */
  ghost predicate OpensAt(h: History, i: nat)
    requires |h.times| == |h.windows| && i < |h.windows| && h.windows[i] < |h.starts|
  {
    i == 0 || h.windows[i - 1] < h.windows[i] ==> h.times[i] == h.starts[h.windows[i]]
  }

  ghost predicate Opened(h: History)
    requires |h.times| == |h.windows| && forall i | 0 <= i < |h.windows| :: h.windows[i] < |h.starts|
  {
    forall i | 0 <= i < |h.windows| :: OpensAt(h, i)
  }

  ghost predicate Grouped(h: History, max: nat, window: real) {
    Placed(h, window) && AtMost(h.windows, max) && Opened(h)
  }

  ghost predicate HistoryOk(h: History, max: nat, window: real, clock: real) {
    && window > 0.0
    && Sorted(h.times) && (forall i | 0 <= i < |h.times| :: h.times[i] <= clock)
    && StartsApart(h.starts, window)
    && Grouped(h, max, window)
  }

  /** The counter is that of the newest window; a missing counter means that window is over. */
  ghost predicate Counts(counter: Option<Counter>, h: History, max: nat, window: real, clock: real) {
    match counter
    case None => h.starts != [] ==> h.starts[|h.starts| - 1] + window <= clock
    case Some(c) =>
      && h.starts != [] && c.start == h.starts[|h.starts| - 1] <= clock
      && 1 <= c.count <= max && c.count <= |h.windows|
      && forall i | 0 <= i < |h.windows| :: h.windows[i] == |h.starts| - 1 <==> i >= |h.windows| - c.count
  }

  /** One more request in the newest window. */
  function Again(h: History, now: real): History
    requires h.starts != []
  {
    History(h.times + [now], h.windows + [|h.starts| - 1], h.starts)
  }

  /** The first request of a new window. */
  function Afresh(h: History, now: real): History {
    History(h.times + [now], h.windows + [|h.starts|], h.starts + [now])
  }

  lemma PlacedAppend(h: History, g: History, window: real, now: real)
    requires Placed(h, window) && h.starts <= g.starts && g.starts != []
    requires g.times == h.times + [now] && g.windows == h.windows + [|g.starts| - 1]
    requires g.starts[|g.starts| - 1] <= now < g.starts[|g.starts| - 1] + window
    ensures Placed(g, window)
  {
    assert forall i | 0 <= i < |h.windows| :: g.times[i] == h.times[i] && g.windows[i] == h.windows[i];
  }

  lemma OpenedAppend(h: History, g: History, window: real, now: real)
    requires Placed(h, window) && Placed(g, window) && Opened(h) && h.starts <= g.starts && g.starts != []
    requires g.times == h.times + [now] && g.windows == h.windows + [|g.starts| - 1]
    requires g.starts[|g.starts| - 1] == now || (h.windows != [] && h.windows[|h.windows| - 1] == |g.starts| - 1)
    ensures Opened(g)
  {
    forall i | 0 <= i < |g.windows| ensures OpensAt(g, i) {
      if i < |h.windows| {
        assert OpensAt(h, i);
        assert g.windows[i] == h.windows[i] && g.times[i] == h.times[i];
        assert i > 0 ==> g.windows[i - 1] == h.windows[i - 1];
      }
    }
  }

  lemma AtMostAppend(windows: seq<nat>, max: nat, w: nat)
    requires AtMost(windows, max) && max > 0
    requires forall i | 0 <= i && i + max <= |windows| :: windows[i] < w
    ensures AtMost(windows + [w], max)
  {
    var all := windows + [w];
    assert forall i | 0 <= i < |windows| :: all[i] == windows[i];
  }

  lemma GroupedAgain(h: History, c: Counter, max: nat, window: real, clock: real, now: real)
    requires Grouped(h, max, window) && Counts(Some(c), h, max, window, clock)
    requires c.count < max && c.start <= now < c.start + window
    ensures Grouped(Again(h, now), max, window)
  {
    hide Placed, Opened, AtMost;
    LastWindows(h, c, max, window, clock);
    PlacedAppend(h, Again(h, now), window, now);
    OpenedAppend(h, Again(h, now), window, now);
    AtMostAppend(h.windows, max, |h.starts| - 1);
  }

  /** Fewer than max admissions are in the newest window, and there is at least one. */
  lemma LastWindows(h: History, c: Counter, max: nat, window: real, clock: real)
    requires Placed(h, window) && Counts(Some(c), h, max, window, clock) && c.count < max
    ensures h.windows != [] && h.windows[|h.windows| - 1] == |h.starts| - 1
    ensures forall i | 0 <= i && i + max <= |h.windows| :: h.windows[i] < |h.starts| - 1
  {}

  lemma CountsAgain(h: History, c: Counter, max: nat, window: real, clock: real, now: real)
    requires Counts(Some(c), h, max, window, clock)
    requires c.count < max && c.start <= now
    ensures Counts(Some(Counter(c.count + 1, c.start)), Again(h, now), max, window, now)
  {}

  lemma GroupedAfresh(h: History, max: nat, window: real, now: real)
    requires Grouped(h, max, window) && max > 0 && window > 0.0
    ensures Grouped(Afresh(h, now), max, window)
  {
    hide Opened, AtMost;
    PlacedAppend(h, Afresh(h, now), window, now);
    OpenedAppend(h, Afresh(h, now), window, now);
    AtMostAppend(h.windows, max, |h.starts|);
  }

  lemma CountsAfresh(h: History, max: nat, window: real, now: real)
    requires Grouped(h, max, window) && max > 0
    ensures Counts(Some(Counter(1, now)), Afresh(h, now), max, window, now)
  {
    var g := Afresh(h, now);
    assert forall i | 0 <= i < |h.times| :: g.windows[i] == h.windows[i];
  }

  lemma StartsApartAfresh(starts: seq<real>, window: real, now: real)
    requires StartsApart(starts, window) && window > 0.0
    requires starts != [] ==> starts[|starts| - 1] + window <= now
    ensures StartsApart(starts + [now], window)
  {}

  lemma AdmitKeepsHistory(counter: Option<Counter>, h: History, max: nat, window: real, clock: real, now: real)
    requires HistoryOk(h, max, window, clock) && Counts(counter, h, max, window, clock) && clock <= now
    requires max > 0
    ensures counter.None? || now - counter.value.start >= window ==>
              HistoryOk(Afresh(h, now), max, window, now) && Counts(Some(Counter(1, now)), Afresh(h, now), max, window, now)
    ensures counter.Some? && now - counter.value.start < window && counter.value.count < max ==>
              HistoryOk(Again(h, now), max, window, now)
              && Counts(Some(Counter(counter.value.count + 1, counter.value.start)), Again(h, now), max, window, now)
  {
    hide Grouped, StartsApart, Sorted;
    AppendSorted(h.times, now);
    if counter.None? || now - counter.value.start >= window {
      GroupedAfresh(h, max, window, now);
      CountsAfresh(h, max, window, now);
      StartsApartAfresh(h.starts, window, now);
    } else if counter.value.count < max {
      GroupedAgain(h, counter.value, max, window, clock, now);
      CountsAgain(h, counter.value, max, window, clock, now);
    }
  }

  /** An interval of one window's length meets two windows at most, and misses the opening of the first. */
  lemma HistorySpaced(h: History, max: nat, window: real, clock: real)
    requires HistoryOk(h, max, window, clock) && max > 0
    ensures Spaced(h.times, 2 * max - 1, window)
  {
    forall i, j | 0 <= i && i + (2 * max - 1) <= j < |h.times| ensures h.times[j] - h.times[i] >= window {
      WindowsBetween(h, max, window, i, j);
    }
  }

  lemma PlacedAt(h: History, window: real, i: nat)
    requires Placed(h, window) && i < |h.times|
    ensures |h.windows| == |h.times| && h.windows[i] < |h.starts|
    ensures h.starts[h.windows[i]] <= h.times[i] < h.starts[h.windows[i]] + window
  {}

  lemma ApartAt(starts: seq<real>, window: real, w: nat, v: nat)
    requires StartsApart(starts, window) && w < v < |starts|
    ensures starts[v] >= starts[w] + window
  {}

  lemma WindowsOrdered(h: History, window: real, i: nat, j: nat)
    requires Placed(h, window) && i <= j < |h.times|
    ensures |h.windows| == |h.times| && h.windows[i] <= h.windows[j]
  {}

  lemma OpenedAt(h: History, window: real, i: nat)
    requires Placed(h, window) && Opened(h) && i < |h.times|
    ensures |h.windows| == |h.times| && h.windows[i] < |h.starts|
    ensures i == 0 || h.windows[i - 1] < h.windows[i] ==> h.times[i] == h.starts[h.windows[i]]
  {
    assert OpensAt(h, i);
  }

  lemma WindowsBetween(h: History, max: nat, window: real, i: nat, j: nat)
    requires Grouped(h, max, window) && StartsApart(h.starts, window) && max > 0 && window > 0.0
    requires i + (2 * max - 1) <= j < |h.times|
    ensures h.times[j] - h.times[i] >= window
  {
    hide Placed, Opened, AtMost, StartsApart;
    var k := i + max - 1;
    PlacedAt(h, window, i);
    PlacedAt(h, window, j);
    PlacedAt(h, window, k);
    WindowsOrdered(h, window, i, k);
    AtMostAt(h.windows, max, k, j);
    var first, middle, last := h.windows[i], h.windows[k], h.windows[j];
    if first < middle {
      ApartAt(h.starts, window, first, middle);
      ApartAt(h.starts, window, middle, last);
    } else {
      if i > 0 {
        AtMostAt(h.windows, max, i - 1, k);
      }
      OpenedAt(h, window, i);
      ApartAt(h.starts, window, first, last);
    }
  }

  // ------------------------------------------------------------------ the whole table

  type Histories = map<Text, History>

  function HistoryOf(histories: Histories, key: Text): History {
    if key in histories then histories[key] else NOTHING
  }

  function CounterOf(table: Table, key: Text): Option<Counter> {
    if key in table then Some(table[key]) else None
  }

  ghost predicate KeyValid(counter: Option<Counter>, h: History, max: nat, window: real, clock: real) {
    HistoryOk(h, max, window, clock) && Counts(counter, h, max, window, clock)
  }

  ghost predicate TableValid(table: Table, histories: Histories, max: nat, window: real, clock: real) {
    && |table| <= MAX_ENTRIES
    && forall key :: KeyValid(CounterOf(table, key), HistoryOf(histories, key), max, window, clock)
  }

  lemma KeyOf(table: Table, histories: Histories, key: Text, max: nat, window: real, clock: real)
    requires TableValid(table, histories, max, window, clock)
    ensures KeyValid(CounterOf(table, key), HistoryOf(histories, key), max, window, clock)
  {}

  lemma KeyLater(counter: Option<Counter>, h: History, max: nat, window: real, clock: real, now: real)
    requires KeyValid(counter, h, max, window, clock) && clock <= now
    ensures KeyValid(counter, h, max, window, now)
    ensures counter.Some? && now - counter.value.start >= window ==> KeyValid(None, h, max, window, now)
  {
    hide Grouped, StartsApart, Sorted;
  }

  lemma LaterValid(table: Table, histories: Histories, max: nat, window: real, clock: real, now: real)
    requires TableValid(table, histories, max, window, clock) && clock <= now
    ensures TableValid(table, histories, max, window, now)
  {
    hide KeyValid;
    forall key ensures KeyValid(CounterOf(table, key), HistoryOf(histories, key), max, window, now) {
      KeyLater(CounterOf(table, key), HistoryOf(histories, key), max, window, clock, now);
    }
  }

  lemma CleanedSmaller(table: Table, window: real, now: real)
    ensures |Cleaned(table, window, now)| <= |table|
  {
    var c := Cleaned(table, window, now);
    assert table.Keys == c.Keys + (table.Keys - c.Keys);
  }

  lemma CleanedValid(table: Table, histories: Histories, max: nat, window: real, clock: real, now: real)
    requires TableValid(table, histories, max, window, clock) && clock <= now
    ensures TableValid(Cleaned(table, window, now), histories, max, window, now)
  {
    hide KeyValid;
    CleanedSmaller(table, window, now);
    var c := Cleaned(table, window, now);
    forall key ensures KeyValid(CounterOf(c, key), HistoryOf(histories, key), max, window, now) {
      KeyLater(CounterOf(table, key), HistoryOf(histories, key), max, window, clock, now);
    }
  }

  /** Replacing counter and history of one key. */
  lemma UpdateValid(table: Table, histories: Histories, key: Text, c: Counter, h: History, max: nat, window: real, now: real)
    requires TableValid(table, histories, max, window, now) && HasRoom(table, key)
    requires KeyValid(Some(c), h, max, window, now)
    ensures TableValid(table[key := c], histories[key := h], max, window, now)
  {
    hide KeyValid;
    var table', histories' := table[key := c], histories[key := h];
    assert table'.Keys == table.Keys + {key};
    forall k ensures KeyValid(CounterOf(table', k), HistoryOf(histories', k), max, window, now) {
      if k != key {
        assert CounterOf(table', k) == CounterOf(table, k) && HistoryOf(histories', k) == HistoryOf(histories, k);
        KeyOf(table, histories, k, max, window, now);
      }
    }
  }

  lemma ForgetValid(table: Table, histories: Histories, key: Text, max: nat, window: real, now: real)
    requires TableValid(table, histories, max, window, now) && window > 0.0
    ensures TableValid(table - {key}, histories - {key}, max, window, now)
  {
    hide KeyValid;
    var table', histories' := table - {key}, histories - {key};
    assert |table'| <= |table| by {
      assert table.Keys == table'.Keys + table.Keys * {key};
    }
    forall k ensures KeyValid(CounterOf(table', k), HistoryOf(histories', k), max, window, now) {
      if k == key {
        EmptyValid(max, window, now);
      } else {
        KeyOf(table, histories, k, max, window, now);
      }
    }
  }

  lemma EmptyValid(max: nat, window: real, now: real)
    requires window > 0.0
    ensures KeyValid(None, NOTHING, max, window, now)
  {}

  /** The history of a key after a decision to admit. */
  function Extended(h: History, before: Option<Counter>, window: real, now: real): History {
    if before.None? || now - before.value.start >= window || h.starts == [] then Afresh(h, now) else Again(h, now)
  }

  /** Recording an admission keeps the invariant of the whole table. */
  lemma AdmitKeepsTable(table: Table, histories: Histories, key: Text, max: nat, window: real, now: real)
    requires TableValid(table, histories, max, window, now)
    requires Decide(table, key, max, window, now).Ok?
    ensures var h := Extended(HistoryOf(histories, key), CounterOf(table, key), window, now);
      TableValid(table[key := Decide(table, key, max, window, now).value], histories[key := h], max, window, now)
  {
    hide TableValid, HistoryOk, Afresh, Again;
    var h := HistoryOf(histories, key);
    KeyOf(table, histories, key, max, window, now);
    AdmitKeepsHistory(CounterOf(table, key), h, max, window, now, now);
    UpdateValid(table, histories, key, Decide(table, key, max, window, now).value,
                Extended(h, CounterOf(table, key), window, now), max, window, now);
  }

  // ------------------------------------------------------------------ the limiter

  class RateLimiter {
    const max: nat
    const window: real
    var counters: Table
    var lastCleanup: real
    /** The history of every key since its last reset, and the latest clock reading. */
    ghost var histories: Histories
    ghost var clock: real

    ghost predicate Valid()
      reads this
    {
      window > 0.0 && TableValid(counters, histories, max, window, clock)
    }

    constructor (max: nat, window: real, now: real)
      requires window > 0.0
      ensures Valid() && clock == lastCleanup == now
      ensures this.max == max && this.window == window && counters == map[] && histories == map[]
    {
      this.max, this.window := max, window;
      counters, lastCleanup := map[], now;
      histories, clock := map[], now;
    }

    method Check(key: Text, now: real) returns (r: Result<(), real>)
      requires Valid() && clock <= now
      modifies this
      ensures Valid() && clock == now
      ensures lastCleanup == if now - old(lastCleanup) > 60.0 then now else old(lastCleanup)
      ensures var tidy := old(Housekept(counters, lastCleanup, window, now));
        match Decide(tidy, key, max, window, now)
        case Ok(c) =>
          && r == Ok(()) && counters == tidy[key := c]
          && histories == old(histories)[key := Extended(old(HistoryOf(histories, key)), CounterOf(tidy, key), window, now)]
        case Err(wait) => r == Err(wait) && counters == tidy && histories == old(histories)
    {
      hide TableValid, Extended, Cleaned;
      if now - lastCleanup > 60.0 {
        var _ := Cleanup(now);
        lastCleanup := now;
      } else {
        LaterValid(counters, histories, max, window, clock, now);
        clock := now;
      }
      if max == 0 {
        return Err(window);
      }
      if key !in counters && |counters| >= MAX_ENTRIES {
        return Err(window);
      }
      var next;
      if key in counters {
        var Counter(count, windowStart) := counters[key];
        var windowAge := now - windowStart;
        if windowAge < window {
          if count >= max {
            return Err(window - windowAge);
          }
          next := Counter(count + 1, windowStart);
        } else {
          next := Counter(1, now);
        }
      } else {
        next := Counter(1, now);
      }
      AdmitKeepsTable(counters, histories, key, max, window, now);
      histories := histories[key := Extended(HistoryOf(histories, key), CounterOf(counters, key), window, now)];
      counters := counters[key := next];
      return Ok(());
    }

    method Reset(key: Text)
      requires Valid()
      modifies this`counters, this`histories
      ensures Valid() && counters == old(counters) - {key} && histories == old(histories) - {key}
    {
      hide TableValid;
      ForgetValid(counters, histories, key, max, window, clock);
      counters := counters - {key};
      histories := histories - {key};
    }

    method Cleanup(now: real) returns (removed: nat)
      requires Valid() && clock <= now
      modifies this`counters, this`clock
      ensures Valid() && clock == now
      ensures counters == Cleaned(old(counters), window, now)
      ensures removed == |old(counters)| - |counters|
    {
      hide TableValid, Cleaned, Finished;
      CleanedValid(counters, histories, max, window, clock, now);
      CleanedRemoves(counters, window, now);
      var expired := Finished(counters, window, now);
      removed := |expired|;
      counters := RemoveKeys(counters, expired);
      clock := now;
    }

    method Remaining(key: Text, now: real) returns (n: int)
      requires Valid() && clock <= now
      ensures n == if key in counters && now - counters[key].start < window then max - counters[key].count else max
      ensures 0 <= n <= max
      ensures max > 0 && HasRoom(counters, key) ==> (n > 0 <==> Decide(counters, key, max, window, now).Ok?)
    {
      hide TableValid, HistoryOk;
      KeyOf(counters, histories, key, max, window, clock);
      if key !in counters {
        return max;
      }
      var Counter(count, windowStart) := counters[key];
      if now - windowStart >= window {
        return max;
      }
      return if max - count > 0 then max - count else 0;
    }

    /**
     In every reachable state, any interval of one window's length holds fewer than twice the
     limit, windows start at least their length apart, and the table keeps its capacity.
     */
    lemma WindowBound(key: Text, start: real)
      requires Valid()
      ensures CountIn(HistoryOf(histories, key).times, start, start + window) <= if max == 0 then 0 else 2 * max - 1
      ensures StartsApart(HistoryOf(histories, key).starts, window)
      ensures |counters| <= MAX_ENTRIES
    {
      hide CountIn, Counts, Placed, Opened, AtMost;
      var h := HistoryOf(histories, key);
      KeyOf(counters, histories, key, max, window, clock);
      if max == 0 {
        NoneAdmitted(h, window);
      } else {
        HistorySpaced(h, max, window, clock);
        SpacedBoundsCount(h.times, 2 * max - 1, window, start);
      }
    }
  }

  lemma AtMostAt(windows: seq<nat>, max: nat, i: nat, j: nat)
    requires AtMost(windows, max) && i + max <= j < |windows|
    ensures windows[i] < windows[j]
  {}

  lemma NoneAdmitted(h: History, window: real)
    requires Placed(h, window) && AtMost(h.windows, 0)
    ensures h.times == [] && forall lo, hi :: CountIn(h.times, lo, hi) == 0
  {
    hide AtMost;
    if h.windows != [] {
      AtMostAt(h.windows, 0, 0, 0);
    }
  }

  function Finished(table: Table, window: real, now: real): set<Text> {
    set k | k in table && now - table[k].start >= window
  }

  lemma CleanedRemoves(table: Table, window: real, now: real)
    ensures table - Finished(table, window, now) == Cleaned(table, window, now)
    ensures |Cleaned(table, window, now)| == |table| - |Finished(table, window, now)|
  {
    var c := Cleaned(table, window, now);
    assert table.Keys == c.Keys + Finished(table, window, now);
  }

  /** The deleting loop of cleanup. */
  method RemoveKeys(table: Table, gone: set<Text>) returns (left: Table)
    ensures left == table - gone
  {
    left := table;
    var todo := gone;
    ghost var done := {};
    while todo != {}
      invariant done + todo == gone
      invariant left == table - done
      decreases |todo|
    {
      var k :| k in todo;
      MinusTwice(table, done, k);
      left := left - {k};
      todo, done := todo - {k}, done + {k};
    }
  }

  /** A run of admissions of one key, from an empty table. */
  function Admitted(times: seq<real>, key: Text, max: nat, window: real): Option<Table>
    decreases |times|
  {
    if times == [] then Some(map[])
    else match Admitted(times[..|times| - 1], key, max, window)
      case None => None
      case Some(table) =>
        match Decide(table, key, max, window, times[|times| - 1])
        case Err(_) => None
        case Ok(c) => Some(table[key := c])
  }

  function Repeated(t: real, n: nat): (r: seq<real>)
    ensures |r| == n && forall i | 0 <= i < n :: r[i] == t
  {
    seq(n, _ => t)
  }

  /** The table with one counter. */
  function Only(key: Text, c: Counter): Table {
    map[key := c]
  }

  /** Further requests inside the running window only count up. */
  lemma {:induction false} AdmitMore(times: seq<real>, key: Text, max: nat, window: real, c: Counter, t: real, n: nat)
    requires Admitted(times, key, max, window) == Some(Only(key, c))
    requires t - c.start < window && c.count + n <= max
    ensures Admitted(times + Repeated(t, n), key, max, window) == Some(Only(key, Counter(c.count + n, c.start)))
    decreases n
  {
    if n == 0 {
      assert times + Repeated(t, n) == times;
    } else {
      AdmitMore(times, key, max, window, c, t, n - 1);
      var all := times + Repeated(t, n);
      assert all[..|all| - 1] == times + Repeated(t, n - 1);
      var before := Only(key, Counter(c.count + n - 1, c.start));
      assert before[key := Counter(c.count + n, c.start)] == Only(key, Counter(c.count + n, c.start));
    }
  }

  /** A request in a window that is over, or in none, opens a new one. */
  lemma AdmitFirst(times: seq<real>, key: Text, max: nat, window: real, before: Table, t: real)
    requires max > 0 && Admitted(times, key, max, window) == Some(before)
    requires before == map[] || exists c: Counter :: before == Only(key, c) && t - c.start >= window
    ensures Admitted(times + [t], key, max, window) == Some(Only(key, Counter(1, t)))
  {
    var all := times + [t];
    assert all[..|all| - 1] == times && all[|all| - 1] == t;
    assert before[key := Counter(1, t)] == Only(key, Counter(1, t));
  }

  lemma {:induction false} CountRepeated(times: seq<real>, t: real, n: nat, lo: real, hi: real)
    ensures CountIn(times + Repeated(t, n), lo, hi) == CountIn(times, lo, hi) + (if lo <= t < hi then n else 0)
    decreases n
  {
    if n == 0 {
      assert times + Repeated(t, n) == times;
    } else {
      var all := times + Repeated(t, n);
      assert all[..|all| - 1] == times + Repeated(t, n - 1);
      CountRepeated(times, t, n - 1, lo, hi);
    }
  }

  /** One request opens a window, the rest of its budget follows half way, and then comes a full new window. */
  function WorstCase(max: nat, window: real): seq<real>
    requires max > 0
  {
    [0.0] + Repeated(window / 2.0, max - 1) + [window] + Repeated(window, max - 1)
  }

  /** The bound is reached for every limit and every window. */
  lemma BoundIsReached(key: Text, max: nat, window: real)
    requires max > 0 && window > 0.0
    ensures Sorted(WorstCase(max, window)) && Admitted(WorstCase(max, window), key, max, window).Some?
    ensures CountIn(WorstCase(max, window), window / 2.0, window / 2.0 + window) == 2 * max - 1
  {
    WorstCaseSorted(max, window);
    hide Admitted, CountIn, Sorted;
    var half, opening := window / 2.0, [0.0];
    var first := opening + Repeated(half, max - 1);
    var second := first + [window];
    NothingAdmitted(key, max, window);
    AdmitFirst([], key, max, window, map[], 0.0);
    assert [] + opening == opening;
    AdmitMore(opening, key, max, window, Counter(1, 0.0), half, max - 1);
    AdmitFirst(first, key, max, window, Only(key, Counter(max, 0.0)), window);
    AdmitMore(second, key, max, window, Counter(1, window), window, max - 1);
    CountRepeated([], 0.0, 1, half, half + window);
    assert [] + Repeated(0.0, 1) == opening;
    CountRepeated(opening, half, max - 1, half, half + window);
    CountRepeated(first, window, 1, half, half + window);
    assert first + Repeated(window, 1) == second;
    CountRepeated(second, window, max - 1, half, half + window);
  }

  lemma WorstCaseSorted(max: nat, window: real)
    requires max > 0 && window > 0.0
    ensures Sorted(WorstCase(max, window))
  {
    var times := WorstCase(max, window);
    assert forall i | 0 <= i < |times| :: times[i] == if i == 0 then 0.0 else if i < max then window / 2.0 else window;
  }

  lemma NothingAdmitted(key: Text, max: nat, window: real)
    ensures Admitted([], key, max, window) == Some(map[])
    ensures forall lo, hi :: CountIn([], lo, hi) == 0
  {}
}
