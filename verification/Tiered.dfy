/**
 The two-tier nonce store of uxsp/storage/noncestore.py. Concurrent mark_used calls on one nonce
 interleave between the two stores; the fast tier may fail (before or after taking the mark), lose
 its data and recover at any moment.
 */
module Tiered {
  import opened Wrappers
  import opened Bytes

  /** How one access to a tier ends; a failing access may or may not have taken effect. */
  datatype Access = Answers | Fails(landed: bool)

  /** Where a call of mark_used stands. */
  datatype Call = AtFast | AtDurable | AtBackfill | Done(firstUse: bool) | Raised

  /** One nonce: is it in either tier, and every call made for it. */
  datatype State = State(fast: bool, durable: bool, calls: map<nat, Call>)

  datatype Event =
    | Start(c: nat)
    | AskFast(c: nat, access: Access)
    | AskDurable(c: nat, access: Access)
    | Backfill(c: nat, access: Access)
    | FastLosesData

  predicate Enabled(s: State, e: Event) {
    match e
    case Start(c) => c !in s.calls
    case AskFast(c, _) => c in s.calls && s.calls[c] == AtFast
    case AskDurable(c, _) => c in s.calls && s.calls[c] == AtDurable
    case Backfill(c, _) => c in s.calls && s.calls[c] == AtBackfill
    case FastLosesData => true
  }

  function Step(s: State, e: Event): State
    requires Enabled(s, e)
  {
    match e
    case Start(c) => s.(calls := s.calls[c := AtFast])
    case AskFast(c, Answers) =>
      if s.fast then s.(calls := s.calls[c := Done(false)])
      else s.(fast := true, calls := s.calls[c := AtDurable])
    case AskFast(c, Fails(landed)) => s.(fast := s.fast || landed, calls := s.calls[c := AtDurable])
    case AskDurable(c, Answers) =>
      if s.durable then s.(calls := s.calls[c := Done(false)])
      else s.(durable := true, calls := s.calls[c := AtBackfill])
    case AskDurable(c, Fails(landed)) => s.(durable := s.durable || landed, calls := s.calls[c := Raised])
    case Backfill(c, Answers) => s.(fast := true, calls := s.calls[c := Done(true)])
    case Backfill(c, Fails(landed)) => s.(fast := s.fast || landed, calls := s.calls[c := Done(true)])
    case FastLosesData => s.(fast := false)
  }

  predicate Possible(s: State, events: seq<Event>)
    decreases |events|
  {
    events == [] || (Enabled(s, events[0]) && Possible(Step(s, events[0]), events[1..]))
  }

  function Run(s: State, events: seq<Event>): State
    requires Possible(s, events)
    decreases |events|
  {
    if events == [] then s else Run(Step(s, events[0]), events[1..])
  }

  /** The durable tier answers every access of the run. */
  predicate DurableUp(events: seq<Event>) {
    forall e | e in events :: e.AskDurable? ==> e.access == Answers
  }

  const UNSEEN := State(false, false, map[])

  /** The calls that inserted into the durable tier. */
  function Winners(s: State): set<nat> {
    set c | c in s.calls && (s.calls[c] == AtBackfill || s.calls[c] == Done(true))
  }

  // ------------------------------------------------------------------ at most one, always

  ghost predicate Safe(s: State) {
    && (!s.durable ==> Winners(s) == {})
    && (forall c, d | c in Winners(s) && d in Winners(s) :: c == d)
  }

  lemma StepSafe(s: State, e: Event)
    requires Safe(s) && Enabled(s, e)
    ensures Safe(Step(s, e))
    ensures s.durable ==> Step(s, e).durable
  {
    if !e.AskDurable? {
      assert Winners(Step(s, e)) == Winners(s);
    } else if !s.durable && e.access == Answers {
      assert Winners(Step(s, e)) == {e.c};
    } else {
      assert Winners(Step(s, e)) == Winners(s);
    }
  }

  lemma {:induction false} RunSafe(s: State, events: seq<Event>)
    requires Safe(s) && Possible(s, events)
    ensures Safe(Run(s, events))
    decreases |events|
  {
    if events != [] {
      StepSafe(s, events[0]);
      RunSafe(Step(s, events[0]), events[1..]);
    }
  }

  /** No interleaving and no failure of either tier lets two calls return True. */
  lemma AtMostOneWinner(events: seq<Event>, c: nat, d: nat)
    requires Possible(UNSEEN, events)
    requires var s := Run(UNSEEN, events);
      c in s.calls && d in s.calls && s.calls[c] == s.calls[d] == Done(true)
    ensures c == d
  {
    RunSafe(UNSEEN, events);
    assert c in Winners(Run(UNSEEN, events)) && d in Winners(Run(UNSEEN, events));
  }

  // ------------------------------------------------------------------ at least one, once all finish

  /** Somebody reached the durable tier, or is about to. */
  ghost predicate Underway(s: State) {
    Winners(s) != {} || exists c :: c in s.calls && s.calls[c] == AtDurable
  }

  ghost predicate Live(s: State) {
    && (s.durable ==> Winners(s) != {})
    && (s.fast ==> Underway(s))
    && (forall c | c in s.calls :: s.calls[c] != AtFast ==> Underway(s))
    && (forall c | c in s.calls :: s.calls[c] != Raised)
  }

  lemma StepLive(s: State, e: Event)
    requires Live(s) && Safe(s) && Enabled(s, e)
    requires e.AskDurable? ==> e.access == Answers
    ensures Live(Step(s, e))
  {
    var t := Step(s, e);
    if e.AskDurable? {
      if s.durable {
        assert Winners(t) == Winners(s);
      } else {
        assert e.c in Winners(t);
      }
    } else {
      assert Winners(t) == Winners(s);
      if Underway(s) && Winners(s) == {} {
        var c :| c in s.calls && s.calls[c] == AtDurable;
        assert c in t.calls && t.calls[c] == AtDurable;
      }
      if e.AskFast? && t.calls[e.c] == AtDurable {
        assert Underway(t);
      }
    }
  }

  lemma {:induction false} RunLive(s: State, events: seq<Event>)
    requires Live(s) && Safe(s) && Possible(s, events) && DurableUp(events)
    ensures Live(Run(s, events)) && Safe(Run(s, events))
    decreases |events|
  {
    if events != [] {
      assert forall e | e in events[1..] :: e in events;
      StepLive(s, events[0]);
      StepSafe(s, events[0]);
      RunLive(Step(s, events[0]), events[1..]);
    }
  }

  /** With the durable tier up: once every call has finished, exactly one of them returned True. */
  lemma ExactlyOneWinner(events: seq<Event>)
    requires Possible(UNSEEN, events) && DurableUp(events)
    requires var s := Run(UNSEEN, events);
      s.calls != map[] && forall c | c in s.calls :: s.calls[c].Done? || s.calls[c].Raised?
    ensures var s := Run(UNSEEN, events);
      exists w :: w in s.calls && s.calls[w] == Done(true) && forall c | c in s.calls && c != w :: s.calls[c] == Done(false)
  {
    var s := Run(UNSEEN, events);
    RunLive(UNSEEN, events);
    var any :| any in s.calls;
    assert Underway(s);
    var w :| w in Winners(s);
    forall c | c in s.calls && c != w ensures s.calls[c] == Done(false) {
      assert s.calls[c] == Done(true) ==> c in Winners(s);
    }
  }

  // ------------------------------------------------------------------ the durable tier may fail too

  /** How the first access that takes effect in the durable tier ends. */
  function FirstEffect(events: seq<Event>): Option<Access>
    decreases |events|
  {
    if events == [] then None
    else if events[0].AskDurable? && (events[0].access.Answers? || events[0].access.landed) then Some(events[0].access)
    else FirstEffect(events[1..])
  }

  /** A marked durable tier creates no further winner. */
  lemma {:induction false} WinnersSettled(s: State, events: seq<Event>)
    requires s.durable && Possible(s, events)
    ensures Winners(Run(s, events)) == Winners(s)
    decreases |events|
  {
    if events != [] {
      assert Winners(Step(s, events[0])) == Winners(s);
      WinnersSettled(Step(s, events[0]), events[1..]);
    }
  }

  /** Somebody wins a fresh nonce if and only if the first access that marks the durable tier answers. */
  lemma {:induction false} WinnerExactly(s: State, events: seq<Event>)
    requires Safe(s) && !s.durable && Possible(s, events)
    ensures Winners(Run(s, events)) != {} <==> FirstEffect(events) == Some(Answers)
    decreases |events|
  {
    if events != [] {
      var e, t := events[0], Step(s, events[0]);
      StepSafe(s, e);
      if t.durable {
        WinnersSettled(t, events[1..]);
        assert e.access == Answers ==> e.c in Winners(t);
      } else {
        WinnerExactly(t, events[1..]);
      }
    }
  }

  /** Once all calls have finished: one of them returned True exactly under that condition. */
  lemma TrueReturnedExactly(events: seq<Event>)
    requires Possible(UNSEEN, events)
    requires var s := Run(UNSEEN, events); forall c | c in s.calls :: s.calls[c].Done? || s.calls[c].Raised?
    ensures var s := Run(UNSEEN, events);
      (exists c :: c in s.calls && s.calls[c] == Done(true)) <==> FirstEffect(events) == Some(Answers)
  {
    var s := Run(UNSEEN, events);
    WinnerExactly(UNSEEN, events);
    if c :| c in s.calls && s.calls[c] == Done(true) {
      assert c in Winners(s);
    }
    if Winners(s) != {} {
      var c :| c in Winners(s);
      assert s.calls[c] == Done(true);
    }
  }

  /** Marked in the fast tier, nobody won, and nobody is on the way to the durable tier. */
  ghost predicate Spent(s: State) {
    s.fast && forall c | c in s.calls :: s.calls[c] == AtFast || s.calls[c] == Done(false) || s.calls[c] == Raised
  }

  /** The fast tier neither fails nor loses data. */
  predicate FastHolds(events: seq<Event>) {
    forall e | e in events :: e != FastLosesData && (e.AskFast? ==> e.access == Answers)
  }

  /** A spent nonce is refused to everybody for as long as the fast tier holds. */
  lemma {:induction false} SpentStaysRefused(s: State, events: seq<Event>)
    requires Spent(s) && Possible(s, events) && FastHolds(events)
    ensures Spent(Run(s, events))
    decreases |events|
  {
    if events != [] {
      assert events[0] in events && forall e | e in events[1..] :: e in events;
      SpentStaysRefused(Step(s, events[0]), events[1..]);
    }
  }

  /** What a new call needs to win it after all: a fast tier that fails, or has lost the mark. */
  function Retry(c: nat, lost: bool): seq<Event> {
    (if lost then [FastLosesData, Start(c), AskFast(c, Answers)] else [Start(c), AskFast(c, Fails(false))])
    + [AskDurable(c, Answers), Backfill(c, Answers)]
  }

  lemma RunStep(s: State, e: Event, rest: seq<Event>)
    requires Enabled(s, e) && Possible(Step(s, e), rest)
    ensures Possible(s, [e] + rest) && Run(s, [e] + rest) == Run(Step(s, e), rest)
  {
    assert ([e] + rest)[1..] == rest;
  }

  /** Either way a later call returns True, provided the durable tier does not hold the nonce. */
  lemma SpentIsWonByRetry(s: State, c: nat, lost: bool)
    requires Spent(s) && !s.durable && c !in s.calls
    ensures Possible(s, Retry(c, lost))
    ensures var t := Run(s, Retry(c, lost)); c in t.calls && t.calls[c] == Done(true)
  {
    hide Run, Possible, Spent;
    var s0 := if lost then Step(s, FastLosesData) else s;
    var ask := AskFast(c, if lost then Answers else Fails(false));
    var s1 := Step(s0, Start(c));
    var s2 := Step(s1, ask);
    var s3 := Step(s2, AskDurable(c, Answers));
    var s4 := Step(s3, Backfill(c, Answers));
    RunEnd(s4);
    RunStep(s3, Backfill(c, Answers), []);
    RunStep(s2, AskDurable(c, Answers), [Backfill(c, Answers)] + []);
    RunStep(s1, ask, [AskDurable(c, Answers)] + ([Backfill(c, Answers)] + []));
    RunStep(s0, Start(c), [ask] + ([AskDurable(c, Answers)] + ([Backfill(c, Answers)] + [])));
    var tail := [Start(c)] + ([ask] + ([AskDurable(c, Answers)] + ([Backfill(c, Answers)] + [])));
    if lost {
      RunStep(s, FastLosesData, tail);
      assert [FastLosesData] + tail == Retry(c, lost);
    } else {
      assert tail == Retry(c, lost);
    }
  }

  lemma RunEnd(s: State)
    ensures Possible(s, []) && Run(s, []) == s
  {}

  /**
   How a nonce gets spent: the durable tier fails without effect between the two accesses. Nobody
   wins it then for as long as the fast tier holds, however many calls are made.
   */
  lemma DurableFailureSpendsNonce(first: nat, events: seq<Event>)
    requires var spend := [Start(first), AskFast(first, Answers), AskDurable(first, Fails(false))];
      Possible(UNSEEN, spend) && Possible(Run(UNSEEN, spend), events) && FastHolds(events)
    ensures var spend := [Start(first), AskFast(first, Answers), AskDurable(first, Fails(false))];
      var s := Run(Run(UNSEEN, spend), events);
      Spent(s) && !s.durable && Winners(s) == {}
  {
    var s1 := Step(UNSEEN, Start(first));
    var s2 := Step(s1, AskFast(first, Answers));
    var s3 := Step(s2, AskDurable(first, Fails(false)));
    var spend := [Start(first), AskFast(first, Answers), AskDurable(first, Fails(false))];
    assert spend[1..] == [AskFast(first, Answers), AskDurable(first, Fails(false))];
    assert spend[1..][1..] == [AskDurable(first, Fails(false))] && spend[1..][1..][1..] == [];
    assert Run(UNSEEN, spend) == Run(s1, spend[1..]) == Run(s2, spend[1..][1..]) == Run(s3, []) == s3;
    SpentStaysRefused(s3, events);
    SpentLeavesDurable(s3, events);
  }

  lemma {:induction false} SpentLeavesDurable(s: State, events: seq<Event>)
    requires Spent(s) && Possible(s, events) && FastHolds(events)
    ensures Run(s, events).durable == s.durable
    decreases |events|
  {
    if events != [] {
      assert events[0] in events && forall e | e in events[1..] :: e in events;
      SpentLeavesDurable(Step(s, events[0]), events[1..]);
    }
  }

  // ------------------------------------------------------------------ the object

  /** What one call does when no other call runs meanwhile: its own events, in order. */
  function Alone(fast: bool, durable: bool, first: Access, second: Access, third: Access): State {
    var s := State(fast, durable, map[0 := AtFast]);
    var s := Step(s, AskFast(0, first));
    if s.calls[0] != AtDurable then s
    else
      var s := Step(s, AskDurable(0, second));
      if s.calls[0] != AtBackfill then s else Step(s, Backfill(0, third))
  }

  /** The tiers as sets of live marks; the environment decides how each access ends. */
  class TieredNonceStore {
    var fast: set<Text>
    var durable: set<Text>

    constructor ()
      ensures fast == durable == {}
    {
      fast, durable := {}, {};
    }

    method FastMarkUsed(nonce: Text, access: Access) returns (r: Option<bool>)
      modifies this`fast
      ensures r == if access == Answers then Some(nonce !in old(fast)) else None
      ensures fast == if access == Answers || access.landed then old(fast) + {nonce} else old(fast)
    {
      r := if access == Answers then Some(nonce !in fast) else None;
      if access == Answers || access.landed {
        fast := fast + {nonce};
      }
    }

    method DurableMarkUsed(nonce: Text, access: Access) returns (r: Option<bool>)
      modifies this`durable
      ensures r == if access == Answers then Some(nonce !in old(durable)) else None
      ensures durable == if access == Answers || access.landed then old(durable) + {nonce} else old(durable)
    {
      r := if access == Answers then Some(nonce !in durable) else None;
      if access == Answers || access.landed {
        durable := durable + {nonce};
      }
    }

    /** None stands for the UXSPStoreError of the durable tier. */
    method MarkUsed(nonce: Text, first: Access, second: Access, third: Access) returns (r: Option<bool>)
      modifies this
      ensures var s := Alone(nonce in old(fast), nonce in old(durable), first, second, third);
        && s.calls[0] == (if r.Some? then Done(r.value) else Raised)
        && fast - {nonce} == old(fast) - {nonce} && (nonce in fast <==> s.fast)
        && durable - {nonce} == old(durable) - {nonce} && (nonce in durable <==> s.durable)
      ensures r == Some(true) ==> nonce !in old(durable) && nonce in durable && (third == Answers || third.landed ==> nonce in fast)
      ensures r == Some(false) <==> (first == Answers && nonce in old(fast)) || (second == Answers && nonce in old(durable))
      ensures first == Answers && nonce in old(fast) ==> durable == old(durable) && fast == old(fast)
      ensures r == None <==> !(first == Answers && nonce in old(fast)) && second.Fails?
    {
      var quick := FastMarkUsed(nonce, first);
      if quick == Some(false) {
        return Some(false);
      }
      var result := DurableMarkUsed(nonce, second);
      if result.None? {
        return None;
      }
      if result.value {
        var _ := FastMarkUsed(nonce, third);
      }
      return result;
    }
  }
}
