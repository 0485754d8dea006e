/**
 Window mode of the session refines the unbounded filter: remembering at most 256 numbers decides
 like remembering every number ever accepted, for exactly the runs in which no failed decryption
 made the pruning forget a number that is still inside the window.
 */
module ReplayWindow {
  import opened Bytes
  import opened Ideal
  import opened Sessions

  /** One payload that got as far as the locked section: its number, and whether it opened. */
  datatype Attempt = Attempt(n: nat, opens: bool)

  function Step(s: Session, a: Attempt): (Session, bool) {
    if !s.Passes(a.n) then (s, false)
    else if a.opens then (s.Accept(a.n), true)
    else (s.Undo(a.n), false)
  }

  function Run(s: Session, attempts: seq<Attempt>): (Session, seq<bool>)
    decreases |attempts|
  {
    if attempts == [] then (s, [])
    else
      var (s', ok) := Step(s, attempts[0]);
      var (last, oks) := Run(s', attempts[1..]);
      (last, [ok] + oks)
  }

  // The reference: every accepted number is kept for ever.

  predicate NeverAcceptedAndRecent(accepted: set<nat>, n: nat) {
    n !in accepted && n >= MaxOf(accepted) - 127
  }

  function UnboundedStep(accepted: set<nat>, a: Attempt): (set<nat>, bool) {
    if a.opens && NeverAcceptedAndRecent(accepted, a.n) then (accepted + {a.n}, true)
    else (accepted, false)
  }

  function UnboundedRun(accepted: set<nat>, attempts: seq<Attempt>): (set<nat>, seq<bool>)
    decreases |attempts|
  {
    if attempts == [] then (accepted, [])
    else
      var (acc', ok) := UnboundedStep(accepted, attempts[0]);
      var (last, oks) := UnboundedRun(acc', attempts[1..]);
      (last, [ok] + oks)
  }

  /** The pruned set agrees with the unbounded one wherever the window looks. */
  ghost predicate Agrees(s: Session, accepted: set<nat>) {
    && !s.config.ordered
    && s.Sound()
    && s.maxSeen == MaxOf(accepted)
    && s.seen <= accepted
    && forall n | n in accepted && n >= Floor(s.maxSeen) :: n in s.seen
  }

  /**
   The failing branch: a full memory, a number above the maximum, and a remembered number inside
   the window that the pruning for the new number drops before the rollback.
   */
  predicate Forgets(s: Session, n: nat) {
    && |s.seen| >= MAX_REMEMBERED
    && n > s.maxSeen
    && exists m | m in s.seen :: Floor(s.maxSeen) <= m < n - WINDOW_SIZE + 1
  }

  /** No failed decryption of the run takes the failing branch. */
  predicate NothingForgotten(s: Session, attempts: seq<Attempt>)
    decreases |attempts|
  {
    attempts == [] ||
    var a := attempts[0];
    (s.Passes(a.n) && !a.opens ==> !Forgets(s, a.n)) && NothingForgotten(Step(s, a).0, attempts[1..])
  }

  lemma FreshSessionAgrees(s: Session)
    requires !s.config.ordered && s.seen == {} && s.maxSeen == -1
    ensures Agrees(s, {})
  {}

  lemma AgreesDecides(s: Session, accepted: set<nat>, n: nat)
    requires Agrees(s, accepted)
    ensures s.Passes(n) <==> NeverAcceptedAndRecent(accepted, n)
  {}

  lemma MaxIs(s: set<nat>, m: nat)
    requires m in s && forall x | x in s :: x <= m
    ensures MaxOf(s) == m
  {}

  lemma AcceptAgrees(s: Session, accepted: set<nat>, n: nat)
    requires Agrees(s, accepted) && s.Passes(n)
    ensures Agrees(s.Accept(n), accepted + {n})
  {
    AcceptSound(s, n);
    MaxIs(accepted + {n}, s.Accept(n).maxSeen);
  }

  lemma UndoAgrees(s: Session, accepted: set<nat>, n: nat)
    requires Agrees(s, accepted) && s.Passes(n) && !Forgets(s, n)
    ensures Agrees(s.Undo(n), accepted)
  {
    UndoSound(s, n);
    var u := s.Undo(n);
    if |s.seen| >= MAX_REMEMBERED {
      assert s.maxSeen in s.seen;
      assert s.maxSeen in u.seen;
      MaxIs(u.seen, s.maxSeen);
    }
  }

  /** A failed decryption leaves every later decision as it was exactly when it forgets nothing. */
  lemma FailureKeepsFilter(s: Session, accepted: set<nat>, n: nat)
    requires Agrees(s, accepted) && s.Passes(n)
    ensures (forall x: nat :: s.Passes(x) <==> s.Undo(n).Passes(x)) <==> !Forgets(s, n)
  {
    if Forgets(s, n) {
      var m :| m in s.seen && Floor(s.maxSeen) <= m < n - WINDOW_SIZE + 1;
      assert !s.Passes(m) && s.Undo(n).Passes(m);
    } else {
      UndoAgrees(s, accepted, n);
      forall x: nat ensures s.Passes(x) <==> s.Undo(n).Passes(x) {
        AgreesDecides(s, accepted, x);
        AgreesDecides(s.Undo(n), accepted, x);
      }
    }
  }

  /** The guard a caller can read off the counters: below 256 entries, or not above the maximum. */
  lemma GuardForgetsNothing(s: Session, n: nat)
    requires |s.seen| < MAX_REMEMBERED || n <= s.maxSeen
    ensures !Forgets(s, n)
  {}

  /** The refinement: same decisions on the whole run, and the memory bound at its end. */
  lemma {:induction false} WindowRefinesUnbounded(s: Session, accepted: set<nat>, attempts: seq<Attempt>)
    requires Agrees(s, accepted) && NothingForgotten(s, attempts)
    ensures Run(s, attempts).1 == UnboundedRun(accepted, attempts).1
    ensures Agrees(Run(s, attempts).0, UnboundedRun(accepted, attempts).0)
    ensures |Run(s, attempts).0.seen| <= MAX_REMEMBERED
    decreases |attempts|
  {
    if attempts != [] {
      var a := attempts[0];
      AgreesDecides(s, accepted, a.n);
      if s.Passes(a.n) {
        if a.opens {
          AcceptAgrees(s, accepted, a.n);
        } else {
          UndoAgrees(s, accepted, a.n);
        }
      }
      WindowRefinesUnbounded(Step(s, a).0, UnboundedStep(accepted, a).0, attempts[1..]);
    }
  }

  /** At every moment of the run the window decides about every number like the unbounded filter. */
  ghost predicate AlikeThroughout(s: Session, accepted: set<nat>, attempts: seq<Attempt>)
    decreases |attempts|
  {
    && (forall n: nat :: s.Passes(n) <==> NeverAcceptedAndRecent(accepted, n))
    && (attempts == [] ||
        AlikeThroughout(Step(s, attempts[0]).0, UnboundedStep(accepted, attempts[0]).0, attempts[1..]))
  }

  /** The refinement holds throughout a run if and only if no failed decryption of it forgets. */
  lemma {:induction false} RefinesExactly(s: Session, accepted: set<nat>, attempts: seq<Attempt>)
    requires Agrees(s, accepted)
    ensures AlikeThroughout(s, accepted, attempts) <==> NothingForgotten(s, attempts)
    decreases |attempts|
  {
    hide NeverAcceptedAndRecent, Session.Passes, Session.Undo, Session.Accept, Forgets, Agrees;
    forall n: nat ensures s.Passes(n) <==> NeverAcceptedAndRecent(accepted, n) {
      AgreesDecides(s, accepted, n);
    }
    if attempts != [] {
      var a := attempts[0];
      if s.Passes(a.n) && !a.opens && Forgets(s, a.n) {
        FailureKeepsFilter(s, accepted, a.n);
      } else {
        if s.Passes(a.n) && a.opens {
          AcceptAgrees(s, accepted, a.n);
        } else if s.Passes(a.n) {
          UndoAgrees(s, accepted, a.n);
        }
        RefinesExactly(Step(s, a).0, UnboundedStep(accepted, a).0, attempts[1..]);
      }
    }
  }

  /** A condition on the counters: every failed attempt starts below 256 entries or does not exceed the maximum. */
  predicate Guarded(s: Session, attempts: seq<Attempt>)
    decreases |attempts|
  {
    attempts == [] ||
    ((!attempts[0].opens ==> |s.seen| < MAX_REMEMBERED || attempts[0].n <= s.maxSeen)
     && Guarded(Step(s, attempts[0]).0, attempts[1..]))
  }

  /** Guarded runs decide like the unbounded filter from beginning to end. */
  lemma {:induction false} GuardedRunsRefine(s: Session, accepted: set<nat>, attempts: seq<Attempt>)
    requires Agrees(s, accepted) && Guarded(s, attempts)
    ensures NothingForgotten(s, attempts) && AlikeThroughout(s, accepted, attempts)
  {
    GuardedForgetNothing(s, attempts);
    RefinesExactly(s, accepted, attempts);
  }

  lemma {:induction false} GuardedForgetNothing(s: Session, attempts: seq<Attempt>)
    requires Guarded(s, attempts)
    ensures NothingForgotten(s, attempts)
    decreases |attempts|
  {
    hide Step, Forgets;
    if attempts != [] {
      if !attempts[0].opens {
        GuardForgetsNothing(s, attempts[0].n);
      }
      GuardedForgetNothing(Step(s, attempts[0]).0, attempts[1..]);
    }
  }

  lemma {:induction false} AcceptedNumbersAreNew(accepted: set<nat>, attempts: seq<Attempt>, j: nat)
    requires j < |attempts|
    ensures |UnboundedRun(accepted, attempts).1| == |attempts|
    ensures UnboundedRun(accepted, attempts).1[j] ==> attempts[j].n !in accepted
    decreases |attempts|
  {
    var (acc', _) := UnboundedStep(accepted, attempts[0]);
    if j > 0 {
      AcceptedNumbersAreNew(acc', attempts[1..], j - 1);
    } else if |attempts| > 1 {
      AcceptedNumbersAreNew(acc', attempts[1..], 0);
    }
  }

  /** Within such a run no sequence number is accepted twice. */
  lemma {:induction false} NoNumberTwice(s: Session, accepted: set<nat>, attempts: seq<Attempt>, i: nat, j: nat)
    requires Agrees(s, accepted) && NothingForgotten(s, attempts)
    requires i < j < |attempts|
    ensures |Run(s, attempts).1| == |attempts|
    ensures Run(s, attempts).1[i] && Run(s, attempts).1[j] ==> attempts[i].n != attempts[j].n
    decreases |attempts|
  {
    WindowRefinesUnbounded(s, accepted, attempts);
    AcceptedNumbersAreNew(accepted, attempts, j);
    var a := attempts[0];
    var (acc', _) := UnboundedStep(accepted, a);
    AcceptedNumbersAreNew(acc', attempts[1..], j - 1);
    if i > 0 {
      AgreesDecides(s, accepted, a.n);
      if s.Passes(a.n) {
        if a.opens {
          AcceptAgrees(s, accepted, a.n);
        } else {
          UndoAgrees(s, accepted, a.n);
        }
      }
      NoNumberTwice(Step(s, a).0, acc', attempts[1..], i - 1, j - 1);
    }
  }

  /** The locked section of decrypt on an active session is exactly one such step. */
  lemma ReceiveIsStep(s: Session, now: real, p: Payload, aead: Aead)
    requires p.WellFormed(s.id)
    requires s.Tick(now).phase == Active
    ensures var n: nat := p.seqNo.n;
      var a := Attempt(n, aead.open(s.recvKey, p.nonce.bytes, Numbered(s.id, n), p.ciphertext.bytes).Some?);
      var (s', r) := s.Receive(now, p, aead);
      (s', r.Ok?) == Step(s.Tick(now), a)
  {}

  /** Forged traffic or not, no step makes the memory exceed 256 or lose track of its maximum. */
  lemma {:induction false} MemoryBounded(s: Session, attempts: seq<Attempt>)
    requires s.Sound()
    ensures Run(s, attempts).0.Sound()
    decreases |attempts|
  {
    if attempts != [] {
      var a := attempts[0];
      if s.Passes(a.n) {
        AcceptSound(s, a.n);
        UndoSound(s, a.n);
      }
      MemoryBounded(Step(s, a).0, attempts[1..]);
    }
  }

  function FirstNumbers(k: nat): (s: set<nat>)
    ensures forall n: nat :: n in s <==> n < k
    ensures |s| == k
  {
    if k == 0 then {} else FirstNumbers(k - 1) + {k - 1}
  }

  /** The attempts from..255 in order, all of which open. */
  function Climb(from: nat): (a: seq<Attempt>)
    requires from <= 256
    ensures |a| == 256 - from && forall i | 0 <= i < |a| :: a[i] == Attempt(from + i, true)
  {
    seq(256 - from, i requires 0 <= i < 256 - from => Attempt(from + i, true))
  }

  /** Where a session that has received 0..255 stands. */
  function Full(s: Session): Session {
    s.(seen := FirstNumbers(256), maxSeen := 255, recvCount := s.recvCount + 256)
  }

  lemma ClimbStep(s: Session, n: nat)
    requires n < 256 && !s.config.ordered && s.seen == FirstNumbers(n) && s.maxSeen == n - 1
    ensures Step(s, Attempt(n, true)) == (s.(seen := FirstNumbers(n + 1), maxSeen := n, recvCount := s.recvCount + 1), true)
  {
    assert s.seen + {n} == FirstNumbers(n + 1);
  }

  lemma {:induction false} ClimbReachesFull(s: Session, from: nat)
    requires from <= 256 && !s.config.ordered && s.seen == FirstNumbers(from) && s.maxSeen == from - 1
    ensures Run(s, Climb(from)).0 == s.(seen := FirstNumbers(256), maxSeen := 255, recvCount := s.recvCount + (256 - from))
    ensures |Run(s, Climb(from)).1| == 256 - from
    ensures forall i | 0 <= i < 256 - from :: Run(s, Climb(from)).1[i]
    decreases 256 - from
  {
    hide FirstNumbers, Step;
    if from < 256 {
      ClimbStep(s, from);
      assert Climb(from)[1..] == Climb(from + 1);
      ClimbReachesFull(Step(s, Attempt(from, true)).0, from + 1);
    }
  }

  lemma {:induction false} RunAppend(s: Session, a: seq<Attempt>, b: seq<Attempt>)
    ensures Run(s, a + b).1 == Run(s, a).1 + Run(Run(s, a).0, b).1
    decreases |a|
  {
    if a == [] {
      assert a + b == b;
    } else {
      assert (a + b)[1..] == a[1..] + b;
      RunAppend(Step(s, a[0]).0, a[1..], b);
    }
  }

  /**
   The failing branch is real, and reached from a fresh session: after 0..255 were received, a forged
   number 256 makes number 128, accepted and still inside the window, pass a second time.
   */
  lemma ForgedNumberReopensWindow(s: Session)
    requires !s.config.ordered && s.seen == {} && s.maxSeen == -1
    ensures Forgets(Run(s, Climb(0)).0, 256) && !Run(s, Climb(0)).0.Passes(128)
    ensures var attempts := Climb(0) + [Attempt(256, false), Attempt(128, true)];
      var oks := Run(s, attempts).1;
      |oks| == 258 && attempts[128] == attempts[257] == Attempt(128, true) && oks[128] && !oks[256] && oks[257]
  {
    hide Session.Accept, FirstNumbers, Step;
    assert s.seen == FirstNumbers(0);
    ClimbReachesFull(s, 0);
    FullForgets(s);
    RunAppend(s, Climb(0), [Attempt(256, false), Attempt(128, true)]);
  }

  lemma FullForgets(s: Session)
    requires !s.config.ordered
    ensures Forgets(Full(s), 256)
    ensures !Full(s).Passes(128) && Run(Full(s), [Attempt(256, false), Attempt(128, true)]).1 == [false, true]
  {
    hide FirstNumbers;
    var full := Full(s);
    assert 128 in full.seen && |full.seen| == 256;
    var attempts := [Attempt(256, false), Attempt(128, true)];
    var u := full.Undo(256);
    MaxIs(u.seen, 255);
    assert full.Passes(256) && Step(full, attempts[0]) == (u, false);
    assert u.Passes(128) && Step(u, attempts[1]).1;
    assert attempts[1..] == [attempts[1]] && attempts[1..][1..] == [];
    assert Run(u, [attempts[1]]).1 == [true] by {
      assert [attempts[1]][1..] == [];
    }
  }
}
