/** What runs of CLockable's calls come to: why a try_lock fails, how soon a call returns, and what a thread
    that moves alone gets. */
module LockRuns {
  import opened Lockable

  /** The n-th event is the call of thread t, and it has not returned before the last event. */
  ghost predicate CalledAt(events: seq<Event>, t: ThreadId, n: nat, call: Call)
    requires forall e | e in events :: e.thread > 0
  {
    && n < |events| && events[n] == Event(t, call) && At(Run(events[..n]), t).pc.Idle?
    && forall i | n < i < |events| :: !At(Run(events[..i]), t).pc.Idle?
  }

  /** Another thread is inside. */
  ghost predicate OtherInside(s: State, t: ThreadId) {
    exists u :: u > 0 && u != t && Inside(At(s, u))
  }

  /** Another thread has been inside between the n-th event and the m-th. */
  ghost predicate Hindered(events: seq<Event>, t: ThreadId, n: nat, m: nat)
    requires m <= |events| && forall e | e in events :: e.thread > 0
  {
    exists i :: n < i < m && OtherInside(Run(events[..i]), t)
  }

  /** The events of the thread from the n-th on and before the m-th. */
  ghost function Accesses(events: seq<Event>, t: ThreadId, n: nat, m: nat): nat
    requires n <= m <= |events|
  {
    if n == m then 0 else Accesses(events, t, n, m - 1) + if events[m - 1].thread == t then 1 else 0
  }

  /** Those of them that the thread makes while another one is inside. */
  ghost function Refusals(events: seq<Event>, t: ThreadId, n: nat, m: nat): nat
    requires n <= m <= |events| && forall e | e in events :: e.thread > 0
  {
    if n == m then 0
    else Refusals(events, t, n, m - 1)
         + if events[m - 1].thread == t && OtherInside(Run(events[..m - 1]), t) then 1 else 0
  }

  /** The accesses a call has still to make if no test-and-set finds the flag set. */
  function Rank(pc: Pc): nat {
    match pc
    case Idle => 0
    case CheckOwner => 7
    case RaiseWaiting => 6
    case TestAndSet => 5
    case MarkLocked => 4
    case StoreOwner => 3
    case StoreCount => 2
    case LowerWaiting(_) => 1
    case RaiseCount => 1
    case CheckUnlock => 5
    case LowerCount => 4
    case CheckClear => 5
    case ZeroCount => 4
    case DropOwner => 3
    case MarkFree => 2
    case ClearFlag => 1
    case CheckCount => 2
    case ReadCount => 1
  }

  // ---- One event of a run

  lemma RunNext(events: seq<Event>, m: nat)
    requires m < |events| && forall e | e in events :: e.thread > 0
    ensures Run(events[..m + 1]) == Step(Run(events[..m]), events[m].thread, events[m].call)
    ensures Inv(Run(events[..m]))
  {
    hide Step, Inv;
    assert events[..m + 1][..m] == events[..m];
    EveryRun(events[..m]);
  }

  lemma OthersStay(s: State, t: ThreadId, u: ThreadId, call: Call)
    requires u != t
    ensures At(Step(s, u, call), t) == At(s, t)
  {
  }

  /** A set flag keeps a thread that is not inside from its lock because of another one. */
  lemma FlagMeansOther(s: State, t: ThreadId)
    requires Inv(s) && s.flag && !Inside(At(s, t))
    ensures OtherInside(s, t)
  {
    hide Inside, Inv;
    FlagIsSet(s);
  }

  /** A thread's own step in a call. */
  lemma OwnStep(s: State, t: ThreadId, call: Call)
    requires t > 0 && Inv(s) && !At(s, t).pc.Idle?
    ensures var l, l' := At(s, t), At(Step(s, t, call), t);
            && l'.call == l.call && l'.before == l.before
            && (Rank(l'.pc) < Rank(l.pc) || (l' == l && l.call.Lock? && OtherInside(s, t)))
            && (l.call.TryLock? && l'.pc == LowerWaiting(false) ==> OtherInside(s, t))
            && (l.call.TryLock? && l'.pc.Idle? && l'.answer == NO ==> l.pc == LowerWaiting(false))
  {
    hide OtherInside, Fits, Inside, Next, Rank;
    var l := At(s, t);
    assert FitsAt(s, t);
    NotInsideYet(l, s.flag, s.isLocked, s.owner == t, s.count);
    if l.pc.TestAndSet? && s.flag {
      FlagMeansOther(s, t);
    }
    NextRank(l, s.flag, s.owner == t, s.count, call);
    assert At(Step(s, t, call), t) == Next(l, s.flag, t == s.owner, s.count, call);
  }

  lemma NotInsideYet(l: Local, flag: bool, isLocked: bool, isOwner: bool, count: int)
    requires Fits(l, flag, isLocked, isOwner, count)
    ensures OnTheWay(l) && (l.pc.TestAndSet? ==> !Inside(l))
  {
  }

  lemma NextRank(l: Local, flag: bool, isOwner: bool, count: int, call: Call)
    requires OnTheWay(l) && !l.pc.Idle?
    ensures var l' := Next(l, flag, isOwner, count, call);
            && l'.call == l.call && l'.before == l.before
            && (Rank(l'.pc) < Rank(l.pc) || (l' == l && l.call.Lock? && l.pc.TestAndSet? && flag))
            && (l.call.TryLock? && l'.pc == LowerWaiting(false) ==> l.pc.TestAndSet? && flag)
            && (l.call.TryLock? && l'.pc.Idle? && l'.answer == NO ==> l.pc == LowerWaiting(false))
  {
  }

  // ---- How a try_lock fails

  lemma {:induction false} TryGoesOn(events: seq<Event>, t: ThreadId, n: nat, m: nat)
    requires forall e | e in events :: e.thread > 0
    requires CalledAt(events, t, n, TryLock) && n < m <= |events|
    ensures var l := At(Run(events[..m]), t);
            && l.call == TryLock && l.before == At(Run(events[..n]), t).depth
            && (l.pc == LowerWaiting(false) || (l.pc.Idle? && l.answer == NO) ==> Hindered(events, t, n, m))
  {
    hide Run, Inv, Step, OtherInside;
    RunNext(events, m - 1);
    if m == n + 1 {
      Begins(Run(events[..n]), t, TryLock);
    } else {
      TryGoesOn(events, t, n, m - 1);
      var s := Run(events[..m - 1]);
      if events[m - 1].thread == t {
        OwnStep(s, t, events[m - 1].call);
        assert OtherInside(s, t) ==> Hindered(events, t, n, m);
      } else {
        OthersStay(s, t, events[m - 1].thread, events[m - 1].call);
      }
    }
  }

  lemma Begins(s: State, t: ThreadId, call: Call)
    requires At(s, t).pc.Idle?
    ensures At(Step(s, t, call), t) == Local(FirstStep(call), call, At(s, t).depth, At(s, t).depth, 0)
  {
  }

  /** A try_lock that answers NO has been called without a lock, and another thread has been inside between
      the call and the return. */
  lemma TryLockFails(events: seq<Event>, t: ThreadId, n: nat)
    requires forall e | e in events :: e.thread > 0
    requires t > 0 && CalledAt(events, t, n, TryLock)
    requires At(Run(events), t).pc.Idle? && At(Run(events), t).answer == NO
    ensures At(Run(events[..n]), t).depth == 0 && At(Run(events), t).depth == 0
    ensures exists i, u :: n < i < |events| && u > 0 && u != t && Inside(At(Run(events[..i]), u))
  {
    hide Run, Inv, Step, Inside;
    assert events[..|events|] == events;
    TryGoesOn(events, t, n, |events|);
    CallsDoWhatTheySay(events, t);
    var i :| n < i < |events| && OtherInside(Run(events[..i]), t);
    var u :| u > 0 && u != t && Inside(At(Run(events[..i]), u));
  }

  /** With no other thread inside, a try_lock answers YES and has one lock more. */
  lemma TryLockSucceeds(events: seq<Event>, t: ThreadId, n: nat)
    requires forall e | e in events :: e.thread > 0
    requires t > 0 && CalledAt(events, t, n, TryLock) && At(Run(events), t).pc.Idle?
    requires forall i, u | n < i < |events| && u > 0 && u != t :: !Inside(At(Run(events[..i]), u))
    ensures At(Run(events), t).answer == YES
    ensures At(Run(events), t).depth == At(Run(events[..n]), t).depth + 1
  {
    hide Run, Inv, Step, Inside;
    assert events[..|events|] == events;
    TryGoesOn(events, t, n, |events|);
    CallsDoWhatTheySay(events, t);
    if At(Run(events), t).answer == NO {
      TryLockFails(events, t, n);
    }
  }

  // ---- How soon a call returns

  lemma {:induction false} RankFalls(events: seq<Event>, t: ThreadId, n: nat, call: Call, m: nat)
    requires forall e | e in events :: e.thread > 0
    requires CalledAt(events, t, n, call) && n < m <= |events|
    ensures At(Run(events[..m]), t).call == call
    ensures Accesses(events, t, n + 1, m) + Rank(At(Run(events[..m]), t).pc)
            <= 7 + if call.Lock? then Refusals(events, t, n + 1, m) else 0
  {
    hide Run, Inv, Step, OtherInside, Rank;
    RunNext(events, m - 1);
    if m == n + 1 {
      Begins(Run(events[..n]), t, call);
      FirstRank(call);
    } else {
      RankFalls(events, t, n, call, m - 1);
      var s := Run(events[..m - 1]);
      if events[m - 1].thread == t {
        OwnStep(s, t, events[m - 1].call);
      } else {
        OthersStay(s, t, events[m - 1].thread, events[m - 1].call);
      }
    }
  }

  lemma FirstRank(call: Call)
    ensures Rank(FirstStep(call)) <= 7
  {
  }

  /** Whatever the other threads do, every call but lock has returned after seven accesses; and so has lock,
      after seven accesses besides those made while another thread is inside. */
  lemma CallsReturn(events: seq<Event>, t: ThreadId, n: nat, call: Call)
    requires forall e | e in events :: e.thread > 0
    requires t > 0 && CalledAt(events, t, n, call) && !At(Run(events), t).pc.Idle?
    ensures Accesses(events, t, n + 1, |events|)
            < 7 + if call.Lock? then Refusals(events, t, n + 1, |events|) else 0
  {
    hide Run, Inv, Step, OtherInside;
    assert events[..|events|] == events;
    RankFalls(events, t, n, call, |events|);
  }

  // ---- A thread that moves alone

  function Alone(s: State, t: ThreadId, call: Call, k: nat): State {
    if k == 0 then s else Step(Alone(s, t, call, k - 1), t, call)
  }

  function Repeated(e: Event, k: nat): (r: seq<Event>)
    ensures forall d | d in r :: d == e
  {
    if k == 0 then [] else Repeated(e, k - 1) + [e]
  }

  /** A thread that moves alone after a run continues that run. */
  lemma {:induction false} AloneIsRun(events: seq<Event>, t: ThreadId, call: Call, k: nat)
    requires t > 0 && forall e | e in events :: e.thread > 0
    ensures forall e | e in events + Repeated(Event(t, call), k) :: e.thread > 0
    ensures Alone(Run(events), t, call, k) == Run(events + Repeated(Event(t, call), k))
  {
    hide Step;
    var all := events + Repeated(Event(t, call), k);
    if k == 0 {
      assert all == events;
    } else {
      AloneIsRun(events, t, call, k - 1);
      assert all[..|all| - 1] == events + Repeated(Event(t, call), k - 1);
    }
  }

  /** The thread has come back from its call, and no more than the four fields has changed besides. */
  ghost predicate Back(s: State, s': State, t: ThreadId, depth: nat) {
    && At(s', t).pc.Idle? && At(s', t).depth == depth && s'.waiting == s.waiting
    && forall u | u != t :: At(s', u) == At(s, u)
  }

  predicate Fields(s: State, flag: bool, isLocked: bool, owner: ThreadId, count: int) {
    s.flag == flag && s.isLocked == isLocked && s.owner == owner && s.count == count
  }

  /** The fields as an idle thread finds them. */
  lemma IdleMeans(s: State, t: ThreadId)
    requires t > 0 && Inv(s) && At(s, t).pc.Idle?
    ensures At(s, t).depth > 0 ==> Fields(s, true, true, t, At(s, t).depth)
    ensures At(s, t).depth == 0 ==> s.owner != t
    ensures !s.flag ==> Fields(s, false, false, 0, 0) && At(s, t).depth == 0
  {
    assert FitsAt(s, t);
    assert s.owner > 0 ==> FitsAt(s, s.owner);
  }

  lemma GoesOn(s: State, t: ThreadId, call: Call, k: nat)
    ensures Alone(s, t, call, 0) == s
    ensures var x, y := Alone(s, t, call, k), Alone(s, t, call, k + 1);
            && At(y, t) == Next(At(x, t), x.flag, t == x.owner, x.count, call)
            && y == Effect(x, t, At(x, t).pc).(threads := y.threads)
            && forall u | u != t :: At(y, u) == At(x, u)
  {
  }

  /** The first half of lock and try_lock on a free object: the flag is taken. */
  lemma TakesTheFlag(s: State, t: ThreadId, call: Call)
    requires At(s, t).pc.Idle? && At(s, t).depth == 0 && s.owner != t && !s.flag && (call.Lock? || call.TryLock?)
    ensures var s' := Alone(s, t, call, 4);
            && At(s', t) == Local(MarkLocked, call, 0, 0, 0) && s' == s.(flag := true, waiting := s.waiting + 1,
                                                                         threads := s'.threads)
            && forall u | u != t :: At(s', u) == At(s, u)
  {
    hide Alone, At;
    GoesOn(s, t, call, 0);
    assert At(Alone(s, t, call, 1), t).pc == CheckOwner;
    GoesOn(s, t, call, 1);
    GoesOn(s, t, call, 2);
    GoesOn(s, t, call, 3);
  }

  /** The second half: the lock is noted down. */
  lemma NotesTheLock(s: State, t: ThreadId, call: Call)
    requires At(s, t).pc.Idle? && At(s, t).depth == 0 && s.owner != t && !s.flag && (call.Lock? || call.TryLock?)
    ensures var s' := Alone(s, t, call, 8);
            Back(s, s', t, 1) && At(s', t).answer == YES && Fields(s', true, true, t, 1)
  {
    hide Alone, At;
    TakesTheFlag(s, t, call);
    GoesOn(s, t, call, 4);
    GoesOn(s, t, call, 5);
    GoesOn(s, t, call, 6);
    GoesOn(s, t, call, 7);
  }

  /** Another thread has the flag: try_lock gives up at its first test. */
  lemma GivesUp(s: State, t: ThreadId)
    requires At(s, t).pc.Idle? && At(s, t).depth == 0 && s.owner != t && s.flag
    ensures var s' := Alone(s, t, TryLock, 5);
            Back(s, s', t, 0) && At(s', t).answer == NO && Fields(s', s.flag, s.isLocked, s.owner, s.count)
  {
    hide Alone, At;
    GoesOn(s, t, TryLock, 0);
    GoesOn(s, t, TryLock, 1);
    GoesOn(s, t, TryLock, 2);
    GoesOn(s, t, TryLock, 3);
    GoesOn(s, t, TryLock, 4);
  }

  /** And lock goes on testing. */
  lemma {:induction false} Spins(s: State, t: ThreadId, k: nat)
    requires At(s, t).pc.Idle? && At(s, t).depth == 0 && s.owner != t && s.flag && k >= 3
    ensures var s' := Alone(s, t, Lock, k);
            && At(s', t).pc.TestAndSet? && At(s', t).call == Lock
            && s' == s.(waiting := s.waiting + 1, threads := s'.threads)
            && forall u | u != t :: At(s', u) == At(s, u)
  {
    hide Alone, At;
    if k == 3 {
      GoesOn(s, t, Lock, 0);
      GoesOn(s, t, Lock, 1);
      GoesOn(s, t, Lock, 2);
    } else {
      Spins(s, t, k - 1);
      GoesOn(s, t, Lock, k - 1);
    }
  }

  lemma CountsUp(s: State, t: ThreadId, call: Call)
    requires At(s, t).pc.Idle? && s.owner == t && (call.Lock? || call.TryLock?)
    ensures var s' := Alone(s, t, call, 3);
            && Back(s, s', t, At(s, t).depth + 1) && At(s', t).answer == YES
            && Fields(s', s.flag, s.isLocked, t, s.count + 1)
  {
    hide Alone, At;
    GoesOn(s, t, call, 0);
    GoesOn(s, t, call, 1);
    GoesOn(s, t, call, 2);
  }

  predicate GivesAllUp(s: State, t: ThreadId, call: Call) {
    && At(s, t).pc.Idle? && s.owner == t && At(s, t).depth > 0
    && (call.ClearLocks? || (call.Unlock? && s.count == 1 && At(s, t).depth == 1))
  }

  lemma LowersToZero(s: State, t: ThreadId, call: Call)
    requires GivesAllUp(s, t, call)
    ensures var s' := Alone(s, t, call, 3);
            && At(s', t).pc.DropOwner? && At(s', t).depth == 0 && s' == s.(count := 0, threads := s'.threads)
            && forall u | u != t :: At(s', u) == At(s, u)
  {
    hide Alone, At;
    GoesOn(s, t, call, 0);
    GoesOn(s, t, call, 1);
    GoesOn(s, t, call, 2);
  }

  lemma Leaves(s: State, t: ThreadId, call: Call)
    requires GivesAllUp(s, t, call)
    ensures var s' := Alone(s, t, call, 6);
            Back(s, s', t, 0) && At(s', t).answer == YES && Fields(s', false, false, 0, 0)
  {
    hide Alone, At, GivesAllUp;
    LowersToZero(s, t, call);
    GoesOn(s, t, call, 3);
    GoesOn(s, t, call, 4);
    GoesOn(s, t, call, 5);
  }

  lemma CountsDown(s: State, t: ThreadId)
    requires At(s, t).pc.Idle? && s.owner == t && s.count > 1 && At(s, t).depth > 0
    ensures var s' := Alone(s, t, Unlock, 3);
            Back(s, s', t, At(s, t).depth - 1) && Fields(s', s.flag, s.isLocked, t, s.count - 1)
  {
    hide Alone, At;
    GoesOn(s, t, Unlock, 0);
    GoesOn(s, t, Unlock, 1);
    GoesOn(s, t, Unlock, 2);
  }

  lemma IsNotTheOwner(s: State, t: ThreadId, call: Call)
    requires At(s, t).pc.Idle? && s.owner != t && (call.Unlock? || call.ClearLocks? || call.LockCount?)
    ensures var s' := Alone(s, t, call, 2);
            && Back(s, s', t, At(s, t).depth) && At(s', t).answer == 0
            && Fields(s', s.flag, s.isLocked, s.owner, s.count)
  {
    hide Alone, At;
    GoesOn(s, t, call, 0);
    GoesOn(s, t, call, 1);
  }

  lemma Reads(s: State, t: ThreadId)
    requires At(s, t).pc.Idle? && s.owner == t
    ensures var s' := Alone(s, t, LockCount, 3);
            && Back(s, s', t, At(s, t).depth) && At(s', t).answer == s.count
            && Fields(s', s.flag, s.isLocked, t, s.count)
  {
    hide Alone, At;
    GoesOn(s, t, LockCount, 0);
    GoesOn(s, t, LockCount, 1);
    GoesOn(s, t, LockCount, 2);
  }

  /** After any run an idle thread that moves alone locks a free object with seven accesses, and one of its
      own with two; on an object of another thread try_lock answers NO after four, and lock never returns. */
  lemma LocksAlone(events: seq<Event>, t: ThreadId, call: Call)
    requires forall e | e in events :: e.thread > 0
    requires t > 0 && At(Run(events), t).pc.Idle? && (call.Lock? || call.TryLock?)
    ensures var s, depth := Run(events), At(Run(events), t).depth;
            && (!s.flag ==>
                  var s' := Run(events + Repeated(Event(t, call), 8));
                  Back(s, s', t, 1) && At(s', t).answer == YES && Fields(s', true, true, t, 1))
            && (depth > 0 ==>
                  var s' := Run(events + Repeated(Event(t, call), 3));
                  Back(s, s', t, depth + 1) && At(s', t).answer == YES && Fields(s', true, true, t, depth + 1))
            && (s.flag && depth == 0 && call.TryLock? ==>
                  var s' := Run(events + Repeated(Event(t, call), 5));
                  && Back(s, s', t, 0) && At(s', t).answer == NO
                  && Fields(s', s.flag, s.isLocked, s.owner, s.count))
            && (s.flag && depth == 0 && call.Lock? ==>
                  forall k | k >= 3 :: At(Run(events + Repeated(Event(t, call), k)), t).pc.TestAndSet?)
  {
    hide Run, Alone, Repeated, Back, At;
    EveryRun(events);
    var s := Run(events);
    IdleMeans(s, t);
    AloneIsRun(events, t, call, 8);
    AloneIsRun(events, t, call, 5);
    AloneIsRun(events, t, call, 3);
    if !s.flag {
      NotesTheLock(s, t, call);
    } else if At(s, t).depth > 0 {
      CountsUp(s, t, call);
    } else if call.TryLock? {
      GivesUp(s, t);
    } else {
      forall k: nat | k >= 3
        ensures At(Run(events + Repeated(Event(t, call), k)), t).pc.TestAndSet?
      {
        AloneIsRun(events, t, call, k);
        Spins(s, t, k);
      }
    }
  }

  /** After any run an idle thread that moves alone gives up its only lock with five accesses, and one of
      several with two; clear_locks gives up all with five, and lock_count reads their number with two. A
      thread without locks is turned away at its first access. */
  lemma UnlocksAlone(events: seq<Event>, t: ThreadId, call: Call)
    requires forall e | e in events :: e.thread > 0
    requires t > 0 && At(Run(events), t).pc.Idle? && (call.Unlock? || call.ClearLocks? || call.LockCount?)
    ensures var s, depth := Run(events), At(Run(events), t).depth;
            && ((call.Unlock? && depth == 1) || (call.ClearLocks? && depth > 0) ==>
                  var s' := Run(events + Repeated(Event(t, call), 6));
                  Back(s, s', t, 0) && At(s', t).answer == YES && Fields(s', false, false, 0, 0))
            && (call.Unlock? && depth > 1 ==>
                  var s' := Run(events + Repeated(Event(t, call), 3));
                  Back(s, s', t, depth - 1) && Fields(s', true, true, t, depth - 1))
            && (call.LockCount? && depth > 0 ==>
                  var s' := Run(events + Repeated(Event(t, call), 3));
                  Back(s, s', t, depth) && At(s', t).answer == depth && Fields(s', true, true, t, depth))
            && (depth == 0 ==>
                  var s' := Run(events + Repeated(Event(t, call), 2));
                  && Back(s, s', t, 0) && At(s', t).answer == 0
                  && Fields(s', s.flag, s.isLocked, s.owner, s.count))
  {
    hide Run, Alone, Repeated, Back, At;
    EveryRun(events);
    var s := Run(events);
    IdleMeans(s, t);
    AloneIsRun(events, t, call, 6);
    AloneIsRun(events, t, call, 3);
    AloneIsRun(events, t, call, 2);
    if At(s, t).depth == 0 {
      IsNotTheOwner(s, t, call);
    } else if call.LockCount? {
      Reads(s, t);
    } else if call.ClearLocks? || At(s, t).depth == 1 {
      Leaves(s, t, call);
    } else {
      CountsDown(s, t);
    }
  }
}
