/** What runs of the phases come to: which phase waits for which, and that a phase begins and ends for a
    thread that moves alone. */
module PhaseRuns {
  import opened Phases

  /** The phase p does not begin while a thread is counted in the phase q. */
  predicate WaitsFor(p: Phase, q: Phase) {
    match q
    case Grow => p != Grow
    case Clear => p != Clear
    case Insert => p == Grow || p == Clear
    case Remove => p == Grow || p == Clear
    case Wait => false
  }

  /** The thread has begun the phase and has not passed its tests. */
  predicate IsWaiting(l: Local, p: Phase) {
    l.phase == p && (l.pc.Announce? || l.pc.Acquire? || l.pc.Test? || l.pc.Drop?)
  }

  // ---- One event of a run

  lemma RunOn(events: seq<Event>, more: seq<Event>, m: nat)
    requires m < |more|
    ensures Run(events + more[..m + 1]) == Step(Run(events + more[..m]), more[m].thread, more[m].choice)
  {
    hide Step;
    var all := events + more[..m + 1];
    assert all[..|all| - 1] == events + more[..m];
  }

  lemma OthersStay(s: State, t: ThreadId, u: ThreadId, choice: Choice)
    requires u != t
    ensures At(Step(s, u, choice), t) == At(s, t)
  {
  }

  lemma {:induction false} Rests(events: seq<Event>, more: seq<Event>, u: ThreadId, m: nat)
    requires m <= |more| && forall e | e in more :: e.thread != u
    ensures At(Run(events + more[..m]), u) == At(Run(events), u)
  {
    hide Step, At, Run;
    if m == 0 {
      assert events + more[..0] == events;
    } else {
      Rests(events, more, u, m - 1);
      RunOn(events, more, m - 1);
      OthersStay(Run(events + more[..m - 1]), u, more[m - 1].thread, more[m - 1].choice);
    }
  }

  // ---- Who waits for whom

  /** The counter of q is among those the thread has still to load. */
  predicate StillToLoad(l: Local, q: Phase) {
    l.pc.Test? ==> l.pc.k < |Tests(l.phase)| && q in Tests(l.phase)[l.pc.k..]
  }

  lemma NextIsWaiting(l: Local, p: Phase, q: Phase, free: bool, loaded: int, choice: Choice)
    requires WaitsFor(p, q) && IsWaiting(l, p) && StillToLoad(l, q) && (Tested(l) == q ==> loaded != 0)
    ensures IsWaiting(Next(l, free, loaded, choice), p) && StillToLoad(Next(l, free, loaded, choice), q)
  {
  }

  lemma BeginsToWait(s: State, t: ThreadId, p: Phase, q: Phase)
    requires At(s, t).pc.Idle?
    ensures var l := At(Step(s, t, Begin(p)), t); IsWaiting(l, p) && StillToLoad(l, q)
  {
  }

  lemma CountedRaises(s: State, u: ThreadId, q: Phase)
    requires Inv(s) && Counted(At(s, u), q)
    ensures Value(s.counts, q) >= 1
  {
    hide Counted, At;
    assert Counting(s, q);
    CountedMeans(s, q);
    assert u in Members(s, q);
  }

  lemma StepIsWaiting(s: State, t: ThreadId, u: ThreadId, p: Phase, q: Phase, choice: Choice)
    requires Inv(s) && Counted(At(s, u), q) && WaitsFor(p, q) && IsWaiting(At(s, t), p) && StillToLoad(At(s, t), q)
    ensures var l := At(Step(s, t, choice), t); IsWaiting(l, p) && StillToLoad(l, q)
  {
    hide Inv, Counted, Next, IsWaiting, StillToLoad;
    CountedRaises(s, u, q);
    var l := At(s, t);
    NextIsWaiting(l, p, q, s.holder == 0 || s.holder == t, Value(s.counts, Tested(l)), choice);
  }

  lemma {:induction false} KeepsWaiting(events: seq<Event>, more: seq<Event>, t: ThreadId, u: ThreadId, p: Phase,
                                        q: Phase, n: nat, m: nat)
    requires (forall e | e in events :: e.thread > 0) && forall e | e in more :: e.thread > 0 && e.thread != u
    requires Counted(At(Run(events), u), q) && WaitsFor(p, q)
    requires n < m <= |more| && more[n] == Event(t, Begin(p)) && At(Run(events + more[..n]), t).pc.Idle?
    ensures var l := At(Run(events + more[..m]), t); IsWaiting(l, p) && StillToLoad(l, q)
  {
    hide Run, Step, At, Inv, Counted, IsWaiting, StillToLoad, WaitsFor;
    var s := Run(events + more[..m - 1]);
    RunOn(events, more, m - 1);
    if m == n + 1 {
      BeginsToWait(s, t, p, q);
    } else {
      KeepsWaiting(events, more, t, u, p, q, n, m - 1);
      EveryRun(events + more[..m - 1]);
      Rests(events, more, u, m - 1);
      if more[m - 1].thread == t {
        StepIsWaiting(s, t, u, p, q, more[m - 1].choice);
      } else {
        OthersStay(s, t, more[m - 1].thread, more[m - 1].choice);
      }
    }
  }

  /** A thread that begins a phase while another one is counted in a phase it waits for does not get past its
      tests as long as the other one makes no step, whatever all others do: insertions, removals, clears and
      waits stay outside from the first access of a grow on, grows, insertions, removals and waits during a
      clear, and grows and clears during an insertion or a removal. */
  lemma PhasesWait(events: seq<Event>, more: seq<Event>, t: ThreadId, u: ThreadId, p: Phase, q: Phase, n: nat)
    requires (forall e | e in events :: e.thread > 0) && forall e | e in more :: e.thread > 0 && e.thread != u
    requires Counted(At(Run(events), u), q)
    requires || (q == Grow && p != Grow) || (q == Clear && p != Clear)
             || ((q == Insert || q == Remove) && (p == Grow || p == Clear))
    requires n < |more| && more[n] == Event(t, Begin(p)) && At(Run(events + more[..n]), t).pc.Idle?
    ensures var l := At(Run(events + more), t);
            l.phase == p && (l.pc.Announce? || l.pc.Acquire? || l.pc.Test? || l.pc.Drop?)
  {
    hide Run, At, Counted, StillToLoad;
    assert more[..|more|] == more;
    KeepsWaiting(events, more, t, u, p, q, n, |more|);
  }

  // ---- A thread that moves alone

  function Alone(s: State, t: ThreadId, choice: Choice, k: nat): State {
    if k == 0 then s else Step(Alone(s, t, choice, k - 1), t, choice)
  }

  function Repeated(e: Event, k: nat): (r: seq<Event>)
    ensures forall d | d in r :: d == e
  {
    if k == 0 then [] else Repeated(e, k - 1) + [e]
  }

  /** A thread that moves alone after a run continues that run. */
  lemma {:induction false} AloneIsRun(events: seq<Event>, t: ThreadId, choice: Choice, k: nat)
    ensures Alone(Run(events), t, choice, k) == Run(events + Repeated(Event(t, choice), k))
  {
    hide Step;
    var all := events + Repeated(Event(t, choice), k);
    if k == 0 {
      assert all == events;
    } else {
      AloneIsRun(events, t, choice, k - 1);
      assert all[..|all| - 1] == events + Repeated(Event(t, choice), k - 1);
    }
  }

  lemma GoesOn(s: State, t: ThreadId, choice: Choice, k: nat)
    ensures Alone(s, t, choice, 0) == s
    ensures var x, y := Alone(s, t, choice, k), Alone(s, t, choice, k + 1);
            var l := At(x, t);
            && At(y, t) == Next(l, x.holder == 0 || x.holder == t, Value(x.counts, Tested(l)), choice)
            && y.counts == Added(x.counts, l.phase, Change(l))
            && y.holder == (if At(y, t).depth > 0 then t else if x.holder == t then 0 else x.holder)
            && forall u | u != t :: At(y, u) == At(x, u)
  {
  }

  /** No counter is raised for which the phase waits. */
  predicate IsOpen(c: Counts, p: Phase) {
    forall q | WaitsFor(p, q) :: Value(c, q) == 0
  }

  lemma OpenMeans(c: Counts, p: Phase)
    ensures IsOpen(c, p) <==> && (p != Grow ==> c.growing == 0) && (p != Clear ==> c.clearing == 0)
                              && (p == Grow || p == Clear ==> c.inserting == 0 && c.removing == 0)
  {
    if IsOpen(c, p) {
      assert WaitsFor(p, Grow) ==> Value(c, Grow) == 0;
      assert WaitsFor(p, Clear) ==> Value(c, Clear) == 0;
      assert WaitsFor(p, Insert) ==> Value(c, Insert) == 0;
      assert WaitsFor(p, Remove) ==> Value(c, Remove) == 0;
    }
  }

  predicate Ready(s: State, t: ThreadId) {
    At(s, t).pc.Idle? && (s.holder == 0 || s.holder == t) && (s.holder == t <==> At(s, t).depth > 0)
  }

  /** The thread is in the phase at the given place, with the given locks, and nobody else has moved. */
  ghost predicate Comes(s: State, s': State, t: ThreadId, l: Local, counts: Counts) {
    && At(s', t) == l && s'.counts == counts && s'.holder == (if l.depth > 0 then t else 0)
    && forall u | u != t :: At(s', u) == At(s, u)
  }

  lemma Announces(s: State, t: ThreadId)
    requires Ready(s, t)
    ensures var d := At(s, t).depth;
            Comes(s, Alone(s, t, Begin(Grow), 2), t, Local(Acquire, Grow, d, d), Added(s.counts, Grow, 1))
  {
    hide Alone, At;
    GoesOn(s, t, Begin(Grow), 0);
    GoesOn(s, t, Begin(Grow), 1);
  }

  lemma GrowBegins(s: State, t: ThreadId)
    requires Ready(s, t) && IsOpen(s.counts, Grow)
    ensures var d := At(s, t).depth;
            Comes(s, Alone(s, t, Begin(Grow), 6), t, Local(Body, Grow, d + 1, d), Added(s.counts, Grow, 1))
  {
    hide Alone, At, IsOpen;
    OpenMeans(s.counts, Grow);
    Announces(s, t);
    GoesOn(s, t, Begin(Grow), 2);
    GoesOn(s, t, Begin(Grow), 3);
    GoesOn(s, t, Begin(Grow), 4);
    GoesOn(s, t, Begin(Grow), 5);
  }

  /** The others take the lock with their first access. */
  lemma Acquires(s: State, t: ThreadId, p: Phase)
    requires Ready(s, t) && p != Grow
    ensures var d := At(s, t).depth;
            Comes(s, Alone(s, t, Begin(p), 2), t, Local(Test(0), p, d + 1, d), s.counts)
  {
    hide Alone, At;
    GoesOn(s, t, Begin(p), 0);
    GoesOn(s, t, Begin(p), 1);
  }

  lemma ChangeBegins(s: State, t: ThreadId, p: Phase)
    requires Ready(s, t) && IsOpen(s.counts, p) && (p == Insert || p == Remove)
    ensures var d := At(s, t).depth;
            Comes(s, Alone(s, t, Begin(p), 5), t, Local(Body, p, d + 1, d), Added(s.counts, p, 1))
  {
    hide Alone, At, Ready, IsOpen;
    OpenMeans(s.counts, p);
    Acquires(s, t, p);
    GoesOn(s, t, Begin(p), 2);
    GoesOn(s, t, Begin(p), 3);
    GoesOn(s, t, Begin(p), 4);
  }

  lemma ClearPassesItsTests(s: State, t: ThreadId)
    requires Ready(s, t) && IsOpen(s.counts, Clear)
    ensures var d := At(s, t).depth;
            Comes(s, Alone(s, t, Begin(Clear), 5), t, Local(Raise, Clear, d + 1, d), s.counts)
  {
    hide Alone, At, Ready, IsOpen;
    OpenMeans(s.counts, Clear);
    Acquires(s, t, Clear);
    GoesOn(s, t, Begin(Clear), 2);
    GoesOn(s, t, Begin(Clear), 3);
    GoesOn(s, t, Begin(Clear), 4);
  }

  lemma ClearBegins(s: State, t: ThreadId)
    requires Ready(s, t) && IsOpen(s.counts, Clear)
    ensures var d := At(s, t).depth;
            Comes(s, Alone(s, t, Begin(Clear), 7), t, Local(Body, Clear, d, d), Added(s.counts, Clear, 1))
  {
    hide Alone, At, Ready, IsOpen;
    ClearPassesItsTests(s, t);
    GoesOn(s, t, Begin(Clear), 5);
    GoesOn(s, t, Begin(Clear), 6);
  }

  lemma WaitPasses(s: State, t: ThreadId)
    requires Ready(s, t) && IsOpen(s.counts, Wait)
    ensures var d := At(s, t).depth;
            Comes(s, Alone(s, t, Begin(Wait), 5), t, Local(Idle, Wait, d, d), s.counts)
  {
    hide Alone, At, IsOpen;
    OpenMeans(s.counts, Wait);
    Acquires(s, t, Wait);
    GoesOn(s, t, Begin(Wait), 2);
    GoesOn(s, t, Begin(Wait), 3);
    GoesOn(s, t, Begin(Wait), 4);
  }

  lemma EndsAlone(s: State, t: ThreadId, p: Phase)
    requires var l := At(s, t); l.pc.Body? && l.phase == p && p != Wait && l.depth == Floor(l)
    requires s.holder == t <==> At(s, t).depth > 0
    requires s.holder != 0 ==> s.holder == t
    ensures var l := At(s, t);
            Comes(s, Alone(s, t, End, if p == Clear then 2 else 3), t, l.(pc := Idle, depth := l.outer),
                  Added(s.counts, p, -1))
  {
    hide Alone, At;
    GoesOn(s, t, End, 0);
    GoesOn(s, t, End, 1);
    GoesOn(s, t, End, 2);
  }

  lemma IsReady(events: seq<Event>, t: ThreadId)
    requires t > 0 && forall e | e in events :: e.thread > 0
    ensures Run(events).holder == t <==> At(Run(events), t).depth > 0
  {
    hide Run;
    EveryRun(events);
    assert FitsAt(Run(events), t);
  }

  /** After any run an idle thread that moves alone, with the lock free or its own, comes to the body of its
      phase if no counter is raised for which the phase waits. Its counter is raised by then, of a grow with
      its first access, and the body of a clear alone is without a lock of the phase. */
  lemma PhaseBegins(events: seq<Event>, t: ThreadId, p: Phase)
    requires t > 0 && forall e | e in events :: e.thread > 0
    requires At(Run(events), t).pc.Idle? && (Run(events).holder == 0 || Run(events).holder == t)
    requires var c := Run(events).counts;
             && (p != Grow ==> c.growing == 0) && (p != Clear ==> c.clearing == 0)
             && (p == Grow || p == Clear ==> c.inserting == 0 && c.removing == 0)
    ensures var s, d, e := Run(events), At(Run(events), t).depth, Event(t, Begin(p));
            match p
            case Grow =>
              var counts := s.counts.(growing := s.counts.growing + 1);
              && Comes(s, Run(events + Repeated(e, 2)), t, Local(Acquire, p, d, d), counts)
              && Comes(s, Run(events + Repeated(e, 6)), t, Local(Body, p, d + 1, d), counts)
            case Insert =>
              var counts := s.counts.(inserting := s.counts.inserting + 1);
              Comes(s, Run(events + Repeated(e, 5)), t, Local(Body, p, d + 1, d), counts)
            case Remove =>
              var counts := s.counts.(removing := s.counts.removing + 1);
              Comes(s, Run(events + Repeated(e, 5)), t, Local(Body, p, d + 1, d), counts)
            case Clear =>
              var counts := s.counts.(clearing := s.counts.clearing + 1);
              Comes(s, Run(events + Repeated(e, 7)), t, Local(Body, p, d, d), counts)
            case Wait => Comes(s, Run(events + Repeated(e, 5)), t, Local(Idle, p, d, d), s.counts)
  {
    hide Run, Alone, Repeated, Comes, At, IsOpen;
    OpenMeans(Run(events).counts, p);
    IsReady(events, t);
    var s := Run(events);
    match p
    case Grow =>
      AloneIsRun(events, t, Begin(p), 2);
      AloneIsRun(events, t, Begin(p), 6);
      Announces(s, t);
      GrowBegins(s, t);
    case Insert =>
      AloneIsRun(events, t, Begin(p), 5);
      ChangeBegins(s, t, p);
    case Remove =>
      AloneIsRun(events, t, Begin(p), 5);
      ChangeBegins(s, t, p);
    case Clear =>
      AloneIsRun(events, t, Begin(p), 7);
      ClearBegins(s, t);
    case Wait =>
      AloneIsRun(events, t, Begin(p), 5);
      WaitPasses(s, t);
  }

  /** From its body, with the locks it had there at first, it is back after three steps, or two of a clear, with
      the locks it had before the phase and the counter lowered. */
  lemma PhaseEnds(events: seq<Event>, t: ThreadId, p: Phase)
    requires t > 0 && forall e | e in events :: e.thread > 0
    requires InBody(At(Run(events), t), p) && p != Wait
    requires var l := At(Run(events), t); l.depth == l.outer + if p == Clear then 0 else 1
    requires Run(events).holder == 0 || Run(events).holder == t
    ensures var s, d := Run(events), At(Run(events), t).outer;
            var s' := Run(events + Repeated(Event(t, End), if p == Clear then 2 else 3));
            Comes(s, s', t, Local(Idle, p, d, d), Added(s.counts, p, -1))
  {
    hide Run, Alone, Repeated, Comes, At;
    IsReady(events, t);
    AloneIsRun(events, t, End, if p == Clear then 2 else 3);
    EndsAlone(Run(events), t, p);
  }
}
