/** The phases of the hash tables: growing, inserting, removing and clearing, announced in four counters and
    guarded by the table's recursive lock, for any number of threads. One step for each access to a counter
    and each locking or unlocking, in any interleaving. */
module Phases {
  import opened Numbers

  type ThreadId = nat

  /** Wait is HASH_WAIT_FOR_CLEAR_AND_GROW, which has no phase of its own. */
  datatype Phase = Grow | Insert | Remove | Clear | Wait

  datatype Pc =
    | Idle
    | Announce      // grow: the counter is raised before the lock is taken
    | Acquire       // the lock guard, or the locking half of its reset
    | Test(k: nat)  // load the k-th counter of the loop condition
    | Drop          // the unlocking half of the guard's reset
    | Raise         // the counter of the phase is raised
    | Leave         // clear: the guard is cleared before the phase
    | Body          // in the phase
    | Lower         // the counter of the phase is lowered
    | Release       // the guard is cleared

  /** A thread: depth counts its locks now, outer those it held when it began. */
  datatype Local = Local(pc: Pc, phase: Phase, depth: nat, outer: nat)

  /** What a thread does when it is idle or in a body: begin a phase, or end it, or lock and unlock the table. */
  datatype Choice = Begin(phase: Phase) | TakeLock | DropLock | End

  datatype Counts = Counts(growing: int, inserting: int, removing: int, clearing: int)

  datatype State = State(counts: Counts, holder: ThreadId, threads: map<ThreadId, Local>)

  const AT_REST := Local(Idle, Wait, 0, 0)

  function Init(): State {
    State(Counts(0, 0, 0, 0), 0, map[])
  }

  function At(s: State, t: ThreadId): Local {
    if t in s.threads then s.threads[t] else AT_REST
  }

  function Value(c: Counts, phase: Phase): int {
    match phase
    case Grow => c.growing
    case Insert => c.inserting
    case Remove => c.removing
    case Clear => c.clearing
    case Wait => 0
  }

  function Added(c: Counts, phase: Phase, d: int): Counts {
    match phase
    case Grow => c.(growing := c.growing + d)
    case Insert => c.(inserting := c.inserting + d)
    case Remove => c.(removing := c.removing + d)
    case Clear => c.(clearing := c.clearing + d)
    case Wait => c
  }

  /** The counters a phase waits for, in the order in which they are loaded. */
  function Tests(phase: Phase): seq<Phase> {
    match phase
    case Grow => [Remove, Insert, Clear]
    case Insert => [Grow, Clear]
    case Remove => [Grow, Clear]
    case Clear => [Remove, Grow, Insert]
    case Wait => [Grow, Clear]
  }

  function Tested(l: Local): Phase {
    if l.pc.Test? && l.pc.k < |Tests(l.phase)| then Tests(l.phase)[l.pc.k] else Wait
  }

  /** After the last load. */
  function Entered(phase: Phase): Pc {
    match phase
    case Grow => Body
    case Wait => Release
    case _ => Raise
  }

  function FirstStep(phase: Phase): Pc {
    if phase == Grow then Announce else Acquire
  }

  /** The locks a body must keep. */
  function Floor(l: Local): nat {
    if l.pc.Idle? then 0 else if l.phase == Clear then l.outer else l.outer + 1
  }

  function LowerDepth(l: Local): Local {
    l.(depth := if l.depth > 0 then l.depth - 1 else 0)
  }

  /** Where the thread goes: free says that no other thread holds the lock, loaded is the counter it loads. */
  function Next(l: Local, free: bool, loaded: int, choice: Choice): Local {
    match l.pc
    case Idle => Chosen(l, free, choice)
    case Announce => l.(pc := Acquire)
    case Acquire => if free then l.(pc := Test(0), depth := l.depth + 1) else l
    case Test(k) =>
      l.(pc := if loaded != 0 then Drop else if k + 1 < |Tests(l.phase)| then Test(k + 1) else Entered(l.phase))
    case Drop => LowerDepth(l).(pc := Acquire)
    case Raise => l.(pc := if l.phase == Clear then Leave else Body)
    case Leave => LowerDepth(l).(pc := Body)
    case Body => Chosen(l, free, choice)
    case Lower => l.(pc := if l.phase == Clear then Idle else Release)
    case Release => LowerDepth(l).(pc := Idle)
  }

  function Chosen(l: Local, free: bool, choice: Choice): Local {
    match choice
    case Begin(phase) => if l.pc.Idle? then Local(FirstStep(phase), phase, l.depth, l.depth) else l
    case TakeLock => if free then l.(depth := l.depth + 1) else l
    case DropLock => if l.depth > Floor(l) then LowerDepth(l) else l
    case End => if l.pc.Body? && l.depth == Floor(l) then l.(pc := Lower) else l
  }

  function Change(l: Local): int {
    match l.pc
    case Announce => 1
    case Raise => 1
    case Lower => -1
    case _ => 0
  }

  function Step(s: State, t: ThreadId, choice: Choice): State {
    var l := At(s, t);
    var l' := Next(l, s.holder == 0 || s.holder == t, Value(s.counts, Tested(l)), choice);
    State(Added(s.counts, l.phase, Change(l)),
          if l'.depth > 0 then t else if s.holder == t then 0 else s.holder,
          s.threads[t := l'])
  }

  datatype Event = Event(thread: ThreadId, choice: Choice)

  ghost function Run(events: seq<Event>): State {
    if |events| == 0 then Init()
    else Step(Run(events[..|events| - 1]), events[|events| - 1].thread, events[|events| - 1].choice)
  }

  // ---- What holds in every state

  /** The thread is between the raising and the lowering of the counter. */
  predicate Counted(l: Local, phase: Phase) {
    && l.phase == phase
    && match phase
       case Grow => l.pc.Acquire? || l.pc.Test? || l.pc.Drop? || l.pc.Body? || l.pc.Lower?
       case Clear => l.pc.Leave? || l.pc.Body? || l.pc.Lower?
       case Wait => false
       case _ => l.pc.Body? || l.pc.Lower?
  }

  ghost function Members(s: State, phase: Phase): set<ThreadId> {
    set t | t in s.threads && Counted(s.threads[t], phase)
  }

  /** The thread is in the body of a grow, an insertion or a removal, or sure to enter it. */
  predicate Exclusive(l: Local) {
    (l.phase == Grow || l.phase == Insert || l.phase == Remove) && (l.pc.Raise? || l.pc.Body? || l.pc.Lower?)
  }

  predicate Clearing(l: Local) {
    Counted(l, Clear)
  }

  /** The locks of the thread at each access. */
  predicate DepthFits(l: Local) {
    match l.pc
    case Idle => true
    case Announce => l.depth == l.outer && l.phase == Grow
    case Acquire => l.depth == l.outer
    case Test(k) => l.depth == l.outer + 1 && k < |Tests(l.phase)|
    case Drop => l.depth == l.outer + 1
    case Raise => l.depth == l.outer + 1 && l.phase != Grow && l.phase != Wait
    case Leave => l.depth == l.outer + 1 && l.phase == Clear
    case Body => l.depth >= Floor(l) && l.phase != Wait
    case Lower => l.depth == Floor(l) && l.phase != Wait
    case Release => l.depth == l.outer + 1 && l.phase != Clear
  }

  /** What is true of a thread: the lock is its own if it has a depth, and nobody is clearing while it is in
      an exclusive body. */
  predicate Fits(l: Local, isHolder: bool, clearing: int) {
    && DepthFits(l)
    && (isHolder <==> l.depth > 0)
    && (Exclusive(l) ==> clearing == 0)
  }

  predicate FitsAt(s: State, t: ThreadId) {
    Fits(At(s, t), s.holder == t, s.counts.clearing)
  }

  ghost predicate Counting(s: State, phase: Phase) {
    Value(s.counts, phase) == |Members(s, phase)|
  }

  ghost predicate Inv(s: State) {
    && (forall t | t > 0 :: FitsAt(s, t))
    && (forall phase :: Counting(s, phase))
    && 0 !in s.threads
  }

  // ---- One step keeps it

  lemma NextDepthFits(l: Local, free: bool, loaded: int, choice: Choice)
    requires DepthFits(l)
    ensures DepthFits(Next(l, free, loaded, choice))
  {
  }

  /** An exclusive body begins after the load of a clearing counter that is zero, and under the lock. */
  lemma EntryIsChecked(l: Local, free: bool, loaded: int, choice: Choice)
    requires DepthFits(l) && Exclusive(Next(l, free, loaded, choice)) && !Exclusive(l)
    ensures Tested(l) == Clear && loaded == 0 && Change(l) == 0
  {
  }

  /** Exclusive bodies hold the lock, and so does a thread that raises the clearing counter. */
  lemma LockIsHeld(l: Local)
    requires DepthFits(l)
    ensures Exclusive(l) || (l.phase == Clear && Change(l) > 0) ==> l.depth > 0
    ensures l.phase == Clear && Change(l) < 0 ==> Clearing(l)
  {
  }

  lemma ClearingChanges(s: State, t: ThreadId, choice: Choice)
    ensures var l := At(s, t);
            Step(s, t, choice).counts.clearing == s.counts.clearing + if l.phase == Clear then Change(l) else 0
  {
  }

  lemma DepthNeedsTheLock(l: Local, free: bool, loaded: int, choice: Choice)
    ensures Next(l, free, loaded, choice).depth > 0 ==> l.depth > 0 || free
  {
  }

  lemma OwnStepFits(s: State, t: ThreadId, choice: Choice)
    requires t > 0 && FitsAt(s, t)
    ensures FitsAt(Step(s, t, choice), t)
  {
    hide DepthFits, Next, Exclusive, Change;
    var l, free, loaded := At(s, t), s.holder == 0 || s.holder == t, Value(s.counts, Tested(At(s, t)));
    NextDepthFits(l, free, loaded, choice);
    ClearingChanges(s, t, choice);
    StaysUnclear(l);
    if Exclusive(Next(l, free, loaded, choice)) && !Exclusive(l) {
      EntryIsChecked(l, free, loaded, choice);
    }
  }

  lemma StaysUnclear(l: Local)
    ensures Exclusive(l) ==> l.phase != Clear
  {
  }

  lemma OtherStepFits(s: State, t: ThreadId, choice: Choice, u: ThreadId)
    requires t > 0 && u > 0 && u != t && FitsAt(s, t) && FitsAt(s, u)
    requires s.counts.clearing >= 0 && (s.counts.clearing == 0 ==> !Clearing(At(s, t)))
    ensures FitsAt(Step(s, t, choice), u)
  {
    hide DepthFits, Next, Exclusive, Clearing;
    var l, free, loaded := At(s, t), s.holder == 0 || s.holder == t, Value(s.counts, Tested(At(s, t)));
    ClearingChanges(s, t, choice);
    DepthNeedsTheLock(l, free, loaded, choice);
    LockIsHeld(l);
    LockIsHeld(At(s, u));
    assert At(Step(s, t, choice), u) == At(s, u);
  }

  lemma CountedChanges(l: Local, free: bool, loaded: int, choice: Choice, phase: Phase)
    requires DepthFits(l)
    ensures (if Counted(Next(l, free, loaded, choice), phase) then 1 else 0) - (if Counted(l, phase) then 1 else 0)
            == if l.phase == phase && phase != Wait then Change(l) else 0
  {
  }

  lemma CountedMeans(s: State, phase: Phase)
    ensures forall u :: u in Members(s, phase) <==> Counted(At(s, u), phase)
  {
  }

  lemma MembersAfter(s: State, s': State, t: ThreadId, phase: Phase)
    requires forall u | u != t :: At(s', u) == At(s, u)
    ensures |Members(s', phase)| == |Members(s, phase)| + (if Counted(At(s', t), phase) then 1 else 0)
            - (if Counted(At(s, t), phase) then 1 else 0)
  {
    hide Counted, Members, At;
    CountedMeans(s, phase);
    CountedMeans(s', phase);
    assert Members(s', phase) == if Counted(At(s', t), phase) then Members(s, phase) + {t} else Members(s, phase) - {t};
    SizeWith(Members(s, phase), t);
  }

  lemma StepCounts(s: State, t: ThreadId, choice: Choice, phase: Phase)
    requires DepthFits(At(s, t)) && Counting(s, phase)
    ensures Counting(Step(s, t, choice), phase)
  {
    hide DepthFits, Next, Counted, Members, Change;
    var l, s' := At(s, t), Step(s, t, choice);
    CountedChanges(l, s.holder == 0 || s.holder == t, Value(s.counts, Tested(l)), choice, phase);
    MembersAfter(s, s', t, phase);
  }

  lemma NobodyClears(s: State, t: ThreadId)
    requires Counting(s, Clear)
    ensures s.counts.clearing >= 0 && (s.counts.clearing == 0 ==> !Clearing(At(s, t)))
  {
    CountedMeans(s, Clear);
  }

  lemma StepKeepsInv(s: State, t: ThreadId, choice: Choice)
    requires t > 0 && Inv(s)
    ensures Inv(Step(s, t, choice))
  {
    hide Step, Fits, Counting, Clearing;
    var s' := Step(s, t, choice);
    assert FitsAt(s, t) && Counting(s, Clear);
    NobodyClears(s, t);
    forall u | u > 0
      ensures FitsAt(s', u)
    {
      assert FitsAt(s, u);
      if u == t {
        OwnStepFits(s, t, choice);
      } else {
        OtherStepFits(s, t, choice, u);
      }
    }
    forall phase
      ensures Counting(s', phase)
    {
      DepthOf(s, t);
      assert Counting(s, phase);
      StepCounts(s, t, choice, phase);
    }
    OnlyRealThreads(s, t, choice);
  }

  lemma DepthOf(s: State, t: ThreadId)
    requires FitsAt(s, t)
    ensures DepthFits(At(s, t))
  {
  }

  lemma OnlyRealThreads(s: State, t: ThreadId, choice: Choice)
    requires t > 0 && 0 !in s.threads
    ensures 0 !in Step(s, t, choice).threads
  {
  }

  lemma InitInv(s: State)
    requires s == Init()
    ensures Inv(s)
  {
    hide Fits, Counted, Inv;
    RestFits(AT_REST);
    forall t
      ensures At(s, t) == AT_REST
    {
    }
    forall phase
      ensures Counting(s, phase)
    {
      CountedMeans(s, phase);
      assert Members(s, phase) == {};
    }
    InvHolds(s);
  }

  lemma RestFits(l: Local)
    requires l == AT_REST
    ensures Fits(l, false, 0) && forall phase :: !Counted(l, phase)
  {
  }

  lemma InvHolds(s: State)
    requires (forall t | t > 0 :: FitsAt(s, t)) && (forall phase :: Counting(s, phase)) && 0 !in s.threads
    ensures Inv(s)
  {
  }

  // ---- Every run

  /** All of it holds after every interleaving of any threads' steps. */
  lemma {:induction false} EveryRun(events: seq<Event>)
    requires forall e | e in events :: e.thread > 0
    ensures Inv(Run(events))
  {
    hide Inv, Step;
    if |events| == 0 {
      InitInv(Init());
    } else {
      var before := events[..|events| - 1];
      EveryRun(before);
      StepKeepsInv(Run(before), events[|events| - 1].thread, events[|events| - 1].choice);
    }
  }

  predicate InBody(l: Local, phase: Phase) {
    l.pc.Body? && l.phase == phase
  }

  predicate InExclusiveBody(l: Local) {
    InBody(l, Grow) || InBody(l, Insert) || InBody(l, Remove)
  }

  /** At most one thread is in the body of a grow, an insertion or a removal. While a thread is in the body
      of a clear, no thread is in any of those. */
  lemma PhaseExclusion(events: seq<Event>, t: ThreadId, u: ThreadId)
    requires forall e | e in events :: e.thread > 0
    requires t > 0 && u > 0 && InExclusiveBody(At(Run(events), t))
    ensures InExclusiveBody(At(Run(events), u)) ==> t == u
    ensures !InBody(At(Run(events), u), Clear)
  {
    hide Run;
    EveryRun(events);
    var s := Run(events);
    assert FitsAt(s, t) && FitsAt(s, u) && Counting(s, Clear);
    NobodyClears(s, u);
  }

  /** Each counter is the number of threads between its raising and its lowering; the counters of
      insertions and removals are never above one, nor both raised. */
  lemma CountersMeanThreads(events: seq<Event>, phase: Phase)
    requires forall e | e in events :: e.thread > 0
    ensures Value(Run(events).counts, phase) == |Members(Run(events), phase)|
    ensures Run(events).counts.inserting + Run(events).counts.removing <= 1
  {
    hide Run, Members;
    EveryRun(events);
    var s := Run(events);
    assert Counting(s, phase) && Counting(s, Insert) && Counting(s, Remove);
    var inserting, removing := Members(s, Insert), Members(s, Remove);
    forall t, u | t in inserting + removing && u in inserting + removing
      ensures t == u
    {
      HoldsTheLock(s, t);
      HoldsTheLock(s, u);
    }
    NoneInBoth(s);
    OneAtMost(inserting + removing);
  }

  lemma HoldsTheLock(s: State, t: ThreadId)
    requires Inv(s) && t in Members(s, Insert) + Members(s, Remove)
    ensures s.holder == t
  {
    assert FitsAt(s, t);
  }

  lemma NoneInBoth(s: State)
    ensures Members(s, Insert) * Members(s, Remove) == {}
  {
  }

  lemma OneAtMost(a: set<ThreadId>)
    requires forall t, u | t in a && u in a :: t == u
    ensures |a| <= 1
  {
    if a != {} {
      var t :| t in a;
      assert a == {t};
    }
  }
}
