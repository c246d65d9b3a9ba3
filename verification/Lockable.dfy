/** CLockable with locking enabled: a recursive spinlock used by any number of threads, one step for each
    atomic access to its fields, in any interleaving. */
module Lockable {
  import opened Numbers

  type ThreadId = nat

  datatype Call = NoCall | Lock | TryLock | Unlock | ClearLocks | LockCount

  /** The access a thread makes next. */
  datatype Pc =
    | Idle          // in no method
    | CheckOwner    // lock, try_lock: compare CL_Thread_ID
    | RaiseWaiting  // CL_Waiting++
    | TestAndSet    // CL_Lock.test_and_set()
    | MarkLocked    // CL_Is_Locked := true
    | StoreOwner    // CL_Thread_ID := ctid
    | StoreCount    // CL_Lock_Count := 1
    | LowerWaiting(granted: bool) // CL_Waiting--
    | RaiseCount    // CL_Lock_Count.fetch_add
    | CheckUnlock   // unlock: compare CL_Thread_ID
    | LowerCount    // CL_Lock_Count.fetch_sub
    | CheckClear    // clear_locks: compare CL_Thread_ID
    | ZeroCount     // CL_Lock_Count := 0
    | DropOwner     // unlock, clear_locks: CL_Thread_ID := 0
    | MarkFree      // CL_Is_Locked := false
    | ClearFlag     // CL_Lock.clear()
    | CheckCount    // lock_count: compare CL_Thread_ID
    | ReadCount     // CL_Lock_Count.load()

  /** A thread: where it is in which call, the locks it holds now and held when the call began, and what its
      last call answered. */
  datatype Local = Local(pc: Pc, call: Call, depth: nat, before: nat, answer: int)

  datatype State =
    State(flag: bool, isLocked: bool, owner: ThreadId, count: int, waiting: int, threads: map<ThreadId, Local>)

  /** A thread that has not called anything yet. */
  const AT_REST := Local(Idle, NoCall, 0, 0, 0)

  const YES := 1
  const NO := 0

  function Init(): State {
    State(false, false, 0, 0, 0, map[])
  }

  function At(s: State, t: ThreadId): Local {
    if t in s.threads then s.threads[t] else AT_REST
  }

  function FirstStep(call: Call): Pc {
    match call
    case NoCall => Idle
    case Lock => CheckOwner
    case TryLock => CheckOwner
    case Unlock => CheckUnlock
    case ClearLocks => CheckClear
    case LockCount => CheckCount
  }

  /** What the access does to the fields. */
  function Effect(s: State, t: ThreadId, pc: Pc): State {
    match pc
    case RaiseWaiting => s.(waiting := s.waiting + 1)
    case TestAndSet => s.(flag := true)
    case MarkLocked => s.(isLocked := true)
    case StoreOwner => s.(owner := t)
    case StoreCount => s.(count := 1)
    case LowerWaiting(_) => s.(waiting := s.waiting - 1)
    case RaiseCount => s.(count := s.count + 1)
    case LowerCount => s.(count := s.count - 1)
    case ZeroCount => s.(count := 0)
    case DropOwner => s.(owner := 0)
    case MarkFree => s.(isLocked := false)
    case ClearFlag => s.(flag := false)
    case _ => s
  }

  /** Where the thread goes, from what its access has found; an idle thread begins the call. */
  function Next(l: Local, flag: bool, isOwner: bool, count: int, call: Call): Local {
    match l.pc
    case Idle => Local(FirstStep(call), call, l.depth, l.depth, 0)
    case CheckOwner => l.(pc := if isOwner then RaiseCount else RaiseWaiting)
    case RaiseWaiting => l.(pc := TestAndSet)
    case TestAndSet =>
      if !flag then l.(pc := MarkLocked)
      else if l.call.TryLock? then l.(pc := LowerWaiting(false))
      else l
    case MarkLocked => l.(pc := StoreOwner)
    case StoreOwner => l.(pc := StoreCount)
    case StoreCount => l.(pc := LowerWaiting(true), depth := 1)
    case LowerWaiting(granted) => l.(pc := Idle, answer := if granted then YES else NO)
    case RaiseCount => l.(pc := Idle, depth := l.depth + 1, answer := YES)
    case CheckUnlock => l.(pc := if isOwner then LowerCount else Idle)
    case LowerCount => l.(pc := if count == 1 then DropOwner else Idle, depth := if l.depth > 0 then l.depth - 1 else 0)
    case CheckClear => if isOwner then l.(pc := ZeroCount) else l.(pc := Idle, answer := NO)
    case ZeroCount => l.(pc := DropOwner, depth := 0)
    case DropOwner => l.(pc := MarkFree)
    case MarkFree => l.(pc := ClearFlag)
    case ClearFlag => l.(pc := Idle, answer := YES)
    case CheckCount => if isOwner then l.(pc := ReadCount) else l.(pc := Idle, answer := 0)
    case ReadCount => l.(pc := Idle, answer := count)
  }

  /** One step of a thread. */
  function Step(s: State, t: ThreadId, call: Call): State {
    var l := At(s, t);
    Effect(s, t, l.pc).(threads := s.threads[t := Next(l, s.flag, t == s.owner, s.count, call)])
  }

  /** A step of a run: which thread moves, and what it calls if it is idle. */
  datatype Event = Event(thread: ThreadId, call: Call)

  ghost function Run(events: seq<Event>): State
    requires forall e | e in events :: e.thread > 0
  {
    if |events| == 0 then Init()
    else Step(Run(events[..|events| - 1]), events[|events| - 1].thread, events[|events| - 1].call)
  }

  // ---- What holds in every state

  /** The thread is behind its test-and-set, and before it clears the flag. */
  predicate Inside(l: Local) {
    l.depth > 0 || l.pc.MarkLocked? || l.pc.StoreOwner? || l.pc.StoreCount? || l.pc.DropOwner? || l.pc.MarkFree?
    || l.pc.ClearFlag?
  }

  /** The thread's id is in CL_Thread_ID. */
  predicate HasId(l: Local) {
    l.depth > 0 || l.pc.StoreCount? || l.pc.DropOwner?
  }

  /** The thread is inside and has marked the object as locked. */
  predicate HasMarked(l: Local) {
    l.depth > 0 || l.pc.StoreOwner? || l.pc.StoreCount? || l.pc.DropOwner? || l.pc.MarkFree?
  }

  /** The thread is counted in CL_Waiting. */
  predicate Attempting(l: Local) {
    l.pc.TestAndSet? || l.pc.MarkLocked? || l.pc.StoreOwner? || l.pc.StoreCount? || l.pc.LowerWaiting?
  }

  ghost function Attempts(s: State): set<ThreadId> {
    set t | t in s.threads && Attempting(s.threads[t])
  }

  /** What each call has done to the depth of its own thread when it returns. */
  predicate Done(l: Local) {
    match l.call
    case NoCall => l.depth == l.before
    case Lock => l.depth == l.before + 1
    case TryLock => if l.answer == YES then l.depth == l.before + 1 else l.answer == NO && l.depth == l.before == 0
    case Unlock => l.depth == if l.before > 0 then l.before - 1 else 0
    case ClearLocks => l.depth == 0 && l.answer == if l.before > 0 then YES else NO
    case LockCount => l.depth == l.before == l.answer
  }

  /** What is true of a thread at each access. */
  predicate OnTheWay(l: Local) {
    match l.pc
    case Idle => Done(l)
    case CheckOwner => (l.call.Lock? || l.call.TryLock?) && l.depth == l.before
    case RaiseWaiting => (l.call.Lock? || l.call.TryLock?) && l.depth == l.before == 0
    case TestAndSet => (l.call.Lock? || l.call.TryLock?) && l.depth == l.before == 0
    case MarkLocked => (l.call.Lock? || l.call.TryLock?) && l.depth == l.before == 0
    case StoreOwner => (l.call.Lock? || l.call.TryLock?) && l.depth == l.before == 0
    case StoreCount => (l.call.Lock? || l.call.TryLock?) && l.depth == l.before == 0
    case LowerWaiting(granted) =>
      if granted then (l.call.Lock? || l.call.TryLock?) && l.before == 0 && l.depth == 1
      else l.call.TryLock? && l.depth == l.before == 0
    case RaiseCount => (l.call.Lock? || l.call.TryLock?) && l.depth == l.before > 0
    case CheckUnlock => l.call.Unlock? && l.depth == l.before
    case LowerCount => l.call.Unlock? && l.depth == l.before > 0
    case CheckClear => l.call.ClearLocks? && l.depth == l.before
    case ZeroCount => l.call.ClearLocks? && l.depth == l.before > 0
    case DropOwner => Releasing(l)
    case MarkFree => Releasing(l)
    case ClearFlag => Releasing(l)
    case CheckCount => l.call.LockCount? && l.depth == l.before
    case ReadCount => l.call.LockCount? && l.depth == l.before > 0
  }

  predicate Releasing(l: Local) {
    l.depth == 0 && (if l.call.Unlock? then l.before == 1 else l.call.ClearLocks? && l.before > 0)
  }

  /** What the fields say of a thread. */
  predicate Fits(l: Local, flag: bool, isLocked: bool, isOwner: bool, count: int) {
    OnTheWay(l) && FieldsFit(l, flag, isLocked, isOwner, count)
  }

  predicate FieldsFit(l: Local, flag: bool, isLocked: bool, isOwner: bool, count: int) {
    && (Inside(l) ==> flag && count == l.depth && isLocked == HasMarked(l))
    && (isOwner <==> HasId(l))
  }

  predicate FitsAt(s: State, t: ThreadId) {
    Fits(At(s, t), s.flag, s.isLocked, s.owner == t, s.count)
  }

  ghost predicate Exclusive(s: State) {
    forall t, u | Inside(At(s, t)) && Inside(At(s, u)) :: t == u
  }

  ghost predicate Inv(s: State) {
    && (forall t | t > 0 :: FitsAt(s, t))
    && Exclusive(s)
    && (s.flag ==> exists t :: t > 0 && Inside(At(s, t)))
    && (!s.flag ==> s.count == 0 && !s.isLocked)
    && s.waiting == |Attempts(s)|
    && 0 !in s.threads
  }

  // ---- One step keeps it

  lemma NextOnTheWay(l: Local, flag: bool, isOwner: bool, count: int, call: Call)
    requires OnTheWay(l) && (isOwner <==> HasId(l)) && (Inside(l) ==> count == l.depth)
    ensures OnTheWay(Next(l, flag, isOwner, count, call))
  {
  }

  /** A thread's own step, seen from the thread. */
  lemma OwnStepFits(s: State, t: ThreadId, call: Call)
    requires t > 0 && FitsAt(s, t) && (!s.flag ==> s.count == 0 && !s.isLocked)
    ensures FitsAt(Step(s, t, call), t)
  {
    hide OnTheWay, FieldsFit, Effect, Next;
    var l, s' := At(s, t), Step(s, t, call);
    FieldsMean(l, s.flag, s.isLocked, s.owner == t, s.count);
    NextOnTheWay(l, s.flag, s.owner == t, s.count, call);
    NextFieldsFit(s, t, l, call);
    assert At(s', t) == Next(l, s.flag, s.owner == t, s.count, call);
  }

  lemma FieldsMean(l: Local, flag: bool, isLocked: bool, isOwner: bool, count: int)
    requires FieldsFit(l, flag, isLocked, isOwner, count)
    ensures (isOwner <==> HasId(l)) && (Inside(l) ==> count == l.depth)
  {
  }

  lemma NextFieldsFit(s: State, t: ThreadId, l: Local, call: Call)
    requires t > 0 && Fits(l, s.flag, s.isLocked, s.owner == t, s.count) && (!s.flag ==> s.count == 0 && !s.isLocked)
    ensures var e := Effect(s, t, l.pc);
            FieldsFit(Next(l, s.flag, s.owner == t, s.count, call), e.flag, e.isLocked, e.owner == t, e.count)
  {
    hide Done;
  }

  /** A step of another thread, seen from the thread. */
  lemma OtherStepFits(s: State, t: ThreadId, call: Call, u: ThreadId)
    requires t > 0 && u > 0 && u != t && FitsAt(s, u) && FitsAt(s, t)
    requires !(Inside(At(s, t)) && Inside(At(s, u)))
    ensures At(Step(s, t, call), u) == At(s, u) && FitsAt(Step(s, t, call), u)
  {
  }

  /** Only a test-and-set that finds the flag clear lets a thread in, and only the clearing lets it out. */
  lemma EntryNeedsTheFlag(s: State, t: ThreadId, call: Call)
    requires t > 0 && FitsAt(s, t) && (!s.flag ==> s.count == 0 && !s.isLocked)
    ensures var s' := Step(s, t, call);
            && (Inside(At(s', t)) && !Inside(At(s, t)) ==> !s.flag && s'.flag)
            && (Inside(At(s, t)) && !Inside(At(s', t)) ==> !s'.flag)
            && (Inside(At(s, t)) == Inside(At(s', t)) ==> s.flag == s'.flag)
            && (!s'.flag ==> s'.count == 0 && !s'.isLocked)
  {
  }

  lemma StepExclusive(s: State, s': State, t: ThreadId)
    requires t > 0 && Exclusive(s) && (s.flag <==> exists u :: u > 0 && Inside(At(s, u))) && !Inside(At(s, 0))
    requires forall u | u != t :: At(s', u) == At(s, u)
    requires Inside(At(s', t)) && !Inside(At(s, t)) ==> !s.flag && s'.flag
    requires Inside(At(s, t)) && !Inside(At(s', t)) ==> !s'.flag
    requires Inside(At(s, t)) == Inside(At(s', t)) ==> s.flag == s'.flag
    ensures Exclusive(s') && (s'.flag ==> exists u :: u > 0 && Inside(At(s', u)))
  {
    hide Inside, At;
    if s'.flag && !Inside(At(s', t)) {
      var u :| u > 0 && Inside(At(s, u));
      assert Inside(At(s', u));
    }
  }

  lemma AttemptsAfter(s: State, s': State, t: ThreadId)
    requires forall u | u != t :: At(s', u) == At(s, u)
    ensures |Attempts(s')| == |Attempts(s)| + (if Attempting(At(s', t)) then 1 else 0)
            - (if Attempting(At(s, t)) then 1 else 0)
  {
    hide Attempting;
    NotIdle(s);
    NotIdle(s');
    assert Attempts(s') == if Attempting(At(s', t)) then Attempts(s) + {t} else Attempts(s) - {t};
    SizeWith(Attempts(s), t);
  }

  lemma NotIdle(s: State)
    ensures forall u :: u in Attempts(s) <==> Attempting(At(s, u))
  {
  }

  lemma StepCounts(s: State, t: ThreadId, call: Call)
    requires t > 0 && FitsAt(s, t)
    ensures Step(s, t, call).waiting - s.waiting
            == (if Attempting(At(Step(s, t, call), t)) then 1 else 0) - (if Attempting(At(s, t)) then 1 else 0)
    ensures forall u | u != t :: At(Step(s, t, call), u) == At(s, u)
    ensures 0 !in s.threads ==> 0 !in Step(s, t, call).threads
  {
  }

  lemma StepKeepsInv(s: State, t: ThreadId, call: Call)
    requires t > 0 && Inv(s)
    ensures Inv(Step(s, t, call))
  {
    hide Step, Inside, Attempts, Attempting, Fits;
    var s' := Step(s, t, call);
    assert FitsAt(s, t);
    StepCounts(s, t, call);
    AttemptsAfter(s, s', t);
    EntryNeedsTheFlag(s, t, call);
    FlagIsSet(s);
    StepExclusive(s, s', t);
    forall u | u > 0
      ensures FitsAt(s', u)
    {
      if u == t {
        OwnStepFits(s, t, call);
      } else {
        assert FitsAt(s, u);
        OtherStepFits(s, t, call, u);
      }
    }
  }

  lemma FlagIsSet(s: State)
    requires Inv(s)
    ensures (s.flag <==> exists u :: u > 0 && Inside(At(s, u))) && !Inside(At(s, 0))
  {
    if u :| u > 0 && Inside(At(s, u)) {
      assert FitsAt(s, u);
    }
  }

  lemma InitInv(s: State)
    requires s == Init()
    ensures Inv(s)
  {
    hide Init, Inside, Attempting, Fits;
    NobodyYet(s);
    NotIdle(s);
    assert Attempts(s) == {};
  }

  lemma NobodyYet(s: State)
    requires s == Init()
    ensures !s.flag && !s.isLocked && s.count == 0 && s.waiting == 0 && 0 !in s.threads
    ensures forall t :: !Inside(At(s, t)) && !Attempting(At(s, t)) && (t > 0 ==> FitsAt(s, t))
  {
    hide Inside, Attempting, Fits;
    IdleFits(AT_REST);
    forall t
      ensures At(s, t) == AT_REST
    {
    }
  }

  lemma IdleFits(l: Local)
    requires l == AT_REST
    ensures !Inside(l) && !Attempting(l) && Fits(l, false, false, false, 0)
  {
  }

  // ---- Every run

  /** All of it holds after every interleaving of any threads' steps. */
  lemma {:induction false} EveryRun(events: seq<Event>)
    requires forall e | e in events :: e.thread > 0
    ensures Inv(Run(events))
  {
    hide Inv, Step;
    if |events| == 0 {
      InitInv(Init());
    } else {
      var before := events[..|events| - 1];
      EveryRun(before);
      StepKeepsInv(Run(before), events[|events| - 1].thread, events[|events| - 1].call);
    }
  }

  /** Mutual exclusion: no two threads hold the lock at the same time. While a thread holds it, the count
      is its recursion depth, the owner is its id, and the object is marked as locked. */
  lemma MutualExclusion(events: seq<Event>, t: ThreadId, u: ThreadId)
    requires forall e | e in events :: e.thread > 0
    requires t > 0 && u > 0 && At(Run(events), t).depth > 0
    ensures At(Run(events), u).depth > 0 ==> t == u
    ensures var s := Run(events); s.flag && s.isLocked && s.owner == t && s.count == At(s, t).depth
  {
    EveryRun(events);
    assert FitsAt(Run(events), t) && FitsAt(Run(events), u);
  }

  /** The flag is set exactly while one thread is between its test-and-set and the clearing; the owner id
      is only ever 0 or that thread, and CL_Waiting counts the threads in an attempt. */
  lemma FieldsMeanThreads(events: seq<Event>)
    requires forall e | e in events :: e.thread > 0
    ensures var s := Run(events);
            && (s.flag <==> exists t :: t > 0 && Inside(At(s, t)))
            && (forall t, u | Inside(At(s, t)) && Inside(At(s, u)) :: t == u)
            && (s.owner != 0 ==> Inside(At(s, s.owner)) && s.isLocked)
            && (s.isLocked ==> s.flag)
            && s.waiting == |Attempts(s)|
  {
    EveryRun(events);
    FlagIsSet(Run(events));
    var s := Run(events);
    if s.owner != 0 {
      assert FitsAt(s, s.owner);
    }
  }

  /** A returned call has done what it says to the depth of its thread, whatever the others did meanwhile. */
  lemma CallsDoWhatTheySay(events: seq<Event>, t: ThreadId)
    requires forall e | e in events :: e.thread > 0
    requires t > 0 && At(Run(events), t).pc.Idle?
    ensures Done(At(Run(events), t))
  {
    EveryRun(events);
    assert FitsAt(Run(events), t);
  }

  /** With all threads idle and nothing held, the object is as it was in the beginning. */
  lemma AllReleased(events: seq<Event>)
    requires forall e | e in events :: e.thread > 0
    requires forall t :: At(Run(events), t).pc.Idle? && At(Run(events), t).depth == 0
    ensures var s := Run(events); !s.flag && !s.isLocked && s.owner == 0 && s.count == 0 && s.waiting == 0
  {
    hide Run;
    EveryRun(events);
    var s := Run(events);
    FlagIsSet(s);
    NotIdle(s);
    assert Attempts(s) == {};
    assert s.owner > 0 ==> FitsAt(s, s.owner);
  }
}
