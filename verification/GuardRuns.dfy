/** Runs of guards: any constructions, resets and destructions, one after the other. */
module GuardRuns {
  import opened LockGuard

  /** What is done to guards; they are numbered in the order of their construction. The triples are what a
      guard holds in the end. */
  datatype Action<O> = Construct(held: Triple<O>) | Reset(guard: nat, held: Triple<O>) | Destroy(guard: nat)

  /** What the guards hold after one more action, for an object that is not null. */
  function GuardsThen<O>(before: seq<Triple<O>>, a: Action<O>, none: O): seq<Triple<O>> {
    match a
    case Construct(held) => before + [held]
    case Reset(g, held) => if g < |before| then before[g := held] else before
    case Destroy(g) => if g < |before| then before[g := Triple(none, none, none)] else before
  }

  function Guards<O>(actions: seq<Action<O>>, none: O): seq<Triple<O>> {
    if |actions| == 0 then []
    else GuardsThen(Guards(actions[..|actions| - 1], none), actions[|actions| - 1], none)
  }

  /** The number of locks on an object after one more action. */
  function DepthThen<O(==)>(o: O, d: nat, before: seq<Triple<O>>, a: Action<O>): nat {
    match a
    case Construct(held) => d + Occurs(o, held)
    case Reset(g, held) => if g < |before| then Release(d, Occurs(o, before[g])) + Occurs(o, held) else d
    case Destroy(g) => if g < |before| then Release(d, Occurs(o, before[g])) else d
  }

  /** The number of locks on an object after the actions. */
  function Depth<O(==)>(o: O, start: nat, actions: seq<Action<O>>, none: O): nat {
    if |actions| == 0 then start
    else
      var before := actions[..|actions| - 1];
      DepthThen(o, Depth(o, start, before, none), Guards(before, none), actions[|actions| - 1])
  }

  function Total<O(==)>(o: O, guards: seq<Triple<O>>): nat {
    if |guards| == 0 then 0 else Total(o, guards[..|guards| - 1]) + Occurs(o, guards[|guards| - 1])
  }

  lemma {:induction false} TotalReplaced<O>(o: O, guards: seq<Triple<O>>, g: nat, t: Triple<O>)
    requires g < |guards|
    ensures Total(o, guards) >= Occurs(o, guards[g])
    ensures Total(o, guards[g := t]) == Total(o, guards) - Occurs(o, guards[g]) + Occurs(o, t)
  {
    var n := |guards| - 1;
    if g == n {
      assert guards[g := t][..n] == guards[..n];
    } else {
      TotalReplaced(o, guards[..n], g, t);
      assert guards[g := t][..n] == guards[..n][g := t];
    }
  }

  /** After any run of constructions, resets and destructions, an object is locked as often as in the
      beginning and once more for each of its occurrences in a living guard. */
  lemma {:induction false} GuardsBalance<O>(o: O, start: nat, actions: seq<Action<O>>, none: O)
    requires o != none
    ensures Depth(o, start, actions, none) == start + Total(o, Guards(actions, none))
  {
    if |actions| > 0 {
      var before := actions[..|actions| - 1];
      var guards := Guards(before, none);
      GuardsBalance(o, start, before, none);
      match actions[|actions| - 1]
      case Construct(held) =>
        assert (guards + [held])[..|guards|] == guards;
      case Reset(g, held) =>
        if g < |guards| {
          TotalReplaced(o, guards, g, held);
        }
      case Destroy(g) =>
        if g < |guards| {
          TotalReplaced(o, guards, g, Triple(none, none, none));
        }
    }
  }

  /** Once no guard holds anything any more, all depths are what they were. */
  lemma {:induction false} AllReleased<O>(o: O, start: nat, actions: seq<Action<O>>, none: O)
    requires o != none
             && forall g | 0 <= g < |Guards(actions, none)| :: Guards(actions, none)[g] == Triple(none, none, none)
    ensures Depth(o, start, actions, none) == start
  {
    GuardsBalance(o, start, actions, none);
    NothingHeld(o, Guards(actions, none), none);
  }

  lemma {:induction false} NothingHeld<O>(o: O, guards: seq<Triple<O>>, none: O)
    requires o != none && forall g | 0 <= g < |guards| :: guards[g] == Triple(none, none, none)
    ensures Total(o, guards) == 0
  {
    if |guards| > 0 {
      NothingHeld(o, guards[..|guards| - 1], none);
    }
  }

  // ---- The same over guard objects

  /** What is asked of the guards, with what the retry loop meets. */
  datatype Request = ToConstruct(objs: Triple<CLockable?>, rounds: seq<Round>)
                   | ToReset(guard: nat, objs: Triple<CLockable?>, rounds: seq<Round>)
                   | ToDestroy(guard: nat)
  {
    ghost predicate Within(scope: set<CLockable>) {
      this.ToDestroy? || Those(objs) <= scope
    }

    /** The action has done what was asked; of the objects, it can have lost destroyed ones. */
    ghost predicate Served(a: Action<CLockable?>) {
      match this
      case ToConstruct(objs, rounds) => a.Construct? && Kept(a.held, objs, rounds)
      case ToReset(guard, objs, rounds) => a.Reset? && a.guard == guard && Kept(a.held, objs, rounds)
      case ToDestroy(guard) => a == Destroy(guard)
    }
  }

  ghost predicate Kept(held: Triple<CLockable?>, objs: Triple<CLockable?>, rounds: seq<Round>) {
    && Those(held) <= Those(objs)
    && ((forall r | r in rounds :: r.gone == Triple(false, false, false)) ==> held == objs)
  }

  /** The guards hold what the actions have left them, and every object has the depth of the actions. */
  ghost predicate InStep(guards: seq<CLockGuard>, actions: seq<Action<CLockable?>>, scope: set<CLockable>,
                         start: map<CLockable, nat>)
    reads guards, scope
  {
    && |guards| == |Guards(actions, null)|
    && (forall g | 0 <= g < |guards| ::
          guards[g].Held() == Guards(actions, null)[g] && Those(guards[g].Held()) <= scope)
    && (forall g, h | 0 <= g < h < |guards| :: guards[g] != guards[h])
    && (forall o | o in scope :: o in start && o.depth == Depth(o, start[o], actions, null))
  }

  lemma OneMore<O>(actions: seq<Action<O>>, a: Action<O>, none: O)
    ensures Guards(actions + [a], none) == GuardsThen(Guards(actions, none), a, none)
    ensures forall o: O, start ::
              Depth(o, start, actions + [a], none)
              == DepthThen(o, Depth(o, start, actions, none), Guards(actions, none), a)
  {
    assert (actions + [a])[..|actions|] == actions;
  }

  method ServeConstruct(objs: Triple<CLockable?>, rounds: seq<Round>, guards: seq<CLockGuard>,
                        ghost actions: seq<Action<CLockable?>>, ghost scope: set<CLockable>,
                        ghost start: map<CLockable, nat>)
    returns (done: bool, guard: CLockGuard, ghost a: Action<CLockable?>)
    requires InStep(guards, actions, scope, start) && Those(objs) <= scope
    modifies scope
    ensures done ==> InStep(guards + [guard], actions + [a], scope, start) && ToConstruct(objs, rounds).Served(a)
    ensures fresh(guard) && (FreeAtOnce(rounds) ==> done)
  {
    hide Guards, Depth, Occurs;
    guard := new CLockGuard();
    done := guard.Reset(objs.a, objs.b, objs.c, rounds);
    a := Construct(guard.Held());
    OneMore(actions, a, null);
    NoneElsewhere(guard.Held());
    NoneElsewhere(Triple(null, null, null));
  }

  method ServeReset(g: nat, objs: Triple<CLockable?>, rounds: seq<Round>, guards: seq<CLockGuard>,
                    ghost actions: seq<Action<CLockable?>>, ghost scope: set<CLockable>,
                    ghost start: map<CLockable, nat>)
    returns (done: bool, ghost a: Action<CLockable?>)
    requires InStep(guards, actions, scope, start) && Those(objs) <= scope
    modifies guards, scope
    ensures done ==> InStep(guards, actions + [a], scope, start) && ToReset(g, objs, rounds).Served(a)
    ensures FreeAtOnce(rounds) ==> done
  {
    hide Guards, Depth, Occurs;
    done, a := true, Reset(g, objs);
    if g < |guards| {
      NoneElsewhere(guards[g].Held());
      done := guards[g].Reset(objs.a, objs.b, objs.c, rounds);
      a := Reset(g, guards[g].Held());
      NoneElsewhere(guards[g].Held());
    }
    OneMore(actions, a, null);
  }

  method ServeDestroy(g: nat, guards: seq<CLockGuard>, ghost actions: seq<Action<CLockable?>>,
                      ghost scope: set<CLockable>, ghost start: map<CLockable, nat>)
    requires InStep(guards, actions, scope, start)
    modifies guards, scope
    ensures InStep(guards, actions + [Destroy(g)], scope, start)
  {
    hide Guards, Depth, Occurs;
    if g < |guards| {
      NoneElsewhere(guards[g].Held());
      guards[g].Destroy();
    }
    OneMore(actions, Destroy(g), null);
  }

  /** One request. A guard that does not exist is not touched. */
  method Serve(request: Request, guards: seq<CLockGuard>, ghost actions: seq<Action<CLockable?>>,
               ghost scope: set<CLockable>, ghost start: map<CLockable, nat>)
    returns (done: bool, after: seq<CLockGuard>, ghost a: Action<CLockable?>)
    requires InStep(guards, actions, scope, start) && request.Within(scope)
    modifies guards, scope
    ensures done ==> InStep(after, actions + [a], scope, start) && request.Served(a)
    ensures (request.ToDestroy? || FreeAtOnce(request.rounds)) ==> done
    ensures forall g | 0 <= g < |after| :: after[g] in guards || fresh(after[g])
  {
    hide InStep;
    after := guards;
    match request
    case ToConstruct(objs, rounds) =>
      var guard;
      done, guard, a := ServeConstruct(objs, rounds, guards, actions, scope, start);
      after := guards + [guard];
    case ToReset(g, objs, rounds) =>
      done, a := ServeReset(g, objs, rounds, guards, actions, scope, start);
    case ToDestroy(g) =>
      ServeDestroy(g, guards, actions, scope, start);
      done, a := true, Destroy(g);
  }

  /** Any run of guards over objects, until a retry loop does not come to an end: every object is locked as
      often as before and once more for each of its occurrences in a living guard. */
  method ServeAll(requests: seq<Request>, ghost scope: set<CLockable>)
    returns (done: bool, guards: seq<CLockGuard>, ghost actions: seq<Action<CLockable?>>)
    requires forall i | 0 <= i < |requests| :: requests[i].Within(scope)
    modifies scope
    ensures (forall i | 0 <= i < |requests| :: requests[i].ToDestroy? || FreeAtOnce(requests[i].rounds)) ==> done
    ensures done ==>
              && |actions| == |requests| && (forall i | 0 <= i < |actions| :: requests[i].Served(actions[i]))
              && |guards| == |Guards(actions, null)|
              && (forall g | 0 <= g < |guards| :: guards[g].Held() == Guards(actions, null)[g])
              && (forall o | o in scope :: o.depth == Depth(o, old(o.depth), actions, null))
              && (forall o | o in scope :: o.depth == old(o.depth) + Total(o, Guards(actions, null)))
  {
    ghost var start: map<CLockable, nat> := map o: CLockable | o in scope :: o.depth;
    done, guards, actions := true, [], [];
    var i := 0;
    while i < |requests| && done
      invariant i <= |requests| && forall g | 0 <= g < |guards| :: fresh(guards[g])
      invariant done ==> |actions| == i && InStep(guards, actions, scope, start)
      invariant done ==> forall k | 0 <= k < i :: requests[k].Served(actions[k])
      invariant !done ==> exists k :: 0 <= k < i && !requests[k].ToDestroy? && !FreeAtOnce(requests[k].rounds)
    {
      ghost var a;
      done, guards, a := Serve(requests[i], guards, actions, scope, start);
      actions := actions + [a];
      i := i + 1;
    }
    if done {
      forall o | o in scope
        ensures o.depth == old(o.depth) + Total(o, Guards(actions, null))
      {
        GuardsBalance(o, start[o], actions, null);
      }
    }
  }
}
