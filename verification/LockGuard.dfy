/** try_locks and CLockGuard, as one thread sees them: every object has a number of locks this thread holds.
    What other threads do is in the answers: whether an object is destroyed, and whether it can be had. */
module LockGuard {
  datatype Answer = Answer(destroyed: bool, free: bool)

  class CLockable {
    var depth: nat

    constructor ()
      ensures depth == 0
    {
      depth := 0;
    }

    method TryLock(now: Answer) returns (ok: bool)
      modifies this
      ensures ok <==> !now.destroyed && (old(depth) > 0 || now.free)
      ensures depth == old(depth) + if ok then 1 else 0
    {
      ok := !now.destroyed && (depth > 0 || now.free);
      if ok {
        depth := depth + 1;
      }
    }

    method Unlock()
      modifies this
      ensures depth == Release(old(depth), 1)
    {
      if depth > 0 {
        depth := depth - 1;
      }
    }
  }

  /** A number of unlock calls. */
  function Release(depth: nat, n: nat): nat {
    if depth >= n then depth - n else 0
  }

  /** The objects of a guard; the same object may occur more than once. */
  datatype Triple<O> = Triple(a: O, b: O, c: O)

  function Occurs<O(==)>(o: O, t: Triple<O>): nat {
    (if t.a == o then 1 else 0) + (if t.b == o then 1 else 0) + (if t.c == o then 1 else 0)
  }

  function Those(t: Triple<CLockable?>): set<CLockable> {
    (if t.a == null then {} else {t.a}) + (if t.b == null then {} else {t.b}) + (if t.c == null then {} else {t.c})
  }

  predicate Available(o: CLockable?, now: Answer)
    reads o
  {
    o == null || (!now.destroyed && (o.depth > 0 || now.free))
  }

  /** try_locks: all or nothing, for every pattern of null and repeated objects. */
  method TryLocks(objA: CLockable?, objB: CLockable?, objC: CLockable?, now: Triple<Answer>) returns (locked: bool)
    modifies Those(Triple(objA, objB, objC))
    ensures forall o | o in Those(Triple(objA, objB, objC)) ::
              o.depth == old(o.depth) + if locked then Occurs(o, Triple(objA, objB, objC)) else 0
    ensures old(Available(objA, now.a) && Available(objB, now.b) && Available(objC, now.c)) ==> locked
    ensures locked ==>
              && (objA == null || !now.a.destroyed) && (objB == null || !now.b.destroyed)
              && (objC == null || !now.c.destroyed)
  {
    var lockedA, lockedB, lockedC := objA == null, objB == null, objC == null;
    if !lockedA || !lockedB || !lockedC {
      if objA != null {
        lockedA := objA.TryLock(now.a);
      }
      if objB != null {
        lockedB := objB.TryLock(now.b);
      }
      if objC != null {
        lockedC := objC.TryLock(now.c);
      }
      if !lockedA || !lockedB || !lockedC {
        if objA != null && lockedA {
          objA.Unlock();
        }
        if objB != null && lockedB {
          objB.Unlock();
        }
        if objC != null && lockedC {
          objC.Unlock();
        }
      }
    }
    locked := lockedA && lockedB && lockedC;
  }

  /** One round of the retry loop: what try_locks finds, and which objects are destroyed if it fails. */
  datatype Round = Round(now: Triple<Answer>, gone: Triple<bool>)

  /** The first round finds all objects free. */
  predicate FreeAtOnce(rounds: seq<Round>) {
    && |rounds| > 0
    && !rounds[0].now.a.destroyed && rounds[0].now.a.free
    && !rounds[0].now.b.destroyed && rounds[0].now.b.free
    && !rounds[0].now.c.destroyed && rounds[0].now.c.free
  }

  class CLockGuard {
    var l_a: CLockable?
    var l_b: CLockable?
    var l_c: CLockable?

    function Held(): Triple<CLockable?>
      reads this
    {
      Triple(l_a, l_b, l_c)
    }

    /** A guard that is about to be constructed holds nothing. */
    constructor ()
      ensures Held() == Triple(null, null, null)
    {
      l_a, l_b, l_c := null, null, null;
    }

    method UnlockAll()
      modifies Those(Held())
      ensures forall o | o in Those(Held()) :: o.depth == Release(old(o.depth), Occurs(o, Held()))
    {
      if l_a != null {
        l_a.Unlock();
      }
      if l_b != null {
        l_b.Unlock();
      }
      if l_c != null {
        l_c.Unlock();
      }
    }

    /** One round of the loop. */
    method Try(round: Round) returns (done: bool)
      modifies this, Those(Held())
      ensures forall o | o in Those(old(Held())) :: o.depth == old(o.depth) + if done then Occurs(o, Held()) else 0
      ensures if done then Held() == old(Held())
              else Held() == Triple(if round.gone.a then null else old(l_a), if round.gone.b then null else old(l_b),
                                    if round.gone.c then null else old(l_c))
      ensures Those(Held()) <= Those(old(Held()))
      ensures old(Available(l_a, round.now.a) && Available(l_b, round.now.b) && Available(l_c, round.now.c)) ==> done
    {
      done := TryLocks(l_a, l_b, l_c, round.now);
      if !done {
        if l_a != null && round.gone.a {
          l_a := null;
        }
        if l_b != null && round.gone.b {
          l_b := null;
        }
        if l_c != null && round.gone.c {
          l_c := null;
        }
      }
    }

    /** The retry loop. */
    method Retry(rounds: seq<Round>) returns (done: bool)
      modifies this, Those(Held())
      ensures forall o | o in Those(old(Held())) :: o.depth == old(o.depth) + if done then Occurs(o, Held()) else 0
      ensures Those(Held()) <= Those(old(Held()))
      ensures (forall r | r in rounds :: r.gone == Triple(false, false, false)) ==> Held() == old(Held())
      ensures old(Held()) == Triple(null, null, null) && |rounds| > 0 ==> done
      ensures FreeAtOnce(rounds) ==> done && Held() == old(Held())
    {
      hide Occurs;
      done := false;
      var i := 0;
      while !done && i < |rounds|
        invariant i <= |rounds|
        invariant Those(Held()) <= Those(old(Held()))
        invariant forall o | o in Those(old(Held())) :: o.depth == old(o.depth) + if done then Occurs(o, Held()) else 0
        invariant (forall r | r in rounds :: r.gone == Triple(false, false, false)) ==> Held() == old(Held())
        invariant i > 0 && old(Held()) == Triple(null, null, null) ==> done
        invariant i > 0 && FreeAtOnce(rounds) ==> done
        invariant FreeAtOnce(rounds) ==> Held() == old(Held())
        decreases |rounds| - i, !done
      {
        assert rounds[i] in rounds;
        NoneElsewhere(Held());
        done := Try(rounds[i]);
        NoneElsewhere(Held());
        i := i + 1;
      }
    }

    /** Release what was held, and note the new objects. */
    method Take(objA: CLockable?, objB: CLockable?, objC: CLockable?)
      modifies this, Those(Held())
      ensures Held() == Triple(objA, objB, objC)
      ensures forall o | o in Those(old(Held())) + Those(Triple(objA, objB, objC)) ::
                o.depth == Release(old(o.depth), Occurs(o, old(Held())))
    {
      hide Occurs;
      NoneElsewhere(Held());
      UnlockAll();
      l_a, l_b, l_c := objA, objB, objC;
    }

    /** reset: release what was held, then try until all new objects are locked. Destroyed objects are
        dropped. The rounds are as many as the answers; without success the loop is still running. */
    method Reset(objA: CLockable?, objB: CLockable?, objC: CLockable?, rounds: seq<Round>) returns (done: bool)
      modifies this, Those(Held()), Those(Triple(objA, objB, objC))
      ensures forall o | o in Those(old(Held())) + Those(Triple(objA, objB, objC)) ::
                o.depth == Release(old(o.depth), Occurs(o, old(Held()))) + if done then Occurs(o, Held()) else 0
      ensures Those(Held()) <= Those(Triple(objA, objB, objC))
      ensures (forall r | r in rounds :: r.gone == Triple(false, false, false)) ==> Held() == Triple(objA, objB, objC)
      ensures Triple(objA, objB, objC) == Triple(null, null, null) && |rounds| > 0 ==> done
      ensures FreeAtOnce(rounds) ==> done && Held() == Triple(objA, objB, objC)
    {
      hide Occurs;
      Take(objA, objB, objC);
      done := Retry(rounds);
      NoneElsewhere(Held());
    }

    /** The destructor: what was held is released, once for each occurrence. */
    method Destroy()
      modifies this, Those(Held())
      ensures Held() == Triple(null, null, null)
      ensures forall o | o in Those(old(Held())) :: o.depth == Release(old(o.depth), Occurs(o, old(Held())))
    {
      var now := Triple(Answer(false, true), Answer(false, true), Answer(false, true));
      var _ := Reset(null, null, null, [Round(now, Triple(false, false, false))]);
    }

    /** The copy constructor and the move assignment: the pointers are taken over first, so that reset
        unlocks them once more than they were locked. */
    method TakeOver(src: CLockGuard, rounds: seq<Round>) returns (done: bool)
      requires src != this
      modifies this, src, Those(src.Held())
      ensures src.Held() == Triple(null, null, null)
      ensures forall o | o in Those(old(src.Held())) ::
                o.depth == Release(Release(old(o.depth), Occurs(o, old(src.Held()))), Occurs(o, old(src.Held())))
                           + if done then Occurs(o, Held()) else 0
      ensures (forall r | r in rounds :: r.gone == Triple(false, false, false)) ==> Held() == old(src.Held())
      ensures FreeAtOnce(rounds) ==> done
    {
      l_a, l_b, l_c := src.l_a, src.l_b, src.l_c;
      src.Destroy();
      done := Reset(l_a, l_b, l_c, rounds);
    }
  }

  lemma NoneElsewhere(t: Triple<CLockable?>)
    ensures forall o: CLockable | o !in Those(t) :: Occurs(o, t) == 0
  {
  }

  /** Taking over keeps the balance of an object exactly if the guard had as many locks on it before as the
      other one, or fewer with nothing but the two guards locking it. Here depth is what this thread held in
      all, n what the other guard held, and m what the guard itself held and forgets. */
  lemma TakeOverIsBalancedIff(depth: nat, n: nat, m: nat)
    requires depth >= n + m
    ensures Release(Release(depth, n), n) + n == depth - m <==> n == m || (m < n && depth == n + m)
  {
  }

  /** Where it is not kept: an object locked once by hand and once by a guard is locked once only after the
      guard has been copied, although the copy holds it. */
  method CopyLosesALock() returns (o: CLockable, copy: CLockGuard)
    ensures copy.Held() == Triple(o, null, null) && o.depth == 1
  {
    o := new CLockable();
    var free := Answer(false, true);
    var once := [Round(Triple(free, free, free), Triple(false, false, false))];
    var _ := o.TryLock(free);
    var src := new CLockGuard();
    var _ := src.Reset(o, null, null, once);
    assert o.depth == 2;
    copy := new CLockGuard();
    var _ := copy.TakeOver(src, once);
  }
}
