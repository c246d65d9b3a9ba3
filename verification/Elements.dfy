/** List elements with links to both neighbours, and the store of the current elements of all threads. */
module Elements {
  import opened Options
  import opened Words
  import opened Stepping
  import opened OpenTable
  import opened Geometry
  import opened OpenStates
  import opened DataFree
  import opened ThreadHash
  import opened ThreadRuns

  /** CThreadElementStore: an open hash with the current element of each thread, or a single current element
      without thread safety. */
  class ThreadElementStore<T> {
    const beThreadSafe: bool
    const setup: Setup<ThreadId>
    var oneCurr: Element?<T>
    var currs: State<ThreadId, Element<T>>
    ghost var Cursors: map<ThreadId, Element<T>>  // what the hash stands for

    ghost predicate Valid()
      reads this
    {
      Means(setup, currs, Cursors)
    }

    constructor (beThreadSafe: bool, hash: ThreadId -> Word, secHash: Word -> Word, initialSize: Word)
      requires Steppable(initialSize)
      ensures Valid() && this.beThreadSafe == beThreadSafe && setup == ThreadSetup(hash, secHash)
      ensures currs.size == initialSize && forall t: ThreadId :: Cursor(t) == null
    {
      this.beThreadSafe, setup := beThreadSafe, ThreadSetup(hash, secHash);
      oneCurr, currs, Cursors := null, NewState(initialSize), map[];
      NewMeans<ThreadId, Element<T>>(ThreadSetup(hash, secHash), initialSize);
    }

    /** The cursor of the thread. */
    ghost function Cursor(thread: ThreadId): Element?<T>
      reads this
    {
      if !beThreadSafe then oneCurr else if thread in Cursors then Cursors[thread] else null
    }

    /** curr(): the stored cursor is found whatever has happened to the hash. */
    function Curr(thread: ThreadId): (r: Element?<T>)
      requires Valid()
      reads this
      ensures r == Cursor(thread)
    {
      FoundMeans(setup, currs, Cursors, thread);
      if beThreadSafe then
        var found := Found(setup, currs, thread);
        if found.Some? then found.value else null
      else oneCurr
    }

    /** The thread whose entry goes when this one sets its cursor: itself if it has one, and otherwise the
        one at which the search for it ends. */
    ghost function Dropped(thread: ThreadId): (r: Option<ThreadId>)
      requires Valid()
      reads this
      ensures beThreadSafe && thread in Cursors ==> r == Some(thread)
      ensures beThreadSafe && thread !in Cursors ==>
                (r.Some? <==> ReachesAnother(Shape(setup, currs), currs.cells, thread))
    {
      RemovedMeans(setup, currs, Cursors, thread);
      if beThreadSafe then Victim(setup, currs, thread) else None
    }

    /** So many settings of the cursor in a row end; the elements play no part in it. */
    ghost predicate CanSet(thread: ThreadId, n: nat)
      requires Valid()
      reads this
    {
      beThreadSafe ==> Settable(setup, Bare(currs), thread, n)
    }

    /** The hash after a setting. */
    ghost function Following(thread: ThreadId, newCurr: Element?<T>): Option<State<ThreadId, Element<T>>>
      requires Valid()
      reads this
    {
      if beThreadSafe then Set(setup, currs, thread, if newCurr == null then None else Some(newCurr)) else Some(currs)
    }

    lemma CanSetLess(thread: ThreadId, n: nat, fewer: nat)
      requires Valid() && CanSet(thread, n) && fewer <= n
      ensures CanSet(thread, fewer)
    {
      if beThreadSafe {
        FewerSettings(setup, Bare(currs), thread, n, fewer);
      }
    }

    /** Up to 64 threads can set their cursors as often as they like. */
    lemma FewThreadsCanSet(thread: ThreadId, n: nat)
      requires Valid() && setup == ThreadSetup(setup.hash, setup.secHash) && FewThreads(currs)
      requires |Cursors.Keys + {thread}| <= 64
      ensures CanSet(thread, n)
    {
      var m := map t | t in Cursors :: ();
      BareMeans(setup, currs, Cursors, m);
      assert m.Keys == Cursors.Keys;
      ThreadsSettable(setup, Bare(currs), m, thread, n);
    }

    /** curr( new_curr ): the entry of the thread is removed and, unless the cursor is null, added anew. Other
        threads keep their cursors, but for the one of the entry that the removal may hit instead. */
    method SetCurr(thread: ThreadId, newCurr: Element?<T>)
      requires Valid() && (newCurr != null ==> CanSet(thread, 1))
      modifies this
      ensures Valid() && Cursor(thread) == newCurr
      ensures beThreadSafe ==>
                forall t: ThreadId | t != thread ::
                  Cursor(t) == if old(Dropped(thread)) == Some(t) then null else old(Cursor(t))
      ensures Some(currs) == old(Following(thread, newCurr))
      ensures newCurr != null ==> forall n: nat | n > 0 && old(CanSet(thread, n)) :: CanSet(thread, n - 1)
    {
      hide Stands, Settable, Bare, Added, Removed, Victim, LayoutOf;
      if beThreadSafe {
        ghost var before := currs;
        DelKey(thread);
        if newCurr != null {
          forall n: nat | n > 0 && Settable(setup, Bare(before), thread, n)
            ensures var r := Added(setup, currs, thread, newCurr);
                    r.Some? && Settable(setup, Bare(r.value), thread, n - 1)
          {
            SettingEnds(setup, before, thread, newCurr, n);
          }
          Add(thread, newCurr);
        }
      } else {
        oneCurr := newCurr;
      }
    }

    /** currs.delKey() */
    method DelKey(thread: ThreadId)
      requires Valid() && beThreadSafe
      modifies this`currs, this`Cursors
      ensures Valid() && thread !in Cursors && currs == Removed(setup, old(currs), thread)
      ensures var d := old(Dropped(thread)); Cursors == if d.Some? then old(Cursors) - {d.value} else old(Cursors)
    {
      hide LayoutOf, Stands, Removed;
      RemovedMeans(setup, currs, Cursors, thread);
      ghost var victim := Victim(setup, currs, thread);
      currs := Removed(setup, currs, thread);
      Cursors := if victim.Some? then Cursors - {victim.value} else Cursors;
    }

    /** currs.add() of a thread without a cursor. */
    method Add(thread: ThreadId, newCurr: Element<T>)
      requires Valid() && thread !in Cursors && Added(setup, currs, thread, newCurr).Some?
      modifies this`currs, this`Cursors
      ensures Valid() && Cursors == old(Cursors)[thread := newCurr]
      ensures Some(currs) == Added(setup, old(currs), thread, newCurr)
    {
      hide Stands, Added, LayoutOf;
      AddedMeans(setup, currs, Cursors, thread, newCurr);
      currs := Added(setup, currs, thread, newCurr).value;
      Cursors := Cursors[thread := newCurr];
    }

    /** invalidate(): all cursors equal to the element are dropped, and no others. */
    method Invalidate(oldCurr: Element<T>)
      requires Valid()
      modifies this
      ensures Valid()
      ensures forall t: ThreadId :: Cursor(t) == if old(Cursor(t)) == oldCurr then null else old(Cursor(t))
      ensures currs == if beThreadSafe then Invalidated(setup, old(currs), oldCurr) else old(currs)
    {
      hide Means, DroppedBefore;
      if beThreadSafe {
        if currs.count > 0 {
          DropAll(oldCurr);
        } else {
          NothingThere();
        }
      } else if oneCurr == oldCurr {
        oneCurr := null;
      }
    }

    lemma NothingThere()
      requires Valid() && currs.count <= 0
      ensures Cursors == map[]
    {
      assert Cursors.Keys == {};
    }

    /** The loop of invalidate() over all slots. */
    method DropAll(oldCurr: Element<T>)
      requires Valid() && beThreadSafe
      modifies this
      ensures Valid() && currs == DroppedBefore(setup, old(currs), oldCurr, old(currs.size))
      ensures forall t: ThreadId :: Cursor(t) == if old(Cursor(t)) == oldCurr then null else old(Cursor(t))
    {
      hide Stands, LayoutOf, DroppedBefore, DroppedAt;
      var currSize := currs.size;
      var i := 0;
      DroppedNext(setup, currs, oldCurr, 0, 1);
      while i < currSize
        invariant Valid() && i <= currSize == currs.size == old(currs.size)
        invariant currs == DroppedBefore(setup, old(currs), oldCurr, i)
        invariant forall s | 0 <= s < i && currs.cells[s].Taken? :: currs.cells[s].data != oldCurr
        invariant forall t: ThreadId ::
                    Cursor(t) == old(Cursor(t)) || (Cursor(t) == null && old(Cursor(t)) == oldCurr)
      {
        DroppedNext(setup, old(currs), oldCurr, i, i + 1);
        VisitSlot(oldCurr, i);
        i := i + 1;
      }
      NoneAt(oldCurr);
    }

    /** The loop at a slot. */
    method VisitSlot(oldCurr: Element<T>, i: nat)
      requires Valid() && beThreadSafe && i < currs.size
      modifies this`currs, this`Cursors
      ensures Valid() && currs == DroppedAt(setup, old(currs), oldCurr, i)
      ensures currs.cells[i].Taken? ==> currs.cells[i].data != oldCurr
      ensures forall s | 0 <= s < currs.size && s != i :: currs.cells[s] == old(currs.cells[s])
      ensures forall t: ThreadId ::
                Cursor(t) == old(Cursor(t)) || (Cursor(t) == null && old(Cursor(t)) == oldCurr)
    {
      hide Stands, LayoutOf, Removed;
      if currs.cells[i].Taken? && currs.cells[i].data == oldCurr {
        DropSlot(i);
      }
    }

    lemma NoneAt(oldCurr: Element<T>)
      requires Valid() && forall s | 0 <= s < currs.size && currs.cells[s].Taken? :: currs.cells[s].data != oldCurr
      ensures forall t | t in Cursors :: Cursors[t] != oldCurr
    {
      forall t | t in Cursors
        ensures Cursors[t] != oldCurr
      {
        assert HasKey(currs.cells, t);
      }
    }

    /** delKey() of the key found in a slot hits this very slot. */
    method DropSlot(i: nat)
      requires Valid() && i < |currs.cells| && currs.cells[i].Taken?
      modifies this`currs, this`Cursors
      ensures Valid() && currs.size == old(currs.size) && currs.cells == old(currs.cells)[i := Vacated]
      ensures currs == Removed(setup, old(currs), old(currs.cells[i].key))
      ensures old(currs.cells[i].key) in old(Cursors)
      ensures old(Cursors)[old(currs.cells[i].key)] == old(currs.cells[i].data)
      ensures Cursors == old(Cursors) - {old(currs.cells[i].key)}
    {
      hide Placed, LayoutOf;
      var key := currs.cells[i].key;
      LookupHits(Shape(setup, currs), currs.cells, i);
      RemovedMeans(setup, currs, Cursors, key);
      currs := Removed(setup, currs, key);
      Cursors := Cursors - {key};
    }

    method Clear()
      requires Valid()
      modifies this
      ensures Valid() && forall t: ThreadId :: Cursor(t) == null
      ensures currs == if beThreadSafe then Emptied(old(currs)) else old(currs)
    {
      if beThreadSafe {
        if currs.count > 0 {
          ClearedMeans(setup, currs);
          currs, Cursors := Cleared(currs), map[];
        } else {
          NothingThere();
        }
      } else {
        oneCurr := null;
      }
    }
  }

  function Just<T>(e: Element?<T>): set<Element<T>> {
    if e == null then {} else {e}
  }

  ghost function StoreOf<T>(e: Element?<T>): set<ThreadElementStore<T>>
    reads e
  {
    if e == null || e.currStore == null then {} else {e.currStore}
  }

  /** TDoubleElement, without thread safety of its own. */
  class Element<T> {
    const data: T
    var next: Element?<T>
    var prev: Element?<T>
    var isRemoved: bool
    var currStore: ThreadElementStore?<T>

    constructor (data: T)
      ensures this.data == data && next == null && prev == null && isRemoved && currStore == null
    {
      this.data, next, prev, isRemoved, currStore := data, null, null, true, null;
    }

    /** VElement::insert: cursors that a former store holds to this element are dropped. */
    method Insert(store: ThreadElementStore?<T>)
      requires currStore != null ==> currStore.Valid()
      modifies this`isRemoved, this`currStore, currStore
      ensures !isRemoved && currStore == store
      ensures old(currStore) != null ==>
                && old(currStore).Valid()
                && forall t: ThreadId ::
                  old(currStore).Cursor(t)
                  == if old(currStore.Cursor(t)) == this then null else old(currStore.Cursor(t))
    {
      hide ThreadElementStore.Valid;
      isRemoved := false;
      if currStore != null {
        currStore.Invalidate(this);
      }
      currStore := store;
    }

    /** insertNext: link an element in behind this one. Null and the element itself change nothing; cursors that a
        former store holds to the element are dropped. */
    method InsertNext(newNext: Element?<T>, store: ThreadElementStore?<T>)
      requires newNext != null && newNext != this && newNext.currStore != null ==> newNext.currStore.Valid()
      modifies this`next, Just(newNext), StoreOf(newNext), Just(next)`prev
      ensures newNext == null || newNext == this ==> unchanged(this) && (next != null ==> unchanged(next))
      ensures newNext != null && newNext != this ==>
                && next == newNext && newNext.next == old(next) && (old(next) != null ==> old(next).prev == newNext)
                && (old(next) != newNext ==> newNext.prev == this) && !newNext.isRemoved && newNext.currStore == store
      ensures newNext != null && newNext != this && old(newNext.currStore) != null ==>
                && old(newNext.currStore).Valid()
                && forall t: ThreadId ::
                  old(newNext.currStore).Cursor(t)
                  == if old(newNext.currStore.Cursor(t)) == newNext then null else old(newNext.currStore.Cursor(t))
    {
      hide ThreadElementStore.Valid;
      if newNext == null || newNext == this {
        return;
      }
      var oldNext := next;
      newNext.next := oldNext;
      newNext.prev := this;
      newNext.Insert(store);
      next := newNext;
      if oldNext != null {
        oldNext.prev := newNext;
      }
    }

    /** insertPrev: link an element in before this one. Null and the element itself change nothing; cursors that a
        former store holds to the element are dropped. */
    method InsertPrev(newPrev: Element?<T>, store: ThreadElementStore?<T>)
      requires newPrev != null && newPrev != this && newPrev.currStore != null ==> newPrev.currStore.Valid()
      modifies this`prev, Just(newPrev), StoreOf(newPrev), Just(prev)`next
      ensures newPrev == null || newPrev == this ==> unchanged(this) && (prev != null ==> unchanged(prev))
      ensures newPrev != null && newPrev != this ==>
                && prev == newPrev && newPrev.prev == old(prev) && (old(prev) != null ==> old(prev).next == newPrev)
                && (old(prev) != newPrev ==> newPrev.next == this) && !newPrev.isRemoved && newPrev.currStore == store
      ensures newPrev != null && newPrev != this && old(newPrev.currStore) != null ==>
                && old(newPrev.currStore).Valid()
                && forall t: ThreadId ::
                  old(newPrev.currStore).Cursor(t)
                  == if old(newPrev.currStore.Cursor(t)) == newPrev then null else old(newPrev.currStore.Cursor(t))
    {
      hide ThreadElementStore.Valid;
      if newPrev == null || newPrev == this {
        return;
      }
      var oldPrev := prev;
      newPrev.prev := oldPrev;
      newPrev.next := this;
      newPrev.Insert(store);
      prev := newPrev;
      if oldPrev != null {
        oldPrev.next := newPrev;
      }
    }

    /** Unlink this element on both sides and drop all cursors to it. */
    method Remove()
      requires currStore != null ==> currStore.Valid()
      modifies this`next, this`prev, this`isRemoved, Just(next)`prev, Just(prev)`next, currStore
      ensures next == null && prev == null && isRemoved
      ensures old(next) != null && old(next) != this ==> old(next).prev == old(prev)
      ensures old(prev) != null && old(prev) != this ==> old(prev).next == old(next)
      ensures currStore != null ==>
                && currStore.Valid()
                && forall t: ThreadId ::
                  currStore.Cursor(t) == if old(currStore.Cursor(t)) == this then null else old(currStore.Cursor(t))
    {
      hide ThreadElementStore.Valid;
      var oldNext, oldPrev := next, prev;
      if oldNext != null && oldNext != this {
        oldNext.prev := oldPrev;
      }
      if oldPrev != null && oldPrev != this {
        oldPrev.next := oldNext;
      }
      next, prev := null, null;
      isRemoved := true;
      if currStore != null {
        currStore.Invalidate(this);
      }
    }
  }
}
