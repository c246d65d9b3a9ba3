/** TDoubleList, without thread safety of its own: a chain of elements linked both ways, and a cursor for
    every thread. */
module DoubleList {
  import opened Options
  import opened Words
  import opened ThreadHash
  import opened Elements
  import opened Sequences

  type Chain<T> = seq<Element<T>>

  datatype Outcome = Count(count: int) | ElementNotFound

  function NextOf<T>(c: Chain<T>, i: nat): Element?<T> {
    if i + 1 < |c| then c[i + 1] else null
  }

  function PrevOf<T>(c: Chain<T>, i: nat): Element?<T> {
    if 0 < i <= |c| then c[i - 1] else null
  }

  function First<T>(c: Chain<T>): Element?<T> {
    if |c| == 0 then null else c[0]
  }

  function Last<T>(c: Chain<T>): Element?<T> {
    PrevOf(c, |c|)
  }

  /** The element at a place is linked to its neighbours, and handled by the store. */
  ghost predicate LinkedAt<T>(c: Chain<T>, i: nat, store: ThreadElementStore<T>)
    requires i < |c|
    reads c[i]
  {
    c[i].next == NextOf(c, i) && c[i].prev == PrevOf(c, i) && !c[i].isRemoved && c[i].currStore == store
  }

  ghost predicate Chained<T>(c: Chain<T>, store: ThreadElementStore<T>)
    reads c
  {
    forall i | 0 <= i < |c| :: LinkedAt(c, i, store)
  }

  method LinkBehind<T>(ghost c: Chain<T>, ghost i: nat, prev: Element<T>, elem: Element<T>,
                       store: ThreadElementStore<T>)
    returns (ghost d: Chain<T>)
    requires Chained(c, store) && NoDuplicates(c) && i < |c| && prev == c[i] && elem !in c && elem.currStore == null
    modifies c, elem
    ensures d == Inserted(c, i + 1, elem) && Chained(d, store)
  {
    d := Inserted(c, i + 1, elem);
    InsertedAt(c, i + 1, elem);
    assert LinkedAt(c, i, store);
    prev.InsertNext(elem, store);
    forall k | 0 <= k < |d|
      ensures LinkedAt(d, k, store)
    {
      if k != i + 1 {
        assert old(LinkedAt(c, if k <= i then k else k - 1, store));
      }
    }
  }

  method LinkBeforeHead<T>(ghost c: Chain<T>, head: Element<T>, elem: Element<T>, store: ThreadElementStore<T>)
    returns (ghost d: Chain<T>)
    requires Chained(c, store) && NoDuplicates(c) && |c| > 0 && head == c[0] && elem !in c && elem.currStore == null
    modifies c, elem
    ensures d == Inserted(c, 0, elem) && Chained(d, store)
  {
    d := Inserted(c, 0, elem);
    InsertedAt(c, 0, elem);
    assert LinkedAt(c, 0, store);
    head.InsertPrev(elem, store);
    forall k | 0 <= k < |d|
      ensures LinkedAt(d, k, store)
    {
      if k > 0 {
        assert old(LinkedAt(c, k - 1, store));
      }
    }
  }

  method Unlink<T>(ghost c: Chain<T>, ghost i: nat, elem: Element<T>, store: ThreadElementStore<T>)
    returns (ghost d: Chain<T>)
    requires Chained(c, store) && NoDuplicates(c) && i < |c| && elem == c[i] && store.Valid()
    modifies c, store
    ensures d == Deleted(c, i) && Chained(d, store) && store.Valid()
    ensures elem.next == null && elem.prev == null && elem.isRemoved
    ensures forall t: ThreadId :: store.Cursor(t) == if old(store.Cursor(t)) == elem then null else old(store.Cursor(t))
  {
    hide ThreadElementStore.Valid, ThreadElementStore.CanSet, ThreadElementStore.Curr;
    hide ThreadElementStore.Dropped, ThreadElementStore.Following;
    d := Deleted(c, i);
    DeletedAt(c, i);
    assert LinkedAt(c, i, store);
    elem.Remove();
    forall k | 0 <= k < |d|
      ensures LinkedAt(d, k, store)
    {
      assert old(LinkedAt(c, if k < i then k else k + 1, store));
    }
  }

  /** Where an element is in a chain. */
  ghost function PlaceOf<T>(c: Chain<T>, e: Element<T>): (i: nat)
    requires e in c
    ensures i < |c| && c[i] == e
  {
    var i :| 0 <= i < |c| && c[i] == e;
    i
  }

  /** Some element of a part of the chain holds the data. */
  predicate HoldsIn<T(==)>(c: Chain<T>, from: nat, to: nat, data: T)
    requires from <= to <= |c|
  {
    exists i :: from <= i < to && c[i].data == data
  }

  /** Which of the elements with the data a search from the cursor comes to: that of the cursor, or else the head, or
      else the tail, or else the next one behind the cursor, or else the next one before it. */
  ghost predicate Chosen<T>(c: Chain<T>, cursor: Element?<T>, data: T, found: Element<T>) {
    && cursor != null && cursor in c && found in c
    && var p, i := PlaceOf(c, cursor), PlaceOf(c, found);
       && c[i].data == data
       && if c[p].data == data then i == p
          else if c[0].data == data then i == 0
          else if c[|c| - 1].data == data then i == |c| - 1
          else if HoldsIn(c, p + 1, |c|, data) then i > p && !HoldsIn(c, p + 1, i, data)
          else i < p && !HoldsIn(c, i + 1, p, data)
  }

  /** The first and the last place of a part of the chain with the data. */
  lemma {:induction false} FirstWith<T>(c: Chain<T>, from: nat, to: nat, data: T) returns (i: nat)
    requires from <= to <= |c| && HoldsIn(c, from, to, data)
    ensures from <= i < to && c[i].data == data && !HoldsIn(c, from, i, data)
  {
    if HoldsIn(c, from, to - 1, data) {
      i := FirstWith(c, from, to - 1, data);
    } else {
      i := to - 1;
    }
  }

  lemma {:induction false} LastWith<T>(c: Chain<T>, from: nat, to: nat, data: T) returns (i: nat)
    requires from <= to <= |c| && HoldsIn(c, from, to, data)
    ensures from <= i < to && c[i].data == data && !HoldsIn(c, i + 1, to, data)
  {
    if c[to - 1].data == data {
      i := to - 1;
    } else {
      i := LastWith(c, from, to - 1, data);
    }
  }

  /** From a given cursor exactly one element is chosen if some element holds the data. */
  lemma OneIsChosen<T>(c: Chain<T>, cursor: Element<T>, data: T)
    requires NoDuplicates(c) && cursor in c && HoldsIn(c, 0, |c|, data)
    ensures exists e :: e in c && Chosen(c, cursor, data, e)
    ensures forall e, f | e in c && f in c && Chosen(c, cursor, data, e) && Chosen(c, cursor, data, f) :: e == f
  {
    var p := PlaceOf(c, cursor);
    var i :| 0 <= i < |c| && c[i].data == data;
    if c[p].data == data || c[0].data == data || c[|c| - 1].data == data {
      var k := if c[p].data == data then p else if c[0].data == data then 0 else |c| - 1;
      SamePlace(c, k);
      assert Chosen(c, cursor, data, c[k]);
    } else if HoldsIn(c, p + 1, |c|, data) {
      var k := FirstWith(c, p + 1, |c|, data);
      SamePlace(c, k);
      assert Chosen(c, cursor, data, c[k]);
    } else {
      var k := LastWith(c, 0, p, data);
      SamePlace(c, k);
      assert Chosen(c, cursor, data, c[k]);
    }
  }

  /** Where an insertion behind the element goes; behind null is the front. */
  ghost function Behind<T>(c: Chain<T>, prev: Element?<T>): (i: nat)
    ensures i <= |c|
  {
    if prev != null && prev in c then PlaceOf(c, prev) + 1 else 0
  }

  /** Where an insertion before the element goes; before null is the end. */
  ghost function Before<T>(c: Chain<T>, next: Element?<T>): (i: nat)
    ensures i <= |c|
  {
    if next != null && next in c then PlaceOf(c, next) else |c|
  }

  class TDoubleList<T(==)> {
    const currStore: ThreadElementStore<T>
    var head: Element?<T>
    var tail: Element?<T>
    var eCount: int
    ghost var Nodes: Chain<T>  // the elements in order

    ghost predicate Linked()
      reads this, Nodes
    {
      && NoDuplicates(Nodes) && Chained(Nodes, currStore)
      && head == First(Nodes) && tail == Last(Nodes) && eCount == |Nodes|
    }

    lemma Distinct()
      requires Linked()
      ensures NoDuplicates(Nodes)
    {
    }

    lemma HeadIsFirst()
      requires Linked()
      ensures head == First(Nodes)
    {
    }

    /** No cursor dangles: each one is null, or at an element of the list. */
    ghost predicate CursorsInside()
      reads this`Nodes, currStore
    {
      forall t: ThreadId | currStore.Cursor(t) != null :: currStore.Cursor(t) in Nodes
    }

    ghost predicate Valid()
      reads this, Nodes, currStore
    {
      Linked() && currStore.Valid() && CursorsInside()
    }

    constructor (beThreadSafe: bool, threadHash: ThreadId -> Word, threadSecHash: Word -> Word)
      ensures Valid() && Nodes == [] && fresh(currStore) && currStore.beThreadSafe == beThreadSafe
      ensures currStore.setup == ThreadSetup(threadHash, threadSecHash) && currStore.currs.size == THREAD_SLOTS
    {
      currStore := new ThreadElementStore(beThreadSafe, threadHash, threadSecHash, THREAD_SLOTS);
      head, tail, eCount, Nodes := null, null, 0, [];
    }

    /** curr(): the cursor of the thread, or the head if it has none. So every thread is at an element of the
        list as long as there is one. */
    function Curr(thread: ThreadId): (r: Element?<T>)
      requires Valid()
      reads this, Nodes, currStore
      ensures r == null <==> |Nodes| == 0
      ensures r != null ==> r in Nodes
      ensures r == if currStore.Cursor(thread) != null then currStore.Cursor(thread) else First(Nodes)
    {
      var result := currStore.Curr(thread);
      if result != null then result else head
    }

    /** The linking part of protInsert. */
    method LinkIn(insPrev: Element?<T>, insElem: Element<T>) returns (ghost d: Chain<T>)
      requires Linked() && (insPrev != null ==> insPrev in Nodes)
      requires insElem !in Nodes && insElem.currStore == null && insElem.next == null && insElem.prev == null
      modifies this`head, this`tail, Nodes, insElem
      ensures d == Inserted(Nodes, Behind(Nodes, insPrev), insElem)
      ensures Chained(d, currStore) && head == First(d) && tail == Last(d)
    {
      ghost var i := Behind(Nodes, insPrev);
      InsertedAt(Nodes, i, insElem);
      if eCount > 0 && insPrev != null && tail != insPrev {
        // a normal insertion
        d := LinkBehind(Nodes, i - 1, insPrev, insElem, currStore);
      } else if eCount == 0 {
        // the list is empty
        insElem.Insert(currStore);
        head := insElem;
        tail := insElem;
        d := [insElem];
      } else if insPrev == null {
        // a new head is to be set
        d := LinkBeforeHead(Nodes, head, insElem, currStore);
        head := insElem;
      } else {
        // a new tail is to be set
        d := LinkBehind(Nodes, i - 1, tail, insElem, currStore);
        tail := insElem;
      }
    }

    /** Link the element in and count it. */
    method Link(insPrev: Element?<T>, insElem: Element<T>)
      requires Linked() && (insPrev != null ==> insPrev in Nodes)
      requires insElem !in Nodes && insElem.currStore == null && insElem.next == null && insElem.prev == null
      modifies this, Nodes, insElem
      ensures Linked() && Nodes == Inserted(old(Nodes), Behind(old(Nodes), insPrev), insElem)
    {
      ghost var d := LinkIn(insPrev, insElem);
      StillDistinct(Nodes, Behind(Nodes, insPrev), insElem);
      Nodes := d;
      eCount := eCount + 1;
    }

    /** protInsert: the new element goes behind the given one, or to the front, and becomes current. */
    method Insert(insPrev: Element?<T>, insElem: Element<T>, thread: ThreadId) returns (count: int)
      requires Valid() && (insPrev != null ==> insPrev in Nodes) && currStore.CanSet(thread, 1)
      requires insElem !in Nodes && insElem.currStore == null && insElem.next == null && insElem.prev == null
      modifies this, currStore, Nodes, insElem
      ensures Valid() && Nodes == Inserted(old(Nodes), Behind(old(Nodes), insPrev), insElem) && count == |Nodes|
      ensures currStore.Cursor(thread) == insElem
      ensures currStore.beThreadSafe ==>
                forall t: ThreadId | t != thread ::
                  currStore.Cursor(t)
                  == if old(currStore.Dropped(thread)) == Some(t) then null else old(currStore.Cursor(t))
      ensures forall n: nat | n > 0 && old(currStore.CanSet(thread, n)) :: currStore.CanSet(thread, n - 1)
    {
      hide ThreadElementStore.Valid, ThreadElementStore.CanSet, ThreadElementStore.Curr;
      hide ThreadElementStore.Dropped, ThreadElementStore.Following;
      currStore.SetCurr(thread, insElem);
      InsertedAt(Nodes, Behind(Nodes, insPrev), insElem);
      Link(insPrev, insElem);
      count := eCount;
    }

    /** The links of the list after the head or tail has stepped off the element. */
    method LinkOut(elem: Element<T>) returns (ghost d: Chain<T>)
      requires Linked() && elem in Nodes && currStore.Valid()
      modifies this`head, this`tail, Nodes, currStore
      ensures currStore.Valid()
      ensures d == Deleted(Nodes, PlaceOf(Nodes, elem)) && Chained(d, currStore)
      ensures |d| > 0 ==> head == First(d) && tail == Last(d)
      ensures elem.next == null && elem.prev == null && elem.isRemoved
      ensures forall t: ThreadId ::
                currStore.Cursor(t) == if old(currStore.Cursor(t)) == elem then null else old(currStore.Cursor(t))
    {
      hide ThreadElementStore.Valid, ThreadElementStore.CanSet, ThreadElementStore.Curr;
      hide ThreadElementStore.Dropped, ThreadElementStore.Following;
      ghost var i := PlaceOf(Nodes, elem);
      DeletedAt(Nodes, i);
      assert LinkedAt(Nodes, i, currStore);
      if head == elem {
        head := head.next;
      } else if tail == elem {
        tail := tail.prev;
      }
      d := Unlink(Nodes, i, elem, currStore);
    }

    /** Take the element out and count it; an empty list has neither head nor tail. */
    method Take(elem: Element<T>)
      requires Linked() && elem in Nodes && currStore.Valid()
      modifies this, Nodes, currStore
      ensures currStore.Valid()
      ensures Linked() && Nodes == Deleted(old(Nodes), PlaceOf(old(Nodes), elem))
      ensures elem.next == null && elem.prev == null && elem.isRemoved
      ensures forall t: ThreadId ::
                currStore.Cursor(t) == if old(currStore.Cursor(t)) == elem then null else old(currStore.Cursor(t))
    {
      hide ThreadElementStore.Valid, ThreadElementStore.CanSet, ThreadElementStore.Curr;
      hide ThreadElementStore.Dropped, ThreadElementStore.Following;
      ghost var d := LinkOut(elem);
      StillDistinctWithout(Nodes, PlaceOf(Nodes, elem));
      Nodes := d;
      eCount := eCount - 1;
      if eCount == 0 {
        head := null;
        tail := null;
      }
    }

    /** privRemove: the element is taken out, unlinked on both sides, and no cursor is left on it;
        a removed element or null changes nothing. */
    method Remove(elem: Element?<T>, thread: ThreadId) returns (removed: Element?<T>)
      requires Valid() && (elem != null ==> elem in Nodes || elem.isRemoved)
      modifies this, currStore, Nodes
      ensures Valid()
      ensures if elem != null && elem in old(Nodes)
              then removed == elem && Nodes == Deleted(old(Nodes), PlaceOf(old(Nodes), elem))
                   && elem.next == null && elem.prev == null && elem.isRemoved
              else removed == null && Nodes == old(Nodes)
      ensures forall t: ThreadId ::
                currStore.Cursor(t) == if old(currStore.Cursor(t)) == removed then null else old(currStore.Cursor(t))
    {
      hide ThreadElementStore.Valid, ThreadElementStore.CanSet, ThreadElementStore.Curr;
      hide ThreadElementStore.Dropped, ThreadElementStore.Following;
      if elem == null || elem.isRemoved {
        assert elem != null && elem in Nodes ==> LinkedAt(Nodes, PlaceOf(Nodes, elem), currStore);
        return null;
      }
      DeletedAt(Nodes, PlaceOf(Nodes, elem));
      Take(elem);
      if eCount == 0 {
        currStore.SetCurr(thread, null);
      }
      removed := elem;
    }

    /** Some element of a part of the list holds the data. */
    ghost predicate Holds(from: nat, to: nat, data: T)
      requires from <= to <= |Nodes|
      reads this`Nodes
    {
      HoldsIn(Nodes, from, to, data)
    }

    method SearchUp(oldCurr: Element<T>, data: T, ghost p: nat) returns (result: Element?<T>)
      requires Linked() && p < |Nodes| && oldCurr == Nodes[p]
      ensures result != null <==> Holds(p + 1, |Nodes|, data)
      ensures result != null ==> exists j :: p < j < |Nodes| && Nodes[j] == result && !Holds(p + 1, j, data)
      ensures result != null ==> result.data == data
    {
      assert LinkedAt(Nodes, p, currStore);
      var xCurr, isDone := oldCurr.next, false;
      ghost var j := p + 1;
      result := null;
      while result == null && !isDone && xCurr != null
        invariant p < j <= |Nodes| && !Holds(p + 1, j, data)
        invariant if result != null then j < |Nodes| && result == Nodes[j] && result.data == data
                  else if isDone then j == |Nodes|
                  else xCurr == NextOf(Nodes, j - 1)
        decreases |Nodes| - j, result == null
      {
        if xCurr.data == data {
          result := xCurr;
        } else {
          if xCurr == tail {
            isDone := true;
          } else {
            assert LinkedAt(Nodes, j, currStore);
            xCurr := xCurr.next;
          }
          j := j + 1;
        }
      }
    }

    method SearchDown(oldCurr: Element<T>, data: T, ghost p: nat) returns (result: Element?<T>)
      requires Linked() && p < |Nodes| && oldCurr == Nodes[p]
      ensures result != null <==> Holds(0, p, data)
      ensures result != null ==> exists j :: 0 <= j < p && Nodes[j] == result && !Holds(j + 1, p, data)
      ensures result != null ==> result.data == data
    {
      assert LinkedAt(Nodes, p, currStore);
      var xCurr, isDone := oldCurr.prev, false;
      ghost var j := p;
      result := null;
      while result == null && !isDone && xCurr != null
        invariant 0 <= j <= p && !Holds(j, p, data)
        invariant if result != null then j > 0 && result == Nodes[j - 1] && result.data == data
                  else if isDone then j == 0
                  else xCurr == PrevOf(Nodes, j)
        decreases j, result == null
      {
        if xCurr.data == data {
          result := xCurr;
        } else {
          if xCurr == head {
            isDone := true;
          } else {
            assert LinkedAt(Nodes, j - 1, currStore);
            xCurr := xCurr.prev;
          }
          j := j - 1;
        }
      }
    }

    /** The search of protFind from a cursor that does not hold the data: first head and tail, then
        upwards from the cursor, then downwards. */
    method SearchFrom(xCurr: Element<T>, data: T) returns (result: Element?<T>)
      requires Linked() && xCurr in Nodes && xCurr.data != data
      ensures result != null <==> Holds(0, |Nodes|, data)
      ensures result != null ==> Chosen(Nodes, xCurr, data, result)
    {
      ghost var p := PlaceOf(Nodes, xCurr);
      assert Holds(0, |Nodes|, data) <==> Holds(0, p, data) || Holds(p + 1, |Nodes|, data);
      result := null;
      if eCount > 1 {
        if head != xCurr && head.data == data {
          assert Nodes[0].data == data;
          SamePlace(Nodes, 0);
          return head;
        }
        if tail != xCurr && tail.data == data {
          assert Nodes[|Nodes| - 1].data == data;
          SamePlace(Nodes, |Nodes| - 1);
          return tail;
        }
        result := SearchUp(xCurr, data, p);
        if result == null {
          result := SearchDown(xCurr, data, p);
        }
        if result != null {
          InNodes(p, data, result);
        }
      }
    }

    /** What either search finds is the element that is chosen. */
    lemma InNodes(p: nat, data: T, result: Element<T>)
      requires Linked() && p < |Nodes| && Nodes[p].data != data && Nodes[0].data != data
      requires Nodes[|Nodes| - 1].data != data && result.data == data
      requires if Holds(p + 1, |Nodes|, data) then
                 exists j :: p < j < |Nodes| && Nodes[j] == result && !Holds(p + 1, j, data)
               else exists j :: 0 <= j < p && Nodes[j] == result && !Holds(j + 1, p, data)
      ensures Chosen(Nodes, Nodes[p], data, result)
    {
      SamePlace(Nodes, p);
      if Holds(p + 1, |Nodes|, data) {
        var j :| p < j < |Nodes| && Nodes[j] == result && !Holds(p + 1, j, data);
        SamePlace(Nodes, j);
      } else {
        var j :| 0 <= j < p && Nodes[j] == result && !Holds(j + 1, p, data);
        SamePlace(Nodes, j);
      }
    }

    /** How often a search for the data sets the cursor: not if the data is where the cursor is, or nowhere. */
    ghost function Moves(data: T, thread: ThreadId): nat
      requires Valid()
      reads this, Nodes, currStore
    {
      if Holds(0, |Nodes|, data) && Curr(thread).data != data then 1 else 0
    }

    /** As long as nothing is done to the store, as many settings end as before. */
    twostate lemma StillCanSet(thread: ThreadId)
      requires old(currStore.Valid()) && unchanged(currStore)
      ensures forall n: nat | old(currStore.CanSet(thread, n)) :: currStore.CanSet(thread, n)
    {
      hide ThreadElementStore.Valid, ThreadElementStore.CanSet, ThreadElementStore.Curr;
      forall n: nat | old(currStore.CanSet(thread, n))
        ensures currStore.CanSet(thread, n)
      {
      }
    }

    /** curr( new_curr ) */
    method SetCursor(elem: Element<T>, thread: ThreadId)
      requires Valid() && elem in Nodes && currStore.CanSet(thread, 1)
      modifies currStore
      ensures Valid() && Curr(thread) == elem
      ensures currStore.beThreadSafe ==>
                forall t: ThreadId | t != thread ::
                  currStore.Cursor(t)
                  == if old(currStore.Dropped(thread)) == Some(t) then null else old(currStore.Cursor(t))
      ensures forall n: nat | n > 0 && old(currStore.CanSet(thread, n)) :: currStore.CanSet(thread, n - 1)
    {
      hide ThreadElementStore.Valid, ThreadElementStore.CanSet, ThreadElementStore.Curr;
      hide ThreadElementStore.Dropped, ThreadElementStore.Following, Chained, NoDuplicates;
      currStore.SetCurr(thread, elem);
    }

    /** protFind: from any cursor position an element with the data is found if and only if there is
        one, the chosen one if there are several. It becomes the current one. */
    method Find(data: T, thread: ThreadId) returns (result: Element?<T>)
      requires Valid() && currStore.CanSet(thread, Moves(data, thread))
      modifies currStore
      ensures Valid()
      ensures result != null <==> Holds(0, |Nodes|, data)
      ensures result != null ==> Chosen(Nodes, old(Curr(thread)), data, result) && Curr(thread) == result
      ensures result == null ==> Curr(thread) == old(Curr(thread))
      ensures currStore.beThreadSafe ==>
                forall t: ThreadId | t != thread ::
                  currStore.Cursor(t)
                  == if old(Moves(data, thread)) == 1 && old(currStore.Dropped(thread)) == Some(t) then null
                     else old(currStore.Cursor(t))
      ensures forall n: nat | n >= old(Moves(data, thread)) && old(currStore.CanSet(thread, n)) ::
                currStore.CanSet(thread, n - old(Moves(data, thread)))
    {
      hide ThreadElementStore.Valid, ThreadElementStore.CanSet, ThreadElementStore.Curr;
      hide ThreadElementStore.Dropped, ThreadElementStore.Following, Chained, NoDuplicates, CursorsInside;
      if eCount == 0 {
        return null;
      }
      var xCurr := Curr(thread);
      if xCurr.data == data {
        assert Nodes[PlaceOf(Nodes, xCurr)].data == data;
        assert Chosen(Nodes, xCurr, data, xCurr);
        return xCurr;
      }
      result := SearchFrom(xCurr, data);
      StillCanSet(thread);
      if result != null {
        SetCursor(result, thread);
      }
    }

    /** A new element with the data is in the list, at the place. */
    twostate predicate HasNew(data: T, at: nat)
      reads this`Nodes
    {
      && at < |Nodes| && at <= |old(Nodes)| && fresh(Nodes[at]) && Nodes[at].data == data
      && Nodes == Inserted(old(Nodes), at, Nodes[at])
    }

    /** privInsDataBehindElem: behind null is the front. */
    method InsDataBehindElem(prev: Element?<T>, data: T, thread: ThreadId) returns (count: int)
      requires Valid() && (prev != null ==> prev in Nodes) && currStore.CanSet(thread, 1)
      modifies this, currStore, Nodes
      ensures Valid() && HasNew(data, Behind(old(Nodes), prev)) && count == |Nodes|
      ensures currStore.Cursor(thread) == Nodes[Behind(old(Nodes), prev)]
      ensures forall n: nat | n > 0 && old(currStore.CanSet(thread, n)) :: currStore.CanSet(thread, n - 1)
    {
      hide ThreadElementStore.Valid, ThreadElementStore.CanSet, ThreadElementStore.Curr;
      hide ThreadElementStore.Dropped, ThreadElementStore.Following;
      var newElement := new Element(data);
      InsertedAt(Nodes, Behind(Nodes, prev), newElement);
      StillCanSet(thread);
      count := Insert(prev, newElement, thread);
    }

    /** privInsDataBeforeElem: before null is the end. */
    method InsDataBeforeElem(next: Element?<T>, data: T, thread: ThreadId) returns (count: int)
      requires Valid() && (next != null ==> next in Nodes) && currStore.CanSet(thread, 1)
      modifies this, currStore, Nodes
      ensures Valid() && HasNew(data, Before(old(Nodes), next)) && count == |Nodes|
      ensures currStore.Cursor(thread) == Nodes[Before(old(Nodes), next)]
    {
      hide ThreadElementStore.Valid, ThreadElementStore.CanSet, ThreadElementStore.Curr;
      hide ThreadElementStore.Dropped, ThreadElementStore.Following;
      if next != null {
        assert LinkedAt(Nodes, PlaceOf(Nodes, next), currStore);
      }
      var prev := if next != null then next.prev else tail;
      BehindIsBefore(Nodes, prev, next);
      count := InsDataBehindElem(prev, data, thread);
    }

    /** How often an insertion next to given data sets the cursor: for the data, if it must be searched for, and
        for the new element, unless the data is unknown. */
    ghost function Settings(near: Option<T>, thread: ThreadId): nat
      requires Valid()
      reads this, Nodes, currStore
    {
      if near.None? then 1 else if Holds(0, |Nodes|, near.value) then Moves(near.value, thread) + 1 else 0
    }

    /** The search for the data next to which something is inserted. */
    method FindNear(near: Option<T>, thread: ThreadId) returns (result: Element?<T>)
      requires Valid() && currStore.CanSet(thread, Settings(near, thread))
      modifies currStore
      ensures Valid()
      ensures result == null <==> near.None? || forall e | e in Nodes :: e.data != near.value
      ensures result != null ==> near.Some? && Chosen(Nodes, old(Curr(thread)), near.value, result)
      ensures result != null || near.None? ==> currStore.CanSet(thread, 1)
    {
      hide ThreadElementStore.Valid, ThreadElementStore.CanSet, ThreadElementStore.Curr;
      hide ThreadElementStore.Dropped, ThreadElementStore.Following;
      result := null;
      if near.Some? {
        currStore.CanSetLess(thread, Settings(near, thread), Moves(near.value, thread));
        result := Find(near.value, thread);
        if result == null {
          assert forall i | 0 <= i < |Nodes| :: Nodes[i].data != near.value;
        }
      }
    }

    /** privInsDataBehindData: behind an element that holds the data prev, or to the front for null. */
    method InsDataBehindData(prev: Option<T>, data: T, thread: ThreadId) returns (outcome: Outcome, ghost at: nat)
      requires Valid() && currStore.CanSet(thread, Settings(prev, thread))
      modifies this, currStore, Nodes
      ensures Valid()
      ensures outcome.ElementNotFound? <==> prev.Some? && forall e | e in old(Nodes) :: e.data != prev.value
      ensures outcome.ElementNotFound? ==> Nodes == old(Nodes)
      ensures outcome.Count? ==>
                && outcome.count == |Nodes| && HasNew(data, at)
                && if prev.Some? then 0 < at && Chosen(old(Nodes), old(Curr(thread)), prev.value, Nodes[at - 1])
                   else at == 0
    {
      hide ThreadElementStore.Valid, ThreadElementStore.CanSet, ThreadElementStore.Curr;
      hide ThreadElementStore.Dropped, ThreadElementStore.Following;
      var prevElement := FindNear(prev, thread);
      if prev.Some? && prevElement == null {
        return ElementNotFound, 0;
      }
      at := Behind(Nodes, prevElement);
      var count := InsDataBehindElem(prevElement, data, thread);
      outcome := Count(count);
    }

    /** privInsDataBeforeData: before an element that holds the data next, or to the end for null. */
    method InsDataBeforeData(next: Option<T>, data: T, thread: ThreadId) returns (outcome: Outcome, ghost at: nat)
      requires Valid() && currStore.CanSet(thread, Settings(next, thread))
      modifies this, currStore, Nodes
      ensures Valid()
      ensures outcome.ElementNotFound? <==> next.Some? && forall e | e in old(Nodes) :: e.data != next.value
      ensures outcome.ElementNotFound? ==> Nodes == old(Nodes)
      ensures outcome.Count? ==>
                && outcome.count == |Nodes| && HasNew(data, at)
                && if next.Some? then
                     at + 1 < |Nodes| && Chosen(old(Nodes), old(Curr(thread)), next.value, Nodes[at + 1])
                   else at + 1 == |Nodes|
    {
      hide ThreadElementStore.Valid, ThreadElementStore.CanSet, ThreadElementStore.Curr;
      hide ThreadElementStore.Dropped, ThreadElementStore.Following;
      var nextElement := FindNear(next, thread);
      if next.Some? && nextElement == null {
        return ElementNotFound, 0;
      }
      at := Before(Nodes, nextElement);
      var count := InsDataBeforeElem(nextElement, data, thread);
      outcome := Count(count);
    }

    /** privRemoveAfterElement: after null is the head. */
    method RemoveAfterElement(prev: Element?<T>, thread: ThreadId) returns (removed: Element?<T>)
      requires Valid() && (prev != null ==> prev in Nodes)
      modifies this, currStore, Nodes
      ensures Valid()
      ensures var i := Behind(old(Nodes), prev);
              if i < |old(Nodes)| then removed == old(Nodes)[i] && Nodes == Deleted(old(Nodes), i) && removed.isRemoved
              else removed == null && Nodes == old(Nodes)
    {
      hide ThreadElementStore.Valid, ThreadElementStore.CanSet, ThreadElementStore.Curr;
      hide ThreadElementStore.Dropped, ThreadElementStore.Following;
      ghost var i := Behind(Nodes, prev);
      if prev != null {
        assert LinkedAt(Nodes, i - 1, currStore);
      }
      SamePlace(Nodes, i);
      removed := Remove(if prev != null then prev.next else head, thread);
    }

    /** privRemoveBeforeElem: before null is the tail. */
    method RemoveBeforeElem(next: Element?<T>, thread: ThreadId) returns (removed: Element?<T>)
      requires Valid() && (next != null ==> next in Nodes)
      modifies this, currStore, Nodes
      ensures Valid()
      ensures var i := Before(old(Nodes), next) - 1;
              if i >= 0 then removed == old(Nodes)[i] && Nodes == Deleted(old(Nodes), i) && removed.isRemoved
              else removed == null && Nodes == old(Nodes)
    {
      hide ThreadElementStore.Valid, ThreadElementStore.CanSet, ThreadElementStore.Curr;
      hide ThreadElementStore.Dropped, ThreadElementStore.Following;
      ghost var i := Before(Nodes, next);
      if next != null {
        assert LinkedAt(Nodes, i, currStore);
      }
      if i > 0 {
        SamePlace(Nodes, i - 1);
      }
      removed := Remove(if next != null then next.prev else tail, thread);
    }

    /** privRemoveData */
    method RemoveData(data: Option<T>, thread: ThreadId) returns (removed: Element?<T>)
      requires Valid() && (data.Some? ==> currStore.CanSet(thread, Moves(data.value, thread)))
      modifies this, currStore, Nodes
      ensures Valid()
      ensures removed == null <==> data.None? || forall e | e in old(Nodes) :: e.data != data.value
      ensures removed == null ==> Nodes == old(Nodes)
      ensures removed != null ==>
                && Chosen(old(Nodes), old(Curr(thread)), data.value, removed) && removed.isRemoved
                && Nodes == Deleted(old(Nodes), PlaceOf(old(Nodes), removed))
    {
      hide ThreadElementStore.Valid, ThreadElementStore.CanSet, ThreadElementStore.Curr;
      hide ThreadElementStore.Dropped, ThreadElementStore.Following;
      var elem: Element?<T> := null;
      if data.Some? {
        elem := Find(data.value, thread);
        if elem == null {
          assert forall i | 0 <= i < |Nodes| :: Nodes[i].data != data.value;
        }
      }
      removed := Remove(elem, thread);
    }

    /** The loop that deletes all elements behind the former head. */
    method DeleteBehind(xHead: Element<T>, ghost c: Chain<T>)
      requires Chained(c, currStore) && NoDuplicates(c) && |c| > 0 && xHead == c[0] && currStore.Valid()
      requires forall t: ThreadId :: currStore.Cursor(t) == null
      modifies c, currStore
      ensures xHead.next == null && currStore.Valid() && forall t: ThreadId :: currStore.Cursor(t) == null
    {
      hide ThreadElementStore.Valid, ThreadElementStore.CanSet, ThreadElementStore.Curr;
      hide ThreadElementStore.Dropped, ThreadElementStore.Following;
      ghost var d := c;
      assert LinkedAt(d, 0, currStore);
      while xHead.next != null
        invariant Chained(d, currStore) && NoDuplicates(d) && |d| > 0 && xHead == d[0] && xHead.next == NextOf(d, 0)
        invariant forall k | 0 <= k < |d| :: d[k] in c
        invariant currStore.Valid() && forall t: ThreadId :: currStore.Cursor(t) == null
        decreases |d|
      {
        StillDistinctWithout(d, 1);
        DeletedAt(d, 1);
        d := Unlink(d, 1, xHead.next, currStore);
        assert LinkedAt(d, 0, currStore);
      }
    }

    /** The other list, if it is another one, shares nothing with this one. */
    ghost predicate Separate(other: TDoubleList<T>)
      reads this, other
    {
      other != this && other.currStore != currStore && forall k | 0 <= k < |other.Nodes| :: other.Nodes[k] !in Nodes
    }

    /** One round of the loop of operator+=. */
    method PushCopy(rhs: TDoubleList<T>, rhsCurr: Element<T>, ghost i: nat, thread: ThreadId) returns (ghost k: nat)
      requires Valid() && rhs.Valid() && Separate(rhs) && i < |rhs.Nodes| && rhsCurr == rhs.Nodes[i]
      requires currStore.CanSet(thread, 1)
      modifies this, currStore, Nodes
      ensures k == i + 1 && Valid() && rhs.Valid() && Separate(rhs)
      ensures DataOf(Nodes) == DataOf(old(Nodes)) + [rhsCurr.data]
              && forall j | 0 <= j < |Nodes| :: Nodes[j] in old(Nodes) || fresh(Nodes[j])
      ensures forall n: nat | n > 0 && old(currStore.CanSet(thread, n)) :: currStore.CanSet(thread, n - 1)
    {
      hide ThreadElementStore.Valid, ThreadElementStore.CanSet, ThreadElementStore.Curr;
      hide ThreadElementStore.Dropped, ThreadElementStore.Following;
      k := i + 1;
      if tail != null {
        SamePlace(Nodes, |Nodes| - 1);
      }
      assert Chained(rhs.Nodes, rhs.currStore);
      var _ := InsDataBehindElem(tail, rhsCurr.data, thread);
    }

    /** operator+=: the data of the other list is appended in order; a list is not appended to itself. */
    method Append(rhs: TDoubleList<T>, thread: ThreadId)
      requires Valid() && rhs.Valid()
      requires rhs == this || (Separate(rhs) && currStore.CanSet(thread, |rhs.Nodes|))
      modifies this, currStore, Nodes
      ensures Valid() && rhs.Valid()
      ensures DataOf(Nodes) == if rhs == this then DataOf(old(Nodes)) else DataOf(old(Nodes)) + DataOf(rhs.Nodes)
    {
      hide ThreadElementStore.Valid, ThreadElementStore.CanSet, ThreadElementStore.Curr;
      hide ThreadElementStore.Dropped, ThreadElementStore.Following, DataOf;
      if rhs != this {
        var rhsCurr, isDone := rhs.head, false;
        ghost var i := 0;
        PartOfData(Nodes, rhs.Nodes);
        while rhsCurr != null && !isDone
          invariant Valid() && rhs.Valid() && Separate(rhs) && i <= |rhs.Nodes| && rhs.Nodes == old(rhs.Nodes)
          invariant currStore.CanSet(thread, |rhs.Nodes| - i)
          invariant DataOf(Nodes) == DataOf(old(Nodes)) + DataOf(rhs.Nodes)[..i]
          invariant forall j | 0 <= j < |Nodes| :: Nodes[j] in old(Nodes) || fresh(Nodes[j])
          invariant if isDone then i == |rhs.Nodes| else rhsCurr == if i < |rhs.Nodes| then rhs.Nodes[i] else null
          decreases |rhs.Nodes| - i
        {
          currStore.CanSetLess(thread, |rhs.Nodes| - i, 1);
          NextData(rhs.Nodes, i, i + 1);
          ghost var k := PushCopy(rhs, rhsCurr, i, thread);
          assert LinkedAt(rhs.Nodes, i, rhs.currStore);
          if rhsCurr == rhs.tail {
            isDone := true;
          } else {
            rhsCurr := rhsCurr.next;
          }
          i := k;
        }
      }
    }

    /** privClear */
    method Clear(thread: ThreadId)
      requires Valid()
      modifies this, currStore, Nodes
      ensures Valid() && Nodes == [] && forall t: ThreadId :: currStore.Cursor(t) == null
    {
      hide ThreadElementStore.Valid, ThreadElementStore.CanSet, ThreadElementStore.Curr;
      hide ThreadElementStore.Dropped, ThreadElementStore.Following;
      if eCount > 0 {
        var xHead := head;
        ghost var c := Nodes;
        eCount := 0;
        currStore.SetCurr(thread, null);
        head, tail, Nodes := null, null, [];
        currStore.Clear();
        DeleteBehind(xHead, c);
      }
    }
  }

  function DataOf<T>(c: Chain<T>): seq<T> {
    seq(|c|, i requires 0 <= i < |c| => c[i].data)
  }

  lemma PartOfData<T>(c: Chain<T>, d: Chain<T>)
    ensures |DataOf(d)| == |d| && DataOf(c) == DataOf(c) + DataOf(d)[..0] && DataOf(d)[..|d|] == DataOf(d)
  {
  }

  lemma NextData<T>(c: Chain<T>, i: nat, k: nat)
    requires i < |c| && k == i + 1
    ensures DataOf(c)[..k] == DataOf(c)[..i] + [c[i].data]
  {
  }

  lemma SamePlace<T>(c: Chain<T>, i: nat)
    requires NoDuplicates(c)
    ensures i < |c| ==> c[i] in c && PlaceOf(c, c[i]) == i
  {
  }

  /** Behind the predecessor of an element is before the element. */
  lemma BehindIsBefore<T>(c: Chain<T>, prev: Element?<T>, next: Element?<T>)
    requires NoDuplicates(c) && (next != null ==> next in c)
    requires prev == if next != null then PrevOf(c, PlaceOf(c, next)) else Last(c)
    ensures Behind(c, prev) == Before(c, next)
  {
  }
}
