/** TSet: a doubly linked list without repeated values, and a chained hash to look the values up. The data
    of an element is a pointer; the value behind it is what must not repeat. */
module Sets {
  import opened Options
  import opened Words
  import opened ThreadHash
  import opened Elements
  import opened Sequences
  import opened DoubleList
  import opened ChainHash
  import opened Growth
  import opened SetAlgebra

  /** The lookup table maps exactly the values in the list, each to its element. */
  ghost predicate Agrees<P, D>(c: Chain<P>, value: P -> D, m: map<D, Element<P>>) {
    && (forall i | 0 <= i < |c| :: value(c[i].data) in m && m[value(c[i].data)] == c[i])
    && (forall d | d in m :: m[d] in c && value(m[d].data) == d)
  }

  ghost predicate HasValue<P, D>(c: Chain<P>, value: P -> D, d: D) {
    exists i :: 0 <= i < |c| && value(c[i].data) == d
  }

  /** The lookup knows the values in the list, and no value is there twice. */
  lemma LookupMeans<P, D>(c: Chain<P>, value: P -> D, m: map<D, Element<P>>, d: D)
    requires Agrees(c, value, m)
    ensures d in m <==> HasValue(c, value, d)
  {
    if d in m {
      assert value(c[PlaceOf(c, m[d])].data) == d;
    }
  }

  lemma ValuesAreMembers<P, D>(c: Chain<P>, value: P -> D, d: D)
    ensures HasValue(c, value, d) <==> d in Members(DataOf(c), value)
  {
    if d in Members(DataOf(c), value) {
      var i :| 0 <= i < |c| && value(DataOf(c)[i]) == d;
      assert value(c[i].data) == d;
    }
    if HasValue(c, value, d) {
      var i :| 0 <= i < |c| && value(c[i].data) == d;
      assert value(DataOf(c)[i]) == d;
    }
  }

  lemma NoRepeats<P, D>(c: Chain<P>, value: P -> D, m: map<D, Element<P>>)
    requires Agrees(c, value, m) && NoDuplicates(c)
    ensures forall i, j | 0 <= i < j < |c| :: value(c[i].data) != value(c[j].data)
  {
  }

  lemma OneElement<P, D>(c: Chain<P>, value: P -> D, m: map<D, Element<P>>, e: Element<P>, f: Element<P>)
    requires Agrees(c, value, m) && e in c && f in c
    ensures value(e.data) == value(f.data) ==> e == f
  {
  }

  lemma InsertionAgrees<P, D>(c: Chain<P>, value: P -> D, m: map<D, Element<P>>, i: nat, e: Element<P>)
    returns (m': map<D, Element<P>>)
    requires Agrees(c, value, m) && i <= |c| && value(e.data) !in m
    ensures m' == m[value(e.data) := e] && Agrees(Inserted(c, i, e), value, m')
  {
    m' := m[value(e.data) := e];
    var c' := Inserted(c, i, e);
    InsertedAt(c, i, e);
    forall d | d in m'
      ensures m'[d] in c' && value(m'[d].data) == d
    {
      if d in m && m'[d] == m[d] {
        var k := PlaceOf(c, m[d]);
        assert c'[if k < i then k else k + 1] == m[d];
      } else {
        assert c'[i] == e;
      }
    }
  }

  lemma DeletionAgrees<P, D>(c: Chain<P>, value: P -> D, m: map<D, Element<P>>, i: nat) returns (m': map<D, Element<P>>)
    requires Agrees(c, value, m) && NoDuplicates(c) && i < |c|
    ensures value(c[i].data) in m && m' == m - {value(c[i].data)} && Agrees(Deleted(c, i), value, m')
  {
    m' := m - {value(c[i].data)};
    var c' := Deleted(c, i);
    DeletedAt(c, i);
    forall d | d in m'
      ensures m'[d] in c' && value(m'[d].data) == d
    {
      var k := PlaceOf(c, m[d]);
      assert c'[if k < i then k else k - 1] == m[d];
    }
  }

  /** The list is as long as the lookup table. */
  lemma {:induction false} SameSize<P, D>(c: Chain<P>, value: P -> D, m: map<D, Element<P>>)
    requires Agrees(c, value, m) && NoDuplicates(c)
    ensures |c| == |m|
    decreases |c|
  {
    if |c| == 0 {
      assert m.Keys == {};
    } else {
      var m' := DeletionAgrees(c, value, m, 0);
      StillDistinctWithout(c, 0);
      SameSize(Deleted(c, 0), value, m');
      assert m'.Keys == m.Keys - {value(c[0].data)};
    }
  }

  class TSet<P(==), D(==,!new)> {
    const value: P -> D
    const base: TDoubleList<P>
    const lookup: TChainHash<D, Element<P>>

    ghost predicate Valid()
      reads this, base, base.Nodes, base.currStore, lookup, lookup.hashTable, lookup.Elements
    {
      && base.Valid() && lookup.Valid()
      && lookup.maxLoadFactor == CHAIN_MAX_LOAD && lookup.dynGrowFactor == CHAIN_GROWTH
      && Agrees(base.Nodes, value, lookup.Contents)
    }

    constructor (hash: D -> Word, value: P -> D, beThreadSafe: bool, threadHash: ThreadId -> Word,
                 threadSecHash: Word -> Word)
      ensures Valid() && base.Nodes == [] && this.value == value
      ensures fresh(base) && fresh(base.currStore) && fresh(lookup) && fresh(lookup.hashTable) && lookup.Elements == {}
    {
      this.value := value;
      base := new TDoubleList(beThreadSafe, threadHash, threadSecHash);
      lookup := new TChainHash(hash, 97, CHAIN_MAX_LOAD, CHAIN_GROWTH);
    }

    /** protFindData: by value. */
    method FindData(d: D) returns (result: Element?<P>)
      requires Valid()
      ensures result != null <==> HasValue(base.Nodes, value, d)
      ensures result != null ==> result in base.Nodes && value(result.data) == d
    {
      LookupMeans(base.Nodes, value, lookup.Contents, d);
      var hashElem := lookup.Get(d);
      result := if hashElem != null then hashElem.data else null;
    }

    /** protFind: the pointer must match as well. */
    method Find(data: Option<P>) returns (result: Element?<P>)
      requires Valid()
      ensures result == null <==> data.None? || forall e | e in base.Nodes :: e.data != data.value
      ensures result != null ==> result in base.Nodes && result.data == data.value
    {
      if data.None? {
        return null;
      }
      result := FindData(value(data.value));
      if result != null && result.data != data.value {
        forall e | e in base.Nodes
          ensures e.data != data.value
        {
          OneElement(base.Nodes, value, lookup.Contents, e, result);
        }
        result := null;
      }
    }

    /** The lookup can take another value as long as the 32-bit count does. */
    lemma LookupGrows()
      requires Valid() && |base.Nodes| + 1 < WORD
      ensures lookup.CanHold(|lookup.Contents| + 1)
    {
      SameSize(base.Nodes, value, lookup.Contents);
      if Overloads(|lookup.Contents| + 1, lookup.hashSize, CHAIN_MAX_LOAD) {
        ChainGrowthFits(|lookup.Contents| + 1, lookup.hashSize);
      }
    }

    /** protInsert: list and lookup are updated together. */
    method Insert(insPre: Element?<P>, insElem: Element<P>) returns (count: int)
      requires Valid() && |base.Nodes| + 1 < WORD && (insPre != null ==> insPre in base.Nodes)
      requires insElem !in base.Nodes && insElem.currStore == null && insElem.next == null && insElem.prev == null
      requires !HasValue(base.Nodes, value, value(insElem.data))
      modifies base, base.Nodes, insElem, lookup, lookup.hashTable, lookup.Elements
      ensures Valid() && base.Nodes == Inserted(old(base.Nodes), Behind(old(base.Nodes), insPre), insElem)
              && count == |base.Nodes|
      ensures (lookup.hashTable == old(lookup.hashTable) || fresh(lookup.hashTable))
              && fresh(lookup.Elements - old(lookup.Elements))
    {
      hide Agrees, TChainHash.Valid, ThreadElementStore.Valid, TChainHash.CanHold, TDoubleList.Linked;
      ghost var c, i := base.Nodes, Behind(base.Nodes, insPre);
      LookupMeans(c, value, lookup.Contents, value(insElem.data));
      ghost var m := InsertionAgrees(c, value, lookup.Contents, i, insElem);
      LookupGrows();
      InsertedAt(c, i, insElem);
      base.Link(insPre, insElem);
      var _ := lookup.Add(value(insElem.data), insElem);
      count := base.eCount;
    }

    /** privRemove: list and lookup are updated together. */
    method Remove(elem: Element?<P>) returns (removed: Element?<P>)
      requires Valid() && (elem != null ==> elem in base.Nodes || elem.isRemoved)
      modifies base, base.Nodes, base.currStore, lookup, lookup.hashTable, lookup.Elements
      ensures Valid()
      ensures if elem != null && elem in old(base.Nodes)
              then removed == elem && base.Nodes == Deleted(old(base.Nodes), PlaceOf(old(base.Nodes), elem))
                   && elem.next == null && elem.prev == null && elem.isRemoved
              else removed == null && base.Nodes == old(base.Nodes)
      ensures lookup.hashTable == old(lookup.hashTable) && lookup.Elements == old(lookup.Elements)
    {
      if elem == null || elem.isRemoved {
        assert elem != null && elem in base.Nodes ==> LinkedAt(base.Nodes, PlaceOf(base.Nodes, elem), base.currStore);
        return null;
      }
      TakeOut(elem);
      removed := elem;
    }

    method TakeOut(elem: Element<P>)
      requires Valid() && elem in base.Nodes
      modifies base, base.Nodes, base.currStore, lookup, lookup.hashTable, lookup.Elements
      ensures Valid() && base.Nodes == Deleted(old(base.Nodes), PlaceOf(old(base.Nodes), elem))
      ensures elem.next == null && elem.prev == null && elem.isRemoved
      ensures lookup.hashTable == old(lookup.hashTable) && lookup.Elements == old(lookup.Elements)
    {
      hide Agrees, TChainHash.Valid, ThreadElementStore.Valid, TDoubleList.Linked, NoDuplicates, Deleted;
      ghost var c, i := base.Nodes, PlaceOf(base.Nodes, elem);
      base.Distinct();
      ghost var m := DeletionAgrees(c, value, lookup.Contents, i);
      OthersStay(c, i);
      var _ := lookup.RemoveKey(value(elem.data));
      base.Take(elem);
    }

    /** privRemoveData, by value. */
    method RemoveData(data: Option<P>) returns (removed: Element?<P>)
      requires Valid()
      modifies base, base.Nodes, base.currStore, lookup, lookup.hashTable, lookup.Elements
      ensures Valid()
      ensures removed == null <==> data.None? || !HasValue(old(base.Nodes), value, value(data.value))
      ensures removed == null ==> base.Nodes == old(base.Nodes)
      ensures removed != null ==>
                && removed in old(base.Nodes) && value(removed.data) == value(data.value)
                && base.Nodes == Deleted(old(base.Nodes), PlaceOf(old(base.Nodes), removed))
    {
      hide Agrees, TChainHash.Valid, ThreadElementStore.Valid, TDoubleList.Valid;
      var elem: Element?<P> := null;
      if data.Some? {
        elem := FindData(value(data.value));
      }
      removed := Remove(elem);
    }

    /** privClear: remove the tail until there is none. */
    method Clear()
      requires Valid()
      modifies base, base.Nodes, base.currStore, lookup, lookup.hashTable, lookup.Elements
      ensures Valid() && base.Nodes == []
      ensures lookup.hashTable == old(lookup.hashTable) && lookup.Elements == old(lookup.Elements)
    {
      hide Agrees, TChainHash.Valid, ThreadElementStore.Valid, Chained, PlaceOf, NoDuplicates;
      while base.tail != null
        invariant Valid() && forall i | 0 <= i < |base.Nodes| :: base.Nodes[i] in old(base.Nodes)
        invariant lookup.hashTable == old(lookup.hashTable) && lookup.Elements == old(lookup.Elements)
        decreases |base.Nodes|
      {
        ghost var c := base.Nodes;
        DeletedAt(c, PlaceOf(c, base.tail));
        var _ := Remove(base.tail);
      }
    }

    /** Whatever has been added to the memory of this set is new. */
    twostate predicate Grown()
      reads base`Nodes, lookup`hashTable, lookup`Elements
    {
      && (forall j | 0 <= j < |base.Nodes| :: base.Nodes[j] in old(base.Nodes) || fresh(base.Nodes[j]))
      && (lookup.hashTable == old(lookup.hashTable) || fresh(lookup.hashTable))
      && fresh(lookup.Elements - old(lookup.Elements))
    }

    /** privInsDataBehindElem: null and known values change nothing; behind null is the front. */
    method InsDataBehindElem(prev: Element?<P>, data: Option<P>) returns (count: int)
      requires Valid() && |base.Nodes| + 1 < WORD && (prev != null ==> prev in base.Nodes)
      modifies base, base.Nodes, lookup, lookup.hashTable, lookup.Elements
      ensures Valid() && Grown() && count == |base.Nodes|
      ensures if data.None? || HasValue(old(base.Nodes), value, value(data.value)) then base.Nodes == old(base.Nodes)
              else base.HasNew(data.value, Behind(old(base.Nodes), prev))
    {
      hide Agrees, TChainHash.Valid, ThreadElementStore.Valid, TDoubleList.Linked, TDoubleList.CursorsInside;
      if data.None? {
        return Size();
      }
      var known := FindData(value(data.value));
      if known != null {
        return Size();
      }
      var newElement := new Element(data.value);
      InsertedAt(base.Nodes, Behind(base.Nodes, prev), newElement);
      count := Insert(prev, newElement);
    }

    function Size(): (n: int)
      requires Valid()
      reads this, base, base.Nodes, base.currStore, lookup, lookup.hashTable, lookup.Elements
      ensures n == |base.Nodes|
    {
      base.eCount
    }

    /** privInsDataBeforeElem: in a set, before null is the front. */
    method InsDataBeforeElem(next: Element?<P>, data: Option<P>) returns (count: int)
      requires Valid() && |base.Nodes| + 1 < WORD && (next != null ==> next in base.Nodes)
      modifies base, base.Nodes, lookup, lookup.hashTable, lookup.Elements
      ensures Valid() && Grown() && count == |base.Nodes|
      ensures if data.None? || HasValue(old(base.Nodes), value, value(data.value)) then base.Nodes == old(base.Nodes)
              else base.HasNew(data.value, if next == null then 0 else Before(old(base.Nodes), next))
    {
      hide Agrees, TChainHash.Valid, ThreadElementStore.Valid;
      if next != null {
        assert LinkedAt(base.Nodes, PlaceOf(base.Nodes, next), base.currStore);
        BehindIsBefore(base.Nodes, next.prev, next);
      }
      count := InsDataBehindElem(if next != null then next.prev else null, data);
    }

    /** privInsDataBehindData: the uniqueness of the new value is checked before prev is searched. */
    method InsDataBehindData(prev: Option<P>, data: Option<P>) returns (outcome: Outcome, ghost at: nat)
      requires Valid() && |base.Nodes| + 1 < WORD
      modifies base, base.Nodes, lookup, lookup.hashTable, lookup.Elements
      ensures Valid() && Grown()
      ensures outcome.ElementNotFound? <==>
                && data.Some? && !HasValue(old(base.Nodes), value, value(data.value))
                && prev.Some? && forall e | e in old(base.Nodes) :: e.data != prev.value
      ensures outcome.ElementNotFound? || data.None? || HasValue(old(base.Nodes), value, value(data.value)) ==>
                base.Nodes == old(base.Nodes)
      ensures outcome.Count? ==> outcome.count == |base.Nodes|
      ensures outcome.Count? && data.Some? && !HasValue(old(base.Nodes), value, value(data.value)) ==>
                && base.HasNew(data.value, at)
                && if prev.Some? then 0 < at && base.Nodes[at - 1].data == prev.value else at == 0
    {
      hide Agrees, TChainHash.Valid, ThreadElementStore.Valid, TDoubleList.Valid;
      at := 0;
      if data.None? {
        return Count(Size()), 0;
      }
      var known := FindData(value(data.value));
      if known != null {
        return Count(Size()), 0;
      }
      var prevElement := Find(prev);
      if prev.Some? && prevElement == null {
        return ElementNotFound, 0;
      }
      at := Behind(base.Nodes, prevElement);
      var count := InsDataBehindElem(prevElement, data);
      outcome := Count(count);
    }

    /** privInsDataBeforeData */
    method InsDataBeforeData(next: Option<P>, data: Option<P>) returns (outcome: Outcome, ghost at: nat)
      requires Valid() && |base.Nodes| + 1 < WORD
      modifies base, base.Nodes, lookup, lookup.hashTable, lookup.Elements
      ensures Valid() && Grown()
      ensures outcome.ElementNotFound? <==>
                && data.Some? && !HasValue(old(base.Nodes), value, value(data.value))
                && next.Some? && forall e | e in old(base.Nodes) :: e.data != next.value
      ensures outcome.ElementNotFound? || data.None? || HasValue(old(base.Nodes), value, value(data.value)) ==>
                base.Nodes == old(base.Nodes)
      ensures outcome.Count? ==> outcome.count == |base.Nodes|
      ensures outcome.Count? && data.Some? && !HasValue(old(base.Nodes), value, value(data.value)) ==>
                && base.HasNew(data.value, at)
                && if next.Some? then at + 1 < |base.Nodes| && base.Nodes[at + 1].data == next.value else at == 0
    {
      hide Agrees, TChainHash.Valid, ThreadElementStore.Valid, TDoubleList.Valid;
      at := 0;
      if data.None? {
        return Count(Size()), 0;
      }
      var known := FindData(value(data.value));
      if known != null {
        return Count(Size()), 0;
      }
      var nextElement := Find(next);
      if next.Some? && nextElement == null {
        return ElementNotFound, 0;
      }
      at := if nextElement == null then 0 else Before(base.Nodes, nextElement);
      var count := InsDataBeforeElem(nextElement, data);
      outcome := Count(count);
    }

    /** isSubsetOf */
    method IsSubsetOf(src: TSet<P, D>) returns (result: bool)
      requires Valid() && src.Valid() && value == src.value
      ensures result <==> Members(Data(), value) <= Members(src.Data(), value)
    {
      hide Agrees, TChainHash.Valid, ThreadElementStore.Valid;
      InclusionMeans(src);
      result := true;
      if base.eCount > 0 && this != src {
        if src.base.eCount > 0 {
          result := AllFound(src);
        } else {
          assert !HasValue(src.base.Nodes, value, value(base.Nodes[0].data));
          result := false;
        }
      } else {
        assert forall i | 0 <= i < |base.Nodes| :: value(base.Nodes[i].data) == value(base.Nodes[i].data);
      }
    }

    lemma InclusionMeans(src: TSet<P, D>)
      ensures Members(Data(), value) <= Members(src.Data(), value) <==>
                forall i | 0 <= i < |base.Nodes| :: HasValue(src.base.Nodes, value, value(base.Nodes[i].data))
    {
      forall i | 0 <= i < |base.Nodes|
        ensures HasValue(src.base.Nodes, value, value(base.Nodes[i].data)) <==>
                  value(Data()[i]) in Members(src.Data(), value)
        ensures value(Data()[i]) in Members(Data(), value)
      {
        ValuesAreMembers(src.base.Nodes, value, value(base.Nodes[i].data));
      }
    }

    method AllFound(src: TSet<P, D>) returns (result: bool)
      requires Valid() && src.Valid() && value == src.value && |base.Nodes| > 0
      ensures result <==> forall i | 0 <= i < |base.Nodes| :: HasValue(src.base.Nodes, value, value(base.Nodes[i].data))
    {
      hide Agrees, TChainHash.Valid, ThreadElementStore.Valid;
      var xCurr, isDone := base.head, false;
      ghost var j := 0;
      result := true;
      while result && xCurr != null && !isDone
        invariant j <= |base.Nodes| && (result && !isDone ==> xCurr == if j < |base.Nodes| then base.Nodes[j] else null)
        invariant isDone ==> j == |base.Nodes|
        invariant result ==> forall i | 0 <= i < j :: HasValue(src.base.Nodes, value, value(base.Nodes[i].data))
        invariant !result ==> j < |base.Nodes| && !HasValue(src.base.Nodes, value, value(base.Nodes[j].data))
        decreases |base.Nodes| - j, result
      {
        var found := src.FindData(value(xCurr.data));
        if found != null {
          assert LinkedAt(base.Nodes, j, base.currStore);
          if xCurr == base.tail {
            isDone := true;
          } else {
            xCurr := xCurr.next;
          }
          j := j + 1;
        } else {
          result := false;
        }
      }
    }

    /** The data in order. */
    ghost function Data(): seq<P>
      reads base
    {
      DataOf(base.Nodes)
    }

    lemma DataMeans(d: D)
      ensures HasValue(base.Nodes, value, d) <==> d in Members(Data(), value)
    {
      ValuesAreMembers(base.Nodes, value, d);
    }

    lemma DataSize()
      ensures |Data()| == |base.Nodes|
    {
    }

    lemma DataUnrepeated()
      requires Valid()
      ensures Unrepeated(Data(), value)
    {
      NoRepeats(base.Nodes, value, lookup.Contents);
    }

    /** The sets share no memory. */
    ghost predicate Separate(other: TSet<P, D>)
      reads base, other.base, lookup, other.lookup
    {
      && other != this && other.base != base && other.base.currStore != base.currStore && other.lookup != lookup
      && other.lookup.hashTable != lookup.hashTable && other.lookup.Elements !! lookup.Elements
      && forall k | 0 <= k < |other.base.Nodes| :: other.base.Nodes[k] !in base.Nodes
    }

    /** push: at the end, unless the value is known. */
    method Push(data: P) returns (count: int)
      requires Valid() && |base.Nodes| + 1 < WORD
      modifies base, base.Nodes, lookup, lookup.hashTable, lookup.Elements
      ensures Valid() && Grown() && count == |base.Nodes|
      ensures Data() == if value(data) in Members(old(Data()), value) then old(Data()) else old(Data()) + [data]
    {
      hide Agrees, TChainHash.Valid, ThreadElementStore.Valid, Chained;
      DataMeans(value(data));
      if base.tail != null {
        SamePlace(base.Nodes, |base.Nodes| - 1);
      }
      count := InsDataBehindElem(base.tail, Some(data));
    }

    /** The other set of an appending loop, while this one grows. */
    ghost predicate Beside(other: TSet<P, D>)
      reads this, base, base.Nodes, base.currStore, lookup, lookup.hashTable, lookup.Elements
      reads other, other.base, other.base.Nodes, other.base.currStore, other.lookup, other.lookup.hashTable
      reads other.lookup.Elements
    {
      Valid() && other.Valid() && Separate(other) && other.value == value
    }

    /** The traversal of the other set has come to place i. */
    ghost predicate Traversing(xCurr: Element?<P>, isDone: bool, i: nat)
      reads this, base
    {
      && i <= |base.Nodes|
      && if isDone then i == |base.Nodes| else xCurr == if i < |base.Nodes| then base.Nodes[i] else null
    }

    /** The end of a round of a traversal. */
    method Advance(curr: Element<P>, ghost i: nat) returns (xCurr: Element?<P>, isDone: bool, ghost k: nat)
      requires base.Linked() && i < |base.Nodes| && Traversing(curr, false, i)
      ensures k == i + 1 && Traversing(xCurr, isDone, k)
    {
      assert LinkedAt(base.Nodes, i, base.currStore);
      xCurr, k := curr, i + 1;
      isDone := xCurr == base.tail;
      if !isDone {
        xCurr := xCurr.next;
      }
    }

    /** The loop of operator+= at place i of the other set. */
    ghost predicate Appending(rhs: TSet<P, D>, lhs: seq<P>, i: nat)
      requires i <= |rhs.base.Nodes|
      reads this, base, base.Nodes, base.currStore, lookup, lookup.hashTable, lookup.Elements
      reads rhs, rhs.base, rhs.base.Nodes, rhs.base.currStore, rhs.lookup, rhs.lookup.hashTable, rhs.lookup.Elements
    {
      Beside(rhs) && |base.Nodes| <= |lhs| + i && Data() == Union(lhs, rhs.Data()[..i], value)
    }

    /** One round of the loop. */
    method PushNext(rhs: TSet<P, D>, rhsCurr: Element<P>, ghost lhs: seq<P>, ghost i: nat, ghost k: nat)
      requires i < |rhs.base.Nodes| && k == i + 1 && rhsCurr == rhs.base.Nodes[i] && |lhs| + |rhs.base.Nodes| < WORD
      requires Appending(rhs, lhs, i)
      modifies base, base.Nodes, lookup, lookup.hashTable, lookup.Elements
      ensures Appending(rhs, lhs, k) && Grown() && rhs.base.Linked()
    {
      hide Agrees, TChainHash.Valid, ThreadElementStore.Valid, TDoubleList.Linked, TDoubleList.CursorsInside, Union;
      rhs.DataUnrepeated();
      UnionNext(lhs, rhs.Data(), value, i, k);
      var _ := Push(rhsCurr.data);
    }

    lemma AppendStarts(rhs: TSet<P, D>)
      requires Beside(rhs)
      ensures Appending(rhs, Data(), 0) && rhs.base != base && rhs.base.Linked()
    {
      SpecialCases(Data(), value);
    }

    lemma AppendEnds(rhs: TSet<P, D>, lhs: seq<P>, i: nat)
      requires i == |rhs.base.Nodes| && Appending(rhs, lhs, i)
      ensures Data() == Union(lhs, rhs.Data(), value)
    {
      assert rhs.Data()[..i] == rhs.Data();
    }

    /** operator+=: the data of the other set whose values are new are appended in their order. */
    method Append(rhs: TSet<P, D>)
      requires if rhs == this then Valid() else Beside(rhs) && |base.Nodes| + |rhs.base.Nodes| < WORD
      modifies base, base.Nodes, lookup, lookup.hashTable, lookup.Elements
      ensures Grown() && if rhs == this then Valid() && Data() == old(Data()) else Beside(rhs)
      ensures rhs != this ==> Data() == Union(old(Data()), rhs.Data(), value) && rhs.base.Nodes == old(rhs.base.Nodes)
    {
      hide Agrees, TChainHash.Valid, ThreadElementStore.Valid, Union, Beside, Chained;
      if rhs != this {
        AppendStarts(rhs);
        AppendAll(rhs, Data());
        AppendEnds(rhs, old(Data()), |rhs.base.Nodes|);
      }
    }

    method AppendAll(rhs: TSet<P, D>, ghost lhs: seq<P>)
      requires |lhs| + |rhs.base.Nodes| < WORD && Appending(rhs, lhs, 0) && rhs.base != base && rhs.base.Linked()
      modifies base, base.Nodes, lookup, lookup.hashTable, lookup.Elements
      ensures Appending(rhs, lhs, |rhs.base.Nodes|) && Grown() && rhs.base.Nodes == old(rhs.base.Nodes)
    {
      hide Union, Beside, Data, TDoubleList.Linked;
      rhs.base.HeadIsFirst();
      var rhsCurr, isDone := rhs.base.head, false;
      ghost var i := 0;
      while rhsCurr != null && !isDone
        invariant rhs.base.Linked() && rhs.Traversing(rhsCurr, isDone, i)
        invariant Appending(rhs, lhs, i) && Grown() && rhs.base.Nodes == old(rhs.base.Nodes)
        decreases |rhs.base.Nodes| - i
      {
        ghost var k := i + 1;
        PushNext(rhs, rhsCurr, lhs, i, k);
        rhsCurr, isDone, i := rhs.Advance(rhsCurr, i);
      }
    }

    /** operator= */
    method Assign(rhs: TSet<P, D>)
      requires if rhs == this then Valid() else Beside(rhs)
      requires |rhs.base.Nodes| < WORD
      modifies base, base.Nodes, base.currStore, lookup, lookup.hashTable, lookup.Elements
      ensures Grown() && if rhs == this then Valid() else Beside(rhs)
      ensures Data() == rhs.Data() && rhs.base.Nodes == old(rhs.base.Nodes)
    {
      hide Valid, Beside, Union;
      if rhs != this {
        ClearBeside(rhs);
        SpecialCases(rhs.Data(), value);
        assert Data() == [];
        Append(rhs);
      }
    }

    method ClearBeside(rhs: TSet<P, D>)
      requires Beside(rhs)
      modifies base, base.Nodes, base.currStore, lookup, lookup.hashTable, lookup.Elements
      ensures Beside(rhs) && base.Nodes == [] && rhs.base.Nodes == old(rhs.base.Nodes)
      ensures lookup.hashTable == old(lookup.hashTable) && lookup.Elements == old(lookup.Elements)
    {
      hide Agrees, TChainHash.Valid, ThreadElementStore.Valid, TDoubleList.Valid;
      Clear();
    }

    method HasMember(elem: Element<P>) returns (result: bool)
      requires Valid()
      ensures result <==> value(elem.data) in Members(Data(), value)
    {
      DataMeans(value(elem.data));
      var found := FindData(value(elem.data));
      result := found != null;
    }
  }
}
