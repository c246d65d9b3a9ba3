/** TOpenHash on VTHashBase, without thread safety: the slot array and its elements, updated in place. */
module OpenHash {
  import opened Options
  import opened Words
  import opened Numbers
  import opened Stepping
  import opened HashMethods
  import opened Probing
  import opened OpenTable
  import opened Geometry
  import opened HashElements
  import opened Growth
  import opened OpenStates

  /** A null pointer, the pointer to the vacated sentry, or an element. */
  datatype Slot<K, V> = Null | VacatedSentry | Used(elem: HashElement<K, V>)

  class TOpenHash<K(==,!new), V> {
    const hash: K -> Word
    const secHash: Word -> Word
    const maxLoadFactor: real
    const dynGrowFactor: real
    var hashTable: array<Slot<K, V>>
    var hashSize: Word
    var chMethod: HashMethod
    var eCount: int

    ghost var Cells: Table<K, V>                // what the slots hold
    ghost var Contents: map<K, V>               // the map this hash stands for
    ghost var Elements: set<HashElement<K, V>>  // the elements in the slots

    ghost function Shape(): Layout<K>
      reads this`hashSize, this`chMethod
    {
      LayoutOf(hash, secHash, hashSize, chMethod)
    }

    ghost function Setting(): Setup<K> {
      Setup(hash, secHash, maxLoadFactor, dynGrowFactor)
    }

    /** The state of this hash as a value. */
    ghost function Now(): State<K, V>
      reads this`hashSize, this`chMethod, this`Cells, this`eCount
    {
      State(hashSize, chMethod, Cells, eCount)
    }

    /** The slot holds what the cell says. */
    ghost predicate Matches(slot: Slot<K, V>, c: Cell<K, V>)
      reads this`Elements, Elements
    {
      match slot
      case Null => c.Empty?
      case VacatedSentry => c.Vacated?
      case Used(e) => e in Elements && !e.isRemoved && c == Taken(e.key, e.data, e.hops)
    }

    /** The slots hold the cells, and no element is in two of them. */
    ghost predicate Linked()
      reads this`hashTable, this`Cells, this`Elements, hashTable, Elements
    {
      && hashTable.Length == |Cells|
      && (forall i | 0 <= i < hashTable.Length :: Matches(hashTable[i], Cells[i]))
      && (forall i, j | 0 <= i < j < hashTable.Length && hashTable[i].Used? && hashTable[j].Used? ::
            hashTable[i].elem != hashTable[j].elem)
    }

    /** What the searches need: sizes agree, and the slots hold the cells. */
    ghost predicate Sized()
      reads this`hashTable, this`Cells, this`Elements, this`hashSize, hashTable, Elements
    {
      Steppable(hashSize) && |Cells| == hashSize && Linked()
    }

    ghost predicate Valid()
      reads this, hashTable, Elements
    {
      Sized() && Means(Setting(), Now(), Contents)
    }

    constructor (hash: K -> Word, secHash: Word -> Word, initSize: Word, maxLoad: real, dynGrow: real)
      requires Steppable(initSize)
      ensures Valid() && Contents == map[] && Now() == NewState(initSize)
      ensures this.hash == hash && this.secHash == secHash && maxLoadFactor == maxLoad && dynGrowFactor == dynGrow
      ensures fresh(hashTable) && Elements == {}
    {
      this.hash, this.secHash := hash, secHash;
      maxLoadFactor, dynGrowFactor := maxLoad, dynGrow;
      hashTable := new Slot<K, V>[initSize](i => Null);
      hashSize, chMethod, eCount := initSize, Division, 0;
      Cells := AllEmpty(initSize);
      Contents, Elements := map[], {};
      new;
      NewMeans<K, V>(Setting(), initSize);
    }

    /** The test of the probe loop at a slot reached after so many hops. */
    predicate SlotFits(slot: Slot<K, V>, key: K, allowVacated: bool, beRobinHood: bool, hops: nat)
      reads if slot.Used? then {slot.elem} else {}
    {
      slot.Null?
      || (slot.VacatedSentry? && allowVacated)
      || (slot.Used? && slot.elem.key == key)
      || (beRobinHood && slot.Used? && hops > 1 && slot.elem.hops < hops - 1)
    }

    /** privGetIndex: probe until a slot fits, or all of the table is probed. */
    method GetIndex(key: K, allowVacated: bool, countHops: bool) returns (pos: nat, hops: nat)
      requires Sized()
      ensures hops == Search(Shape(), Cells, key, allowVacated, allowVacated && countHops, 0)
      ensures pos == Shape().Path(key, hops) < hashTable.Length && hops <= hashSize
      ensures forall j | 0 <= j < hops ::
                var c := Cells[Shape().Path(key, j)];
                && !c.Empty? && (c.Vacated? ==> !allowVacated) && (c.Taken? ==> c.key != key)
                && (c.Taken? && allowVacated && countHops && j > 1 ==> c.hops + 1 >= j)
      ensures hops < hashSize ==>
                var c := Cells[pos];
                || c.Empty? || (c.Vacated? && allowVacated) || (c.Taken? && c.key == key)
                || (c.Taken? && allowVacated && countHops && hops > 1 && c.hops + 1 < hops)
    {
      var priHash := hash(key);
      var idxBase := Scaled(priHash, hashSize);
      var idxStep := GetStepping(secHash(priHash), hashSize, chMethod);
      forall i: nat
        ensures Shape().Path(key, i) == At(hashSize, idxBase, idxStep, i)
      {
        PathIsProbe(hash, secHash, hashSize, chMethod, key, i);
      }
      pos, hops := ProbeFrom(Shape(), key, idxBase, idxStep, allowVacated, allowVacated && countHops);
      forall j | 0 <= j <= hops
        ensures Shape().Path(key, j) < |Cells|
        ensures j < hops ==> !Stops(Shape(), Cells, key, allowVacated, allowVacated && countHops, j)
      {
      }
    }

    method ProbeFrom(ghost l: Layout<K>, key: K, idxBase: nat, step: nat, allowVacated: bool, beRobinHood: bool)
      returns (pos: nat, hops: nat)
      requires l.Valid() && l.size == hashTable.Length == |Cells| && idxBase < l.size
      requires Linked()
      requires forall i: nat :: l.Path(key, i) == At(l.size, idxBase, step, i)
      ensures hops == Search(l, Cells, key, allowVacated, beRobinHood, 0)
      ensures pos == l.Path(key, hops) < hashTable.Length
    {
      var size := hashTable.Length;
      var idxStep := step;
      var isFound := false;
      pos, hops := idxBase, 0;
      while !isFound && hops < size
        invariant hops <= size
        invariant ProbeAt(size, idxBase, step, hops) == Probe(pos, idxStep)
        invariant pos == l.Path(key, hops)
        invariant forall j | 0 <= j < hops :: !Stops(l, Cells, key, allowVacated, beRobinHood, j)
        invariant isFound ==> hops < size && Stops(l, Cells, key, allowVacated, beRobinHood, hops)
        decreases size - hops, !isFound
      {
        assert Matches(hashTable[pos], Cells[pos]);
        if SlotFits(hashTable[pos], key, allowVacated, beRobinHood, hops) {
          isFound := true;
        } else {
          pos, idxStep := NextProbe(size, idxBase, step, hops, pos, idxStep, hops + 1 == size);
          hops := hops + 1;
        }
      }
      FirstStop(l, Cells, key, allowVacated, beRobinHood, hops);
    }

    /** table_vacate and the element's own remove(). */
    method VacateSlot(index: nat) returns (result: HashElement<K, V>)
      requires Linked() && index < |Cells| && Cells[index].Taken?
      modifies this`Cells, this`Elements, hashTable, Elements
      ensures Linked() && Cells == old(Cells)[index := Vacated]
      ensures result in old(Elements) && result.isRemoved && result.hops == 0
      ensures result.key == old(Cells)[index].key && result.data == old(Cells)[index].data
      ensures Elements == old(Elements) - {result}
    {
      assert Matches(hashTable[index], Cells[index]);
      result := hashTable[index].elem;
      assert forall i | 0 <= i < hashTable.Length :: Matches(hashTable[i], Cells[i]);
      hashTable[index] := VacatedSentry;
      result.Remove();
      Cells, Elements := Cells[index := Vacated], Elements - {result};
    }

    /** table_set and the element's own insertAsFirst(). */
    method StoreElement(index: nat, elem: HashElement<K, V>)
      requires Linked() && index < |Cells| && !Cells[index].Taken? && elem !in Elements
      modifies this`Cells, this`Elements, hashTable, elem
      ensures Linked() && Cells == old(Cells)[index := Taken(elem.key, elem.data, elem.hops)]
      ensures Elements == old(Elements) + {elem} && elem.hops == old(elem.hops)
    {
      assert forall i | 0 <= i < hashTable.Length :: Matches(hashTable[i], Cells[i]);
      hashTable[index] := Used(elem);
      elem.InsertAsFirst();
      Cells, Elements := Cells[index := Taken(elem.key, elem.data, elem.hops)], Elements + {elem};
    }

    /** privRemoveIdx: vacate the slot and hand out its element. */
    method RemoveIdx(index: nat) returns (result: HashElement?<K, V>)
      requires Sized()
      modifies this`Cells, this`Elements, this`eCount, hashTable, Elements
      ensures Sized()
      ensures result == null <==> index >= hashSize || !old(Cells)[index].Taken?
      ensures result == null ==> Cells == old(Cells) && Elements == old(Elements) && eCount == old(eCount)
      ensures result != null ==>
                && result in old(Elements) && result.isRemoved && result.hops == 0
                && result.key == old(Cells)[index].key && result.data == old(Cells)[index].data
                && Cells == old(Cells)[index := Vacated] && Elements == old(Elements) - {result}
                && eCount == old(eCount) - 1
    {
      result := null;
      if index < hashSize {
        assert Matches(hashTable[index], Cells[index]);
        if hashTable[index].Used? {
          result := VacateSlot(index);
          eCount := eCount - 1;
        }
      }
    }

    /** privGet: the element with the key, or null. */
    method Get(key: K) returns (result: HashElement?<K, V>)
      requires Valid()
      ensures result != null <==> key in Contents
      ensures result != null ==> result in Elements && result.key == key && result.data == Contents[key]
    {
      var keyIdx, _ := GetIndex(key, false, false);
      if key in Contents {
        var s :| 0 <= s < |Cells| && Cells[s].Taken? && Cells[s].key == key;
        LookupHits(Shape(), Cells, s);
      }
      assert Matches(hashTable[keyIdx], Cells[keyIdx]);
      if hashTable[keyIdx].Used? && hashTable[keyIdx].elem.key == key {
        result := hashTable[keyIdx].elem;
      } else {
        result := null;
      }
    }

    /** privRemoveKey, which never compares keys: what the lookup ends at is removed. */
    method RemoveKey(key: K) returns (result: HashElement?<K, V>)
      requires Sized()
      modifies this`Cells, this`Elements, this`eCount, hashTable, Elements
      ensures Sized()
      ensures var s := LookupSlot(Shape(), old(Cells), key);
              var c := old(Cells)[s];
              if c.Taken? then
                result != null && result.key == c.key && result.data == c.data
                && Cells == old(Cells)[s := Vacated] && eCount == old(eCount) - 1
              else result == null && Cells == old(Cells) && eCount == old(eCount)
    {
      var index, _ := GetIndex(key, false, false);
      result := RemoveIdx(index);
    }

    /** remKey: a present key is removed, and nothing else. For an absent key another one is removed
        exactly if its path has no null slot and the probe after the last is at an element. */
    method RemKey(key: K) returns (result: HashElement?<K, V>)
      requires Valid()
      modifies this`Cells, this`Contents, this`Elements, this`eCount, hashTable, Elements
      ensures Valid()
      ensures key in old(Contents) ==>
                && result != null && result.key == key && result.data == old(Contents)[key]
                && Contents == old(Contents) - {key}
      ensures key !in old(Contents) ==> (result != null <==> ReachesAnother(Shape(), old(Cells), key))
      ensures Contents == if result == null then old(Contents) else old(Contents) - {result.key}
      ensures Now() == Removed(Setting(), old(Now()), key)
    {
      hide Linked, UniqueKeys, Placed, Represents, LayoutOf;
      RemovalRefines(Shape(), Cells, Contents, key);
      result := RemoveKey(key);
      if result != null {
        Contents := Contents - {result.key};
      }
    }

    /** Take out a resident, if there is one, and store the element. */
    method Install(index: nat, elem: HashElement<K, V>) returns (oldElem: HashElement?<K, V>)
      requires Sized() && index < |Cells| && elem !in Elements
      modifies this`Cells, this`Elements, this`eCount, hashTable, Elements, elem
      ensures Sized() && elem.hops == old(elem.hops)
      ensures Cells == old(Cells)[index := Taken(elem.key, elem.data, elem.hops)]
      ensures eCount == old(eCount) + if old(Cells)[index].Taken? then 0 else 1
      ensures var c := old(Cells)[index];
              if c.Taken? then
                && oldElem != null && oldElem.key == c.key && oldElem.data == c.data && oldElem.hops == 0
                && oldElem in old(Elements) && Elements == old(Elements) - {oldElem} + {elem}
              else oldElem == null && Elements == old(Elements) + {elem}
    {
      oldElem := null;
      assert Matches(hashTable[index], Cells[index]);
      if hashTable[index].Used? {
        oldElem := RemoveIdx(index);
      }
      StoreElement(index, elem);
      eCount := eCount + 1;
    }

    /** One placement: find the slot, take out a resident with fewer hops, and store the element. */
    method PlaceElement(elem: HashElement<K, V>) returns (oldElem: HashElement?<K, V>)
      requires Sized() && elem !in Elements && elem.hops == 0
      modifies this`Cells, this`Elements, this`eCount, hashTable, Elements, elem
      ensures Sized() && Cells == Place(Shape(), old(Cells), elem.key, elem.data)
      ensures var c := old(Cells)[InsertSlot(Shape(), old(Cells), elem.key)];
              if c.Taken? then
                && oldElem != null && oldElem.key == c.key && oldElem.data == c.data && oldElem.hops == 0
                && oldElem in old(Elements) && Elements == old(Elements) - {oldElem} + {elem}
                && eCount == old(eCount)
              else oldElem == null && Elements == old(Elements) + {elem} && eCount == old(eCount) + 1
    {
      var idx, hops := GetIndex(elem.key, true, true);
      elem.hops := hops;
      oldElem := Install(idx, elem);
    }

    /** The displacement loop with an element in hand, or none: what is left leads to the final table. */
    ghost predicate InFlight(oldElem: HashElement?<K, V>, left: nat, final: Table<K, V>, count: int)
      reads this`hashTable, this`Cells, this`Elements, this`hashSize, this`chMethod, this`eCount, hashTable
      reads Elements, oldElem
    {
      && Sized()
      && if oldElem == null then final == Cells && eCount == count + 1
         else
           && Settle(Shape(), Cells, oldElem.key, oldElem.data, left) == Some(final)
           && oldElem !in Elements && oldElem.hops == 0 && eCount == count
           && forall s | 0 <= s < |Cells| && Cells[s].Taken? :: eCount > 0
    }

    /** One round of the loop. */
    method Round(elem: HashElement<K, V>, ghost left: nat, ghost final: Table<K, V>, ghost count: int)
      returns (oldElem: HashElement?<K, V>, ghost rest: nat)
      requires InFlight(elem, left, final, count)
      modifies this`Cells, this`Elements, this`eCount, hashTable, Elements, elem
      ensures InFlight(oldElem, rest, final, count) && rest < left
      ensures Elements + (if oldElem != null then {oldElem} else {}) == old(Elements) + {elem}
    {
      ghost var t := Cells;
      oldElem := PlaceElement(elem);
      rest := SettleStep(Shape(), t, elem.key, elem.data, left, final, Cells,
                         if oldElem == null then None else Some((oldElem.key, oldElem.data)));
    }

    /** The displacement loop: place the element, then every element it displaced in turn. */
    method Displace(elem: HashElement<K, V>, ghost rounds: nat, ghost final: Table<K, V>)
      requires InFlight(elem, rounds, final, eCount)
      modifies this`Cells, this`Elements, this`eCount, hashTable, Elements, elem
      ensures Sized() && Cells == final && eCount == old(eCount) + 1 && Elements == old(Elements) + {elem}
    {
      ghost var left := rounds;
      var oldElem: HashElement?<K, V> := elem;
      while oldElem != null
        invariant InFlight(oldElem, left, final, old(eCount))
        invariant Elements + (if oldElem != null then {oldElem} else {}) == old(Elements) + {elem}
        decreases oldElem != null, left
      {
        oldElem, left := Round(oldElem, left, final, old(eCount));
      }
    }

    /** privInsert: if the displacement loop ends, the map gains the binding. */
    method Insert(elem: HashElement<K, V>) returns (count: int)
      requires Valid() && elem !in Elements && elem.hops == 0 && elem.key !in Contents
      requires Settles(Shape(), Cells, elem.key, elem.data)
      modifies this`Cells, this`Contents, this`Elements, this`eCount, hashTable, Elements, elem
      ensures Valid() && Contents == old(Contents)[elem.key := elem.data] && count == eCount
      ensures Elements == old(Elements) + {elem}
      ensures Some(Now()) == Inserted(Setting(), old(Now()), elem.key, elem.data)
    {
      hide Linked, UniqueKeys, Placed, LayoutOf, Settle;
      ghost var final := InsertionRefines(Shape(), Cells, Contents, elem.key, elem.data);
      Displace(elem, Limit(Shape()), final);
      Contents := Contents[elem.key := elem.data];
      count := eCount;
    }

    /** The part of grow() before the elements are moved. */
    method Renew(target: Word)
      requires Growable(target)
      modifies this
      ensures Valid() && fresh(hashTable) && Elements == {} && Contents == map[]
      ensures Now() == State(target, MethodFor(target), AllEmpty(target), 0)
    {
      hashTable := new Slot<K, V>[target](i => Null);
      eCount := 0;
      chMethod := SetHashMethod(target);
      hashSize := target;
      Cells, Contents, Elements := AllEmpty(target), map[], {};
      EmptyStands(Shape(), Cells);
    }

    /** privAdd */
    method AddElement(key: K, data: V) returns (count: int)
      requires Valid() && key !in Contents && Settles(Shape(), Cells, key, data)
      modifies this`Cells, this`Contents, this`Elements, this`eCount, hashTable, Elements
      ensures Valid() && Contents == old(Contents)[key := data] && count == eCount
      ensures fresh(Elements - old(Elements))
      ensures Some(Now()) == Inserted(Setting(), old(Now()), key, data)
    {
      var elem := new HashElement(key, data);
      count := Insert(elem);
    }

    /** The slots of the old table still to be moved. */
    ghost predicate Remaining(oldTab: array<Slot<K, V>>, t: Table<K, V>, pos: nat)
      reads oldTab
    {
      && oldTab.Length == |t|
      && forall i | pos <= i < |t| ::
           if t[i].Taken? then oldTab[i].Used? && oldTab[i].elem.key == t[i].key && oldTab[i].elem.data == t[i].data
           else !oldTab[i].Used?
    }

    /** The first pos slots of the old table are in this one. */
    ghost predicate Taking(t: Table<K, V>, pos: nat)
      reads this, hashTable, Elements
    {
      && Valid() && pos <= |t| && UniqueKeys(t)
      && Represents(t[..pos], Contents) && Moved(Shape(), t, pos) == Some(Cells)
    }

    /** One round of the loop of grow(). */
    method MoveOne(oldTab: array<Slot<K, V>>, ghost t: Table<K, V>, pos: nat) returns (next: nat)
      requires pos < oldTab.Length && oldTab != hashTable && Remaining(oldTab, t, pos)
      requires Taking(t, pos) && Moved(Shape(), t, pos + 1).Some?
      modifies this`Cells, this`Contents, this`Elements, this`eCount, hashTable, Elements, oldTab
      ensures next == pos + 1 && Taking(t, next)
      ensures Remaining(oldTab, t, next) && fresh(Elements - old(Elements))
    {
      hide Linked, Stands, Represents, UniqueKeys, LayoutOf;
      next := pos + 1;
      NextSlot(t, Contents, pos, next);
      if oldTab[pos].Used? {
        var _ := AddElement(oldTab[pos].elem.key, oldTab[pos].elem.data);
        oldTab[pos] := Null;
      }
    }

    /** The loop of grow(): copy every element of the old table. */
    method MoveElements(oldTab: array<Slot<K, V>>, ghost t: Table<K, V>, ghost m: map<K, V>)
      requires oldTab != hashTable && Remaining(oldTab, t, 0)
      requires Taking(t, 0) && Represents(t, m) && Moved(Shape(), t, |t|).Some?
      modifies this`Cells, this`Contents, this`Elements, this`eCount, hashTable, Elements, oldTab
      ensures Valid() && Contents == m && fresh(Elements - old(Elements))
      ensures Some(Cells) == Moved(Shape(), t, |t|)
    {
      var pos := 0;
      while pos < oldTab.Length
        invariant Taking(t, pos) && Remaining(oldTab, t, pos) && fresh(Elements - old(Elements))
      {
        MovedBefore(Shape(), t, pos + 1, |t|);
        pos := MoveOne(oldTab, t, pos);
      }
      AllMoved(t, pos, Contents, m);
    }

    method MoveTo(targetSize: Word)
      requires Valid() && targetSize > hashSize && Grown(Setting(), Now(), targetSize).Some?
      modifies this, hashTable
      ensures Valid() && Contents == old(Contents) && fresh(hashTable) && fresh(Elements)
      ensures Some(Now()) == Grown(Setting(), old(Now()), targetSize)
    {
      var oldTab := hashTable;
      ghost var t, m := Cells, Contents;
      forall i | 0 <= i < |t|
        ensures if t[i].Taken?
                then oldTab[i].Used? && oldTab[i].elem.key == t[i].key && oldTab[i].elem.data == t[i].data
                else !oldTab[i].Used?
      {
        assert Matches(oldTab[i], t[i]);
      }
      Renew(targetSize);
      MoveElements(oldTab, t, m);
    }

    /** grow: every element is copied into a larger table, indexed anew; no vacated slots are left. */
    method Grow(targetSize: Word) returns (size: Word)
      requires Valid() && Grown(Setting(), Now(), targetSize).Some?
      modifies this, hashTable
      ensures Valid() && Contents == old(Contents) && size == hashSize
      ensures Some(Now()) == Grown(Setting(), old(Now()), targetSize)
      ensures if targetSize > old(hashSize)
              then hashSize == targetSize && chMethod == MethodFor(targetSize) && fresh(hashTable) && fresh(Elements)
                   && NoneVacated(Cells)
              else hashTable == old(hashTable) && Elements == old(Elements)
    {
      GrownMeans(Setting(), Now(), Contents, targetSize);
      if targetSize > hashSize {
        MoveTo(targetSize);
      }
      size := hashSize;
    }

    /** The growth after an insertion. */
    method GrowIfNeeded(newSize: int)
      requires Valid() && newSize == eCount && OpenStates.GrownIfNeeded(Setting(), Now()).Some?
      modifies this, hashTable
      ensures Valid() && Contents == old(Contents)
      ensures Some(Now()) == OpenStates.GrownIfNeeded(Setting(), old(Now()))
    {
      hide GrownSize, Means, Linked, Grown;
      if newSize as real / hashSize as real > maxLoadFactor {
        var _ := Grow(GrownSize(hashSize, dynGrowFactor));
      }
    }

    /** The insertion of a new key, and the growth past the load factor. */
    method AddNew(key: K, data: V)
      requires Valid() && key !in Contents && Added(Setting(), Now(), key, data).Some?
      modifies this, hashTable, Elements
      ensures Valid() && Contents == old(Contents)[key := data]
      ensures Some(Now()) == Added(Setting(), old(Now()), key, data)
    {
      FoundMeans(Setting(), Now(), Contents, key);
      var newSize := AddElement(key, data);
      GrowIfNeeded(newSize);
    }

    /** add: a new key is bound, a known key keeps its element; the table grows past the load factor. All
        it asks for is that the loops of an insertion and of a growth end. */
    method Add(key: K, data: V) returns (count: int)
      requires Valid() && Added(Setting(), Now(), key, data).Some?
      modifies this, hashTable, Elements
      ensures Valid() && count == |Contents|
      ensures Contents == if key in old(Contents) then old(Contents) else old(Contents)[key := data]
      ensures Some(Now()) == Added(Setting(), old(Now()), key, data)
      ensures hashSize == if key in old(Contents) then old(hashSize)
                          else NextSize(count, old(hashSize), maxLoadFactor, dynGrowFactor)
    {
      FoundMeans(Setting(), Now(), Contents, key);
      AddedSize(Setting(), Now(), key, data);
      var known := Get(key);
      if known == null {
        AddNew(key, data);
      }
      count := eCount;
    }

    /** The heap part of clearing a slot. */
    method NullSlot(pos: nat)
      requires Linked() && pos < |Cells| && Cells[pos].Taken?
      modifies this`Cells, this`Elements, hashTable
      ensures Linked() && Cells == old(Cells)[pos := Empty] && Elements <= old(Elements)
    {
      assert Matches(hashTable[pos], Cells[pos]);
      assert forall i | 0 <= i < hashTable.Length :: Matches(hashTable[i], Cells[i]);
      ghost var e := hashTable[pos].elem;
      hashTable[pos] := Null;
      Cells, Elements := Cells[pos := Empty], Elements - {e};
    }

    /** The loop of clear() at a position: the slots before it are cleared. */
    ghost predicate Clearing(t: Table<K, V>, pos: nat)
      reads this, hashTable, Elements
    {
      && pos <= |t| && Sized() && Cells == EmptiedTo(t, pos)
      && UniqueKeys(Cells) && Represents(Cells, Contents) && eCount == |Contents|
    }

    method ClearOne(ghost t: Table<K, V>, pos: nat) returns (next: nat)
      requires Clearing(t, pos) && pos < |Cells|
      modifies this`Cells, this`Contents, this`Elements, this`eCount, hashTable
      ensures next == pos + 1 && Clearing(t, next) && Elements <= old(Elements)
    {
      hide EmptiedTo, Represents, UniqueKeys;
      next := pos + 1;
      EmptiedNext(t, pos);
      assert Matches(hashTable[pos], Cells[pos]);
      if hashTable[pos].Used? {
        EmptyRepresents(Cells, Contents, pos);
        ghost var k := Cells[pos].key;
        NullSlot(pos);
        eCount := eCount - 1;
        Contents := Contents - {k};
      }
    }

    /** clear, which leaves the vacated slots as they are. */
    method Clear()
      requires Valid()
      modifies this`Cells, this`Contents, this`Elements, this`eCount, hashTable
      ensures Valid() && Contents == map[] && Now() == Cleared(old(Now()))
      ensures |Cells| == |old(Cells)| && eCount == 0
      ensures forall s | 0 <= s < |Cells| :: Cells[s] == if old(Cells)[s].Taken? then Empty else old(Cells)[s]
    {
      hide Linked, Represents, UniqueKeys, Placed, EmptiedTo;
      ghost var t := Cells;
      assert t == EmptiedTo(t, 0) by {
        NotEmptied(t);
      }
      var pos := 0;
      while eCount > 0
        invariant Clearing(t, pos) && Elements <= old(Elements)
        decreases |Cells| - pos
      {
        // the position never has to wrap around: an element is left
        ElementAhead(t, Contents, pos);
        pos := ClearOne(t, pos);
      }
      EmptiedAll(t, pos, Contents);
      assert Contents.Keys == {};
      ClearedMeans(Setting(), old(Now()));
      EmptiedCells(t);
    }
  }
}
