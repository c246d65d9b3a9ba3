/** The functions that build new sets from two sets, and their comparison. */
module SetFunctions {
  import opened Words
  import opened OpenStates
  import opened Elements
  import opened Sequences
  import opened DoubleList
  import opened ChainHash
  import opened SetAlgebra
  import opened Sets

  /** The new set stands beside both sets. */
  ghost predicate Building<P, D(!new)>(newSet: TSet<P, D>, lhs: TSet<P, D>, rhs: TSet<P, D>)
    reads newSet, newSet.base, newSet.base.Nodes, newSet.base.currStore, newSet.lookup, newSet.lookup.hashTable
    reads newSet.lookup.Elements
    reads lhs, lhs.base, lhs.base.Nodes, lhs.base.currStore, lhs.lookup, lhs.lookup.hashTable, lhs.lookup.Elements
    reads rhs, rhs.base, rhs.base.Nodes, rhs.base.currStore, rhs.lookup, rhs.lookup.hashTable, rhs.lookup.Elements
  {
    newSet.Beside(lhs) && newSet.Beside(rhs)
  }

  /** An empty set to build upon, with the properties of the other sets. */
  method NewSet<P, D(!new)>(lhs: TSet<P, D>, rhs: TSet<P, D>) returns (newSet: TSet<P, D>)
    requires lhs.Valid() && rhs.Valid() && lhs.value == rhs.value
    ensures fresh(newSet) && fresh(newSet.base) && fresh(newSet.base.currStore) && fresh(newSet.lookup)
    ensures fresh(newSet.lookup.hashTable) && newSet.lookup.Elements == {} && newSet.base.Nodes == []
    ensures newSet.value == lhs.value && Building(newSet, lhs, rhs)
  {
    hide Agrees, TChainHash.Valid, ThreadElementStore.Valid, TDoubleList.Valid;
    var threads := lhs.base.currStore.setup;
    newSet := new TSet(lhs.lookup.hash, lhs.value, true, threads.hash, threads.secHash);
  }

  /** The loops at place i of lhs. */
  ghost predicate Picking<P, D(!new)>(newSet: TSet<P, D>, lhs: TSet<P, D>, rhs: TSet<P, D>, inside: bool, i: nat)
    requires i <= |lhs.base.Nodes|
    reads newSet, newSet.base, newSet.base.Nodes, newSet.base.currStore, newSet.lookup, newSet.lookup.hashTable
    reads newSet.lookup.Elements
    reads lhs, lhs.base, lhs.base.Nodes, lhs.base.currStore, lhs.lookup, lhs.lookup.hashTable, lhs.lookup.Elements
    reads rhs, rhs.base, rhs.base.Nodes, rhs.base.currStore, rhs.lookup, rhs.lookup.hashTable, rhs.lookup.Elements
  {
    && Building(newSet, lhs, rhs) && |newSet.base.Nodes| <= i
    && newSet.Data() == Select(lhs.Data()[..i], newSet.value, Members(rhs.Data(), newSet.value), inside)
  }

  /** A push into the new set leaves both sets as they are. */
  method PushBeside<P, D(!new)>(newSet: TSet<P, D>, lhs: TSet<P, D>, rhs: TSet<P, D>, data: P)
    requires Building(newSet, lhs, rhs) && |newSet.base.Nodes| + 1 < WORD
    modifies newSet.base, newSet.base.Nodes, newSet.lookup, newSet.lookup.hashTable, newSet.lookup.Elements
    ensures Building(newSet, lhs, rhs) && newSet.Grown() && |newSet.base.Nodes| <= |old(newSet.base.Nodes)| + 1
    ensures var known := newSet.value(data) in Members(old(newSet.Data()), newSet.value);
            newSet.Data() == old(newSet.Data()) + if known then [] else [data]
    ensures lhs.base.Nodes == old(lhs.base.Nodes) && rhs.base.Nodes == old(rhs.base.Nodes)
  {
    hide Agrees, TChainHash.Valid, ThreadElementStore.Valid, TDoubleList.Valid, Members;
    var _ := newSet.Push(data);
  }

  method PickNext<P, D(!new)>(newSet: TSet<P, D>, lhs: TSet<P, D>, rhs: TSet<P, D>, inside: bool, xCurr: Element<P>,
                              ghost i: nat, ghost k: nat)
    requires i < |lhs.base.Nodes| < WORD && k == i + 1 && xCurr == lhs.base.Nodes[i]
             && Picking(newSet, lhs, rhs, inside, i)
    modifies newSet.base, newSet.base.Nodes, newSet.lookup, newSet.lookup.hashTable, newSet.lookup.Elements
    ensures Picking(newSet, lhs, rhs, inside, k) && newSet.Grown() && lhs.base.Linked()
    ensures lhs.base.Nodes == old(lhs.base.Nodes) && rhs.base.Nodes == old(rhs.base.Nodes)
  {
    hide Building, Members, TSet.Valid, TDoubleList.Linked, Unrepeated, Select;
    PickStarts(newSet, lhs, rhs);
    NextIsNew(lhs.Data(), newSet.value, Members(rhs.Data(), newSet.value), inside, i);
    SelectNext(lhs.Data(), newSet.value, Members(rhs.Data(), newSet.value), inside, i, k);
    var isMember := rhs.HasMember(xCurr);
    if isMember == inside {
      PushBeside(newSet, lhs, rhs, xCurr.data);
    }
    PickStarts(newSet, lhs, rhs);
  }

  lemma PickStarts<P, D(!new)>(newSet: TSet<P, D>, lhs: TSet<P, D>, rhs: TSet<P, D>)
    requires Building(newSet, lhs, rhs)
    ensures newSet.Valid() && lhs.Valid() && rhs.Valid() && lhs.base.Linked() && newSet.base != lhs.base
            && newSet.base != rhs.base
    ensures newSet.value == lhs.value == rhs.value && Unrepeated(lhs.Data(), newSet.value)
  {
    lhs.DataUnrepeated();
  }

  /** The loops of set_difference and set_intersection: push what is not, or what is, a member of rhs. */
  method PickMembers<P, D(!new)>(newSet: TSet<P, D>, lhs: TSet<P, D>, rhs: TSet<P, D>, inside: bool)
    requires |lhs.base.Nodes| < WORD && Picking(newSet, lhs, rhs, inside, 0) && newSet.base != lhs.base
             && lhs.base.Linked()
    modifies newSet.base, newSet.base.Nodes, newSet.lookup, newSet.lookup.hashTable, newSet.lookup.Elements
    ensures Picking(newSet, lhs, rhs, inside, |lhs.base.Nodes|) && newSet.Grown()
    ensures lhs.base.Nodes == old(lhs.base.Nodes) && rhs.base.Nodes == old(rhs.base.Nodes)
  {
    hide Building, TDoubleList.Linked, Select, Members, TSet.Data;
    lhs.base.HeadIsFirst();
    var xCurr, isDone := lhs.base.head, false;
    ghost var i := 0;
    while xCurr != null && !isDone
      invariant lhs.base.Linked() && lhs.Traversing(xCurr, isDone, i)
      invariant Picking(newSet, lhs, rhs, inside, i) && newSet.Grown()
      invariant lhs.base.Nodes == old(lhs.base.Nodes) && rhs.base.Nodes == old(rhs.base.Nodes)
      decreases |lhs.base.Nodes| - i
    {
      ghost var k := i + 1;
      PickNext(newSet, lhs, rhs, inside, xCurr, i, k);
      xCurr, isDone, i := lhs.Advance(xCurr, i);
    }
  }

  /** The new set stands for the data, and both sets are as they were. */
  ghost predicate Built<P, D(!new)>(newSet: TSet<P, D>, lhs: TSet<P, D>, rhs: TSet<P, D>, data: seq<P>)
    reads newSet, newSet.base, newSet.base.Nodes, newSet.base.currStore, newSet.lookup, newSet.lookup.hashTable
    reads newSet.lookup.Elements
    reads lhs, lhs.base, lhs.base.Nodes, lhs.base.currStore, lhs.lookup, lhs.lookup.hashTable, lhs.lookup.Elements
    reads rhs, rhs.base, rhs.base.Nodes, rhs.base.currStore, rhs.lookup, rhs.lookup.hashTable, rhs.lookup.Elements
  {
    Building(newSet, lhs, rhs) && newSet.Data() == data
  }

  lemma PickBegins<P, D(!new)>(newSet: TSet<P, D>, lhs: TSet<P, D>, rhs: TSet<P, D>, inside: bool)
    requires Building(newSet, lhs, rhs) && newSet.base.Nodes == []
    ensures Picking(newSet, lhs, rhs, inside, 0) && newSet.base != lhs.base && lhs.base.Linked()
  {
  }

  /** Pick into an empty new set. */
  method Pick<P, D(!new)>(newSet: TSet<P, D>, lhs: TSet<P, D>, rhs: TSet<P, D>, inside: bool)
    requires Building(newSet, lhs, rhs) && newSet.base.Nodes == [] && |lhs.base.Nodes| < WORD
    modifies newSet.base, newSet.base.Nodes, newSet.lookup, newSet.lookup.hashTable, newSet.lookup.Elements
    ensures Built(newSet, lhs, rhs, Select(lhs.Data(), lhs.value, Members(rhs.Data(), lhs.value), inside))
    ensures lhs.base.Nodes == old(lhs.base.Nodes) && rhs.base.Nodes == old(rhs.base.Nodes)
  {
    hide TSet.Valid, TDoubleList.Linked, Select, Members;
    PickBegins(newSet, lhs, rhs, inside);
    PickMembers(newSet, lhs, rhs, inside);
    assert lhs.Data()[..|lhs.base.Nodes|] == lhs.Data();
  }

  /** Copy one of the sets into the new set. */
  method CopyInto<P, D(!new)>(newSet: TSet<P, D>, lhs: TSet<P, D>, rhs: TSet<P, D>)
    requires Building(newSet, lhs, rhs) && |lhs.base.Nodes| < WORD
    modifies newSet.base, newSet.base.Nodes, newSet.base.currStore, newSet.lookup, newSet.lookup.hashTable
    modifies newSet.lookup.Elements
    ensures Built(newSet, lhs, rhs, lhs.Data())
    ensures lhs.base.Nodes == old(lhs.base.Nodes) && rhs.base.Nodes == old(rhs.base.Nodes)
  {
    hide TSet.Valid;
    newSet.Assign(lhs);
  }

  /** set_difference: what is not in rhs, in the order of lhs. */
  method SetDifference<P, D(!new)>(lhs: TSet<P, D>, rhs: TSet<P, D>) returns (newSet: TSet<P, D>)
    requires lhs.Valid() && rhs.Valid() && lhs.value == rhs.value && |lhs.base.Nodes| < WORD
    ensures fresh(newSet) && Built(newSet, lhs, rhs, Difference(lhs.Data(), rhs.Data(), lhs.value))
  {
    hide Building, TSet.Valid, Select, Members;
    newSet := NewSet(lhs, rhs);
    SpecialCases(lhs.Data(), lhs.value);
    SpecialCases(rhs.Data(), lhs.value);
    if lhs.Size() > 0 && lhs != rhs {
      if rhs.Size() == 0 {
        CopyInto(newSet, lhs, rhs);
      } else {
        Pick(newSet, lhs, rhs, false);
      }
    }
  }

  /** set_intersection: what is in rhs as well, in the order of lhs. */
  method SetIntersection<P, D(!new)>(lhs: TSet<P, D>, rhs: TSet<P, D>) returns (newSet: TSet<P, D>)
    requires lhs.Valid() && rhs.Valid() && lhs.value == rhs.value && |lhs.base.Nodes| < WORD
    ensures fresh(newSet) && Built(newSet, lhs, rhs, Intersection(lhs.Data(), rhs.Data(), lhs.value))
  {
    hide Building, TSet.Valid, Select, Members;
    newSet := NewSet(lhs, rhs);
    SpecialCases(lhs.Data(), lhs.value);
    SpecialCases(rhs.Data(), lhs.value);
    if lhs.Size() > 0 && rhs.Size() > 0 {
      if lhs == rhs {
        CopyInto(newSet, lhs, rhs);
      } else {
        Pick(newSet, lhs, rhs, true);
      }
    }
  }

  /** Append one of the sets to the new set. */
  method AppendInto<P, D(!new)>(newSet: TSet<P, D>, src: TSet<P, D>, other: TSet<P, D>)
    requires Building(newSet, src, other) && |newSet.base.Nodes| + |src.base.Nodes| < WORD
    modifies newSet.base, newSet.base.Nodes, newSet.lookup, newSet.lookup.hashTable, newSet.lookup.Elements
    ensures Built(newSet, src, other, Union(old(newSet.Data()), src.Data(), src.value)) && newSet.Grown()
    ensures src.base.Nodes == old(src.base.Nodes) && other.base.Nodes == old(other.base.Nodes)
  {
    hide TSet.Valid, Union;
    newSet.Append(src);
  }

  /** set_union: the data of lhs, then what is new in rhs, each in order. */
  method SetUnion<P, D(!new)>(lhs: TSet<P, D>, rhs: TSet<P, D>) returns (newSet: TSet<P, D>)
    requires lhs.Valid() && rhs.Valid() && lhs.value == rhs.value && |lhs.base.Nodes| + |rhs.base.Nodes| < WORD
    ensures fresh(newSet) && Built(newSet, lhs, rhs, Union(lhs.Data(), rhs.Data(), lhs.value))
  {
    hide Building, TSet.Valid, Union;
    newSet := NewSet(lhs, rhs);
    CopyByAppending(newSet, lhs, rhs);
    Turn(newSet, lhs, rhs);
    if rhs.Size() > 0 {
      AppendInto(newSet, rhs, lhs);
      Turn(newSet, rhs, lhs);
    } else {
      SpecialCases(lhs.Data(), lhs.value);
      assert rhs.Data() == [];
    }
  }

  /** The first half of set_union. */
  method CopyByAppending<P, D(!new)>(newSet: TSet<P, D>, lhs: TSet<P, D>, rhs: TSet<P, D>)
    requires Building(newSet, lhs, rhs) && newSet.base.Nodes == [] && |lhs.base.Nodes| < WORD
    modifies newSet.base, newSet.base.Nodes, newSet.lookup, newSet.lookup.hashTable, newSet.lookup.Elements
    ensures Built(newSet, lhs, rhs, lhs.Data()) && newSet.Grown() && |newSet.base.Nodes| == |lhs.base.Nodes|
    ensures lhs.base.Nodes == old(lhs.base.Nodes) && rhs.base.Nodes == old(rhs.base.Nodes)
  {
    hide Building, TSet.Valid, Union;
    Turn(newSet, lhs, rhs);
    SpecialCases(lhs.Data(), lhs.value);
    assert newSet.Data() == [];
    if lhs.Size() > 0 {
      AppendInto(newSet, lhs, rhs);
    }
    lhs.DataSize();
    newSet.DataSize();
  }

  lemma Turn<P, D(!new)>(newSet: TSet<P, D>, lhs: TSet<P, D>, rhs: TSet<P, D>)
    requires Building(newSet, lhs, rhs)
    ensures Building(newSet, rhs, lhs) && lhs.Valid() && rhs.Valid()
  {
  }

  /** operator==: same size and one inclusion decide whether the sets have the same members. */
  method AreEqual<P, D(!new)>(lhs: TSet<P, D>, rhs: TSet<P, D>) returns (result: bool)
    requires lhs.Valid() && rhs.Valid() && lhs.value == rhs.value
    ensures result <==> Members(lhs.Data(), lhs.value) == Members(rhs.Data(), rhs.value)
  {
    hide TSet.Valid, Members, TSet.Data;
    result := true;
    if lhs != rhs {
      lhs.DataUnrepeated();
      rhs.DataUnrepeated();
      lhs.DataSize();
      rhs.DataSize();
      if lhs.Size() != rhs.Size() {
        DifferentSizes(lhs.Data(), rhs.Data(), lhs.value);
        result := false;
      } else {
        EqualSizes(lhs.Data(), rhs.Data(), lhs.value);
        result := lhs.IsSubsetOf(rhs);
      }
    }
  }
}
