/** The open hash as a value: size, method and slots, and what its public operations make of them. An
    operation whose loops never end has no result. */
module OpenStates {
  import opened Options
  import opened Words
  import opened Numbers
  import opened Stepping
  import opened HashMethods
  import opened OpenTable
  import opened Geometry
  import opened Growth

  /** What never changes: the hash functions and the load factors. */
  datatype Setup<!K> = Setup(hash: K -> Word, secHash: Word -> Word, maxLoad: real, growth: real)

  datatype State<K, V> = State(size: Word, how: HashMethod, cells: Table<K, V>, count: int) {
    predicate Valid() {
      Steppable(size) && |cells| == size
    }
  }

  function Shape<K, V>(u: Setup<K>, s: State<K, V>): Layout<K> {
    LayoutOf(u.hash, u.secHash, s.size, s.how)
  }

  function AllEmpty<K, V>(size: nat): (t: Table<K, V>)
    ensures |t| == size && forall s | 0 <= s < size :: t[s].Empty?
  {
    seq(size, i => Empty)
  }

  function NewState<K, V>(size: Word): (s: State<K, V>)
    requires Steppable(size)
    ensures s.Valid()
  {
    State(size, Division, AllEmpty(size), 0)
  }

  /** The sizes for which the loops of privSetHashMethod and privGetStepping end. */
  predicate Growable(target: int) {
    0 <= target < WORD && Steppable(target) && (target % 2 == 1 ==> target <= HALF_WORD)
  }

  /** The new table after the first pos slots of the old one are copied into it. */
  function Moved<K(==), V>(l: Layout<K>, t: Table<K, V>, pos: nat): (r: Option<Table<K, V>>)
    requires l.Valid() && pos <= |t|
    ensures r.Some? ==> |r.value| == l.size
    decreases pos
  {
    if pos == 0 then Some(AllEmpty(l.size))
    else
      var before := Moved(l, t, pos - 1);
      var c := t[pos - 1];
      if before.None? || !c.Taken? then before
      else Settle(l, before.value, c.key, c.data, Limit(l))
  }

  /** grow */
  function Grown<K(==), V>(u: Setup<K>, s: State<K, V>, target: int): (r: Option<State<K, V>>)
    requires s.Valid()
    ensures r.Some? ==> r.value.Valid() && r.value.count == s.count
  {
    if target <= s.size then Some(s)
    else if !Growable(target) then None
    else
      var how := MethodFor(target);
      var moved := Moved(LayoutOf(u.hash, u.secHash, target, how), s.cells, |s.cells|);
      if moved.None? then None else Some(State(target, how, moved.value, s.count))
  }

  /** privInsert */
  function Inserted<K(==), V>(u: Setup<K>, s: State<K, V>, key: K, data: V): (r: Option<State<K, V>>)
    requires s.Valid()
    ensures r.Some? ==> r.value.Valid()
  {
    var settled := Settle(Shape(u, s), s.cells, key, data, Limit(Shape(u, s)));
    if settled.None? then None else Some(s.(cells := settled.value, count := s.count + 1))
  }

  /** privGet */
  function Found<K(==), V>(u: Setup<K>, s: State<K, V>, key: K): Option<V>
    requires s.Valid()
  {
    var c := s.cells[LookupSlot(Shape(u, s), s.cells, key)];
    if c.Taken? && c.key == key then Some(c.data) else None
  }

  /** The growth that follows an insertion. The size asked for must be a 32-bit number. */
  function GrownIfNeeded<K(==), V>(u: Setup<K>, s: State<K, V>): (r: Option<State<K, V>>)
    requires s.Valid()
    ensures r.Some? ==> r.value.Valid() && r.value.count == s.count
  {
    var target := GrownSize(s.size, u.growth);
    if !Overloads(s.count, s.size, u.maxLoad) then Some(s)
    else if 0 <= target < WORD then Grown(u, s, target)
    else None
  }

  /** add */
  function Added<K(==), V>(u: Setup<K>, s: State<K, V>, key: K, data: V): (r: Option<State<K, V>>)
    requires s.Valid()
    ensures r.Some? ==> r.value.Valid()
  {
    if Found(u, s, key).Some? then Some(s)
    else
      var inserted := Inserted(u, s, key, data);
      if inserted.None? then None else GrownIfNeeded(u, inserted.value)
  }

  /** privRemoveKey */
  function Removed<K(==), V>(u: Setup<K>, s: State<K, V>, key: K): (r: State<K, V>)
    requires s.Valid()
    ensures r.Valid()
  {
    var i := LookupSlot(Shape(u, s), s.cells, key);
    if s.cells[i].Taken? then s.(cells := s.cells[i := Vacated], count := s.count - 1) else s
  }

  /** The table with the elements before a position taken out. */
  function EmptiedTo<K, V>(t: Table<K, V>, pos: nat): (r: Table<K, V>)
    ensures |r| == |t|
  {
    seq(|t|, i requires 0 <= i < |t| => if i < pos && t[i].Taken? then Empty else t[i])
  }

  /** clear, which leaves the vacated slots as they are. */
  function Cleared<K, V>(s: State<K, V>): (r: State<K, V>)
    requires s.Valid()
    ensures r.Valid()
  {
    s.(cells := EmptiedTo(s.cells, |s.cells|), count := 0)
  }

  // ---- What the operations mean for a map

  ghost predicate Means<K, V>(u: Setup<K>, s: State<K, V>, m: map<K, V>) {
    s.Valid() && Stands(Shape(u, s), s.cells, m) && s.count == |m|
  }

  lemma NewMeans<K, V>(u: Setup<K>, size: Word)
    requires Steppable(size)
    ensures Means<K, V>(u, NewState(size), map[])
  {
    EmptyStands(Shape(u, NewState<K, V>(size)), AllEmpty<K, V>(size));
  }

  /** The key is found exactly if it is in the map, with the data of the map. */
  lemma FoundMeans<K, V>(u: Setup<K>, s: State<K, V>, m: map<K, V>, key: K)
    requires Means(u, s, m)
    ensures Found(u, s, key) == if key in m then Some(m[key]) else None
  {
    if key in m {
      assert HasKey(s.cells, key);
      var i :| 0 <= i < |s.cells| && s.cells[i].Taken? && s.cells[i].key == key;
      LookupHits(Shape(u, s), s.cells, i);
    }
  }

  lemma AbsentFromTable<K, V>(t: Table<K, V>, m: map<K, V>, key: K)
    requires Represents(t, m) && key !in m
    ensures !HasKey(t, key)
  {
  }

  lemma InsertedCounts<K, V>(u: Setup<K>, s: State<K, V>, key: K, data: V)
    requires s.Valid() && Inserted(u, s, key, data).Some?
    ensures var t := Inserted(u, s, key, data).value; t.size == s.size && t.how == s.how && t.count == s.count + 1
  {
  }

  lemma InsertedMeans<K, V>(u: Setup<K>, s: State<K, V>, m: map<K, V>, key: K, data: V)
    requires Means(u, s, m) && key !in m && Inserted(u, s, key, data).Some?
    ensures Means(u, Inserted(u, s, key, data).value, m[key := data])
  {
    var _ := InsertionRefines(Shape(u, s), s.cells, m, key, data);
  }

  /** The copying loop of grow: the new table stands for the part that is copied. */
  lemma {:induction false} MovedStands<K, V>(l: Layout<K>, t: Table<K, V>, m: map<K, V>, pos: nat)
    returns (part: map<K, V>)
    requires l.Valid() && UniqueKeys(t) && Represents(t, m) && pos <= |t| && Moved(l, t, pos).Some?
    ensures Represents(t[..pos], part) && Stands(l, Moved(l, t, pos).value, part) && NoneVacated(Moved(l, t, pos).value)
  {
    if pos == 0 {
      part := map[];
      EmptyStands(l, Moved(l, t, pos).value);
    } else {
      var before := MovedStands(l, t, m, pos - 1);
      NextSlot(t, before, pos - 1, pos);
      var c := t[pos - 1];
      part := before;
      if c.Taken? {
        part := before[c.key := c.data];
        var _ := InsertionRefines(l, Moved(l, t, pos - 1).value, before, c.key, c.data);
      }
    }
  }

  /** The copying goes from the first slot on: of two elements alone in the old table whose keys have the same
      base in the new one, the one in the lower slot gets the base, and the other one the next probe. */
  lemma LowerSlotFirst<K, V>(l: Layout<K>, t: Table<K, V>, a: nat, b: nat)
    requires l.Valid() && a < b < |t| && l.size >= 2 && t[a].Taken? && t[b].Taken? && t[a].key != t[b].key
    requires forall s | 0 <= s < |t| && s != a && s != b :: !t[s].Taken?
    requires l.Path(t[a].key, 0) == l.Path(t[b].key, 0) != l.Path(t[b].key, 1)
    ensures var r := Moved(l, t, |t|);
            && r.Some? && r.value[l.Path(t[a].key, 0)] == Taken(t[a].key, t[a].data, 0)
            && r.value[l.Path(t[b].key, 1)] == Taken(t[b].key, t[b].data, 1)
  {
    hide Search, Stops;
    NothingToMove(l, t, 0, a);
    var r0 := AllEmpty<K, V>(l.size);
    FreeAt(l, r0, t[a].key, 0);
    var r1 := Put(r0, l.Path(t[a].key, 0), t[a].key, t[a].data, 0);
    NothingToMove(l, t, a + 1, b);
    FreeAt(l, r1, t[b].key, 1);
    NothingToMove(l, t, b + 1, |t|);
  }

  /** Slots without elements change nothing. */
  lemma {:induction false} NothingToMove<K, V>(l: Layout<K>, t: Table<K, V>, from: nat, pos: nat)
    requires l.Valid() && from <= pos <= |t| && forall s | from <= s < pos :: !t[s].Taken?
    ensures Moved(l, t, pos) == Moved(l, t, from)
    decreases pos
  {
    if from < pos {
      NothingToMove(l, t, from, pos - 1);
    }
  }

  /** An insertion that finds a null slot at its first or second probe takes it. */
  lemma FreeAt<K, V>(l: Layout<K>, t: Table<K, V>, key: K, h: nat)
    requires l.Valid() && |t| == l.size && h <= 1 && h < l.size && t[l.Path(key, h)].Empty?
    requires h == 1 ==> t[l.Path(key, 0)].Taken? && t[l.Path(key, 0)].key != key
    ensures InsertHops(l, t, key) == h
    ensures forall data, rounds: nat | rounds > 0 ::
              Settle(l, t, key, data, rounds) == Some(Put(t, l.Path(key, h), key, data, h))
  {
    FirstStop(l, t, key, true, true, h);
  }

  /** Copying all slots comes through copying the first of them. */
  lemma {:induction false} MovedBefore<K, V>(l: Layout<K>, t: Table<K, V>, pos: nat, n: nat)
    requires l.Valid() && pos <= n <= |t| && Moved(l, t, n).Some?
    ensures Moved(l, t, pos).Some?
    decreases n
  {
    if pos < n {
      MovedBefore(l, t, pos, n - 1);
    }
  }

  /** grow keeps the map, and leaves no vacated slots in a larger table. */
  lemma GrownMeans<K, V>(u: Setup<K>, s: State<K, V>, m: map<K, V>, target: int)
    requires Means(u, s, m) && Grown(u, s, target).Some?
    ensures Means(u, Grown(u, s, target).value, m)
    ensures target > s.size ==> NoneVacated(Grown(u, s, target).value.cells)
  {
    if target > s.size {
      var l := LayoutOf(u.hash, u.secHash, target, MethodFor(target));
      var part := MovedStands(l, s.cells, m, |s.cells|);
      AllMoved(s.cells, |s.cells|, part, m);
    }
  }

  /** The size after an addition follows from the load factor. */
  lemma AddedSize<K, V>(u: Setup<K>, s: State<K, V>, key: K, data: V)
    requires s.Valid() && Added(u, s, key, data).Some?
    ensures Added(u, s, key, data).value.size == if Found(u, s, key).Some? then s.size
                                                 else NextSize(s.count + 1, s.size, u.maxLoad, u.growth)
  {
    hide Found, Inserted, Grown, GrownSize;
    if Found(u, s, key).None? {
      InsertedCounts(u, s, key, data);
      var t := Inserted(u, s, key, data).value;
      if Overloads(t.count, t.size, u.maxLoad) {
        GrownToSize(u, t, GrownSize(t.size, u.growth));
      }
    }
  }

  lemma GrownToSize<K, V>(u: Setup<K>, s: State<K, V>, target: int)
    requires s.Valid() && Grown(u, s, target).Some?
    ensures Grown(u, s, target).value.size == if target > s.size then target else s.size
  {
    hide Moved, MethodFor;
  }

  /** add binds a new key and leaves a known one as it is. */
  lemma AddedMeans<K, V>(u: Setup<K>, s: State<K, V>, m: map<K, V>, key: K, data: V)
    requires Means(u, s, m) && Added(u, s, key, data).Some?
    ensures Means(u, Added(u, s, key, data).value, if key in m then m else m[key := data])
  {
    FoundMeans(u, s, m, key);
    if key !in m {
      InsertedMeans(u, s, m, key, data);
      var t := Inserted(u, s, key, data).value;
      if Overloads(t.count, t.size, u.maxLoad) {
        GrownMeans(u, t, m[key := data], GrownSize(t.size, u.growth));
      }
    }
  }

  /** The key whose element a removal takes out: the key itself if it is stored, and otherwise the one that
      the search for it ends at. */
  function Victim<K(==), V>(u: Setup<K>, s: State<K, V>, key: K): Option<K>
    requires s.Valid()
  {
    var c := s.cells[LookupSlot(Shape(u, s), s.cells, key)];
    if c.Taken? then Some(c.key) else None
  }

  lemma RemovedMeans<K, V>(u: Setup<K>, s: State<K, V>, m: map<K, V>, key: K)
    requires Means(u, s, m)
    ensures var victim := Victim(u, s, key);
            && (victim.Some? ==> victim.value in m)
            && Means(u, Removed(u, s, key), if victim.Some? then m - {victim.value} else m)
            && (key in m ==> victim == Some(key))
            && (key !in m ==> (victim.Some? <==> ReachesAnother(Shape(u, s), s.cells, key)))
  {
    RemovalRefines(Shape(u, s), s.cells, m, key);
    var victim := Victim(u, s, key);
    if victim.Some? {
      assert (m - {victim.value}).Keys == m.Keys - {victim.value};
    }
  }

  lemma ClearedMeans<K, V>(u: Setup<K>, s: State<K, V>)
    requires s.Valid()
    ensures Means(u, Cleared(s), map[])
  {
    EmptyStands(Shape(u, Cleared(s)), Cleared(s).cells);
  }

  lemma EmptiedCells<K, V>(t: Table<K, V>)
    ensures forall s | 0 <= s < |t| :: EmptiedTo(t, |t|)[s] == if t[s].Taken? then Empty else t[s]
  {
  }

  lemma NotEmptied<K, V>(t: Table<K, V>)
    ensures EmptiedTo(t, 0) == t
  {
  }

  lemma EmptiedNext<K, V>(t: Table<K, V>, pos: nat)
    requires pos < |t|
    ensures var r := EmptiedTo(t, pos);
            EmptiedTo(t, pos + 1) == if r[pos].Taken? then r[pos := Empty] else r
  {
  }

  /** As long as an element is left, it lies ahead. */
  lemma ElementAhead<K, V>(t: Table<K, V>, m: map<K, V>, pos: nat)
    requires Represents(EmptiedTo(t, pos), m) && |m| > 0
    ensures pos < |t|
  {
    SomeElementLeft(EmptiedTo(t, pos), m, pos);
  }

  /** Once no element is left, all of the table has been emptied. */
  lemma EmptiedAll<K, V>(t: Table<K, V>, pos: nat, m: map<K, V>)
    requires Represents(EmptiedTo(t, pos), m) && |m| == 0
    ensures EmptiedTo(t, pos) == EmptiedTo(t, |t|)
  {
    var r := EmptiedTo(t, pos);
    NothingLeft(r, m);
    forall i | 0 <= i < |t|
      ensures r[i] == EmptiedTo(t, |t|)[i]
    {
      assert !r[i].Taken?;
    }
  }

  // ---- When the loops end

  /** Copying ends if the new table has room for the keys in play. */
  lemma {:induction false} MoveEnds<K, V>(l: Layout<K>, t: Table<K, V>, m: map<K, V>, pos: nat, c: nat)
    requires l.Valid() && UniqueKeys(t) && Represents(t, m) && pos <= |t|
    requires |m| <= c + 1 && RoomFor(l, m.Keys, c)
    ensures Moved(l, t, pos).Some? && HopsBelow(l, Moved(l, t, pos).value)
  {
    if pos > 0 {
      MoveEnds(l, t, m, pos - 1, c);
      var e := t[pos - 1];
      if e.Taken? {
        var before := Moved(l, t, pos - 1).value;
        var part := MovedStands(l, t, m, pos - 1);
        NextSlot(t, part, pos - 1, pos);
        PartHasRoom(l, t, m, part, pos, c);
        RoomIsFree(l, before, part, c, e.key);
        assert !HasKey(before, e.key);
        MeetingIsFinding(l, before, e.key, e.data);
        HopsStayBelow(l, before, e.key, e.data, Limit(l));
      }
    }
  }

  lemma PartHasRoom<K, V>(l: Layout<K>, t: Table<K, V>, m: map<K, V>, part: map<K, V>, pos: nat, c: nat)
    requires l.Valid() && Represents(t, m) && 0 < pos <= |t| && t[pos - 1].Taken?
    requires Represents(t[..pos - 1], part) && t[pos - 1].key !in part && |m| <= c + 1 && RoomFor(l, m.Keys, c)
    ensures |part| <= c && RoomFor(l, part.Keys + {t[pos - 1].key}, c)
  {
    var key := t[pos - 1].key;
    forall k | k in part
      ensures k in m
    {
      assert HasKey(t[..pos - 1], k);
      var s :| 0 <= s < pos - 1 && t[..pos - 1][s].Taken? && t[..pos - 1][s].key == k;
      assert t[s].Taken? && t[s].key == k;
    }
    SubsetSize(part.Keys + {key}, m.Keys);
  }

  /** An insertion has room, and so has the growth that may follow it. */
  ghost predicate HasRoom<K, V>(u: Setup<K>, s: State<K, V>, m: map<K, V>, key: K)
    requires s.Valid()
  {
    && RoomFor(Shape(u, s), m.Keys + {key}, |m|)
    && (Overloads(|m| + 1, s.size, u.maxLoad) ==>
          GrowthHasRoom(u, s.size, GrownSize(s.size, u.growth), m.Keys + {key}, |m|))
  }

  /** The table is large enough for the target, or has room when it is grown to it. */
  ghost predicate GrowthHasRoom<K>(u: Setup<K>, size: nat, target: int, keys: set<K>, c: nat) {
    if target <= size then target >= 0
    else Growable(target) && RoomFor(LayoutOf(u.hash, u.secHash, target, MethodFor(target)), keys, c)
  }

  /** An insertion with room ends, and leaves no element behind the last probe. */
  lemma RoomyInsertEnds<K, V>(u: Setup<K>, s: State<K, V>, m: map<K, V>, key: K, data: V)
    requires Means(u, s, m) && key !in m && RoomFor(Shape(u, s), m.Keys + {key}, |m|)
    ensures Inserted(u, s, key, data).Some?
    ensures var t := Inserted(u, s, key, data).value;
            Shape(u, t) == Shape(u, s) && (HopsBelow(Shape(u, s), s.cells) ==> HopsBelow(Shape(u, t), t.cells))
  {
    hide HopsBelow, RoomFor, Placed, UniqueKeys, Represents, MeetsFree, AllMeetFree;
    var l := Shape(u, s);
    RoomIsFree(l, s.cells, m, |m|, key);
    assert !HasKey(s.cells, key) by {
      AbsentFromTable(s.cells, m, key);
    }
    MeetingIsFinding(l, s.cells, key, data);
    if HopsBelow(l, s.cells) {
      HopsStayBelow(l, s.cells, key, data, Limit(l));
    }
  }

  /** So does a growth. */
  lemma RoomyGrowthEnds<K, V>(u: Setup<K>, s: State<K, V>, m: map<K, V>, target: int, c: nat)
    requires Means(u, s, m) && |m| <= c + 1 && GrowthHasRoom(u, s.size, target, m.Keys, c)
    ensures 0 <= target < WORD && Grown(u, s, target).Some?
    ensures HopsBelow(Shape(u, s), s.cells) ==>
              HopsBelow(Shape(u, Grown(u, s, target).value), Grown(u, s, target).value.cells)
  {
    hide HopsBelow, RoomFor, Placed, UniqueKeys, Represents;
    if target > s.size {
      MoveEnds(LayoutOf(u.hash, u.secHash, target, MethodFor(target)), s.cells, m, |s.cells|, c);
    }
  }

  /** Then add ends. */
  lemma RoomyAddEnds<K, V>(u: Setup<K>, s: State<K, V>, m: map<K, V>, key: K, data: V)
    requires Means(u, s, m) && key !in m && HasRoom(u, s, m, key)
    ensures Added(u, s, key, data).Some?
    ensures HopsBelow(Shape(u, s), s.cells) ==>
              HopsBelow(Shape(u, Added(u, s, key, data).value), Added(u, s, key, data).value.cells)
  {
    hide LayoutOf, HopsBelow, RoomFor, GrowthHasRoom, Stands, Found, Inserted, Grown;
    FoundMeans(u, s, m, key);
    RoomyInsertEnds(u, s, m, key, data);
    InsertedMeans(u, s, m, key, data);
    var t := Inserted(u, s, key, data).value;
    assert t.size == s.size && t.count == |m| + 1 by {
      InsertedCounts(u, s, key, data);
    }
    if Overloads(t.count, t.size, u.maxLoad) {
      var m' := m[key := data];
      assert m'.Keys == m.Keys + {key};
      RoomyGrowthEnds(u, t, m', GrownSize(t.size, u.growth), |m|);
    }
  }

  /** In a table of prime size an addition that does not overload it always ends. */
  lemma PrimeAddEnds<K(!new), V>(u: Setup<K>, s: State<K, V>, m: map<K, V>, key: K, data: V)
    requires Means(u, s, m) && key !in m && Prime(s.size) && 11 <= s.size <= HALF_WORD
    requires |m| < s.size && !Overloads(|m| + 1, s.size, u.maxLoad)
    ensures Added(u, s, key, data).Some?
  {
    PrimeIsRoomy(u.hash, u.secHash, s.size, s.how, |m|);
    RoomyAddEnds(u, s, m, key, data);
  }
}
