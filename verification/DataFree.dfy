/** Which slots the operations of an open hash use never depends on the data of the elements. */
module DataFree {
  import opened Options
  import opened Words
  import opened Numbers
  import opened Stepping
  import opened HashMethods
  import opened OpenTable
  import opened Geometry
  import opened Growth
  import opened OpenStates

  function BareCell<K, V>(c: Cell<K, V>): Cell<K, ()> {
    match c
    case Empty => Empty
    case Vacated => Vacated
    case Taken(key, _, hops) => Taken(key, (), hops)
  }

  /** The table without its data. */
  function BareTable<K, V>(t: Table<K, V>): (r: Table<K, ()>)
    ensures |r| == |t| && forall i | 0 <= i < |t| :: r[i] == BareCell(t[i])
  {
    seq(|t|, i requires 0 <= i < |t| => BareCell(t[i]))
  }

  function Bare<K, V>(s: State<K, V>): (r: State<K, ()>)
    ensures s.Valid() ==> r.Valid()
  {
    State(s.size, s.how, BareTable(s.cells), s.count)
  }

  function BareResult<K, V>(r: Option<State<K, V>>): Option<State<K, ()>> {
    if r.None? then None else Some(Bare(r.value))
  }

  lemma SearchIsBare<K, V>(l: Layout<K>, t: Table<K, V>, key: K, allowVacated: bool, robinHood: bool)
    requires l.Valid() && |t| == l.size
    ensures Search(l, BareTable(t), key, allowVacated, robinHood, 0) == Search(l, t, key, allowVacated, robinHood, 0)
  {
    var b, h := BareTable(t), Search(l, t, key, allowVacated, robinHood, 0);
    forall i | 0 <= i <= l.size
      ensures Stops(l, b, key, allowVacated, robinHood, i) <==> Stops(l, t, key, allowVacated, robinHood, i)
    {
    }
    FirstStop(l, b, key, allowVacated, robinHood, h);
  }

  lemma PutIsBare<K, V>(t: Table<K, V>, s: nat, c: Cell<K, V>)
    requires s < |t|
    ensures BareTable(t[s := c]) == BareTable(t)[s := BareCell(c)]
  {
  }

  lemma {:induction false} SettleIsBare<K, V>(l: Layout<K>, t: Table<K, V>, key: K, data: V, rounds: nat)
    requires l.Valid() && |t| == l.size
    ensures var r := Settle(l, t, key, data, rounds);
            Settle(l, BareTable(t), key, (), rounds) == if r.None? then None else Some(BareTable(r.value))
    decreases rounds
  {
    hide BareTable;
    SearchIsBare(l, t, key, true, true);
    var h := InsertHops(l, t, key);
    PutIsBare(t, l.Path(key, h), Taken(key, data, h));
    var c := t[l.Path(key, h)];
    if rounds > 0 && c.Taken? {
      SettleIsBare(l, Place(l, t, key, data), c.key, c.data, rounds - 1);
    }
  }

  lemma {:induction false} MovedIsBare<K, V>(l: Layout<K>, t: Table<K, V>, pos: nat)
    requires l.Valid() && pos <= |t|
    ensures Moved(l, BareTable(t), pos) ==
            if Moved(l, t, pos).None? then None else Some(BareTable(Moved(l, t, pos).value))
  {
    hide Settle;
    if pos == 0 {
      assert BareTable(AllEmpty<K, V>(l.size)) == AllEmpty<K, ()>(l.size);
    } else {
      MovedIsBare(l, t, pos - 1);
      var before, c := Moved(l, t, pos - 1), t[pos - 1];
      if before.Some? && c.Taken? {
        SettleIsBare(l, before.value, c.key, c.data, Limit(l));
      }
    }
  }

  lemma FoundIsBare<K, V>(u: Setup<K>, s: State<K, V>, key: K)
    requires s.Valid()
    ensures Found(u, Bare(s), key).Some? <==> Found(u, s, key).Some?
  {
    hide BareTable, LayoutOf;
    assert Shape(u, Bare(s)) == Shape(u, s);
    assert Shape(u, s).size == s.size by {
      ShapeSize(u, s);
    }
    SearchIsBare(Shape(u, s), s.cells, key, false, false);
  }

  lemma ShapeSize<K, V>(u: Setup<K>, s: State<K, V>)
    requires s.Valid()
    ensures Shape(u, s).size == s.size && Shape(u, s).Valid()
  {
  }

  lemma GrownIsBare<K, V>(u: Setup<K>, s: State<K, V>, target: int)
    requires s.Valid()
    ensures Grown(u, Bare(s), target) == BareResult(Grown(u, s, target))
  {
    hide BareTable, Settle, Moved;
    if target > s.size && Growable(target) {
      MovedIsBare(LayoutOf(u.hash, u.secHash, target, MethodFor(target)), s.cells, |s.cells|);
    }
  }

  lemma InsertedIsBare<K, V>(u: Setup<K>, s: State<K, V>, key: K, data: V)
    requires s.Valid()
    ensures Inserted(u, Bare(s), key, ()) == BareResult(Inserted(u, s, key, data))
  {
    hide BareTable, Settle;
    SettleIsBare(Shape(u, s), s.cells, key, data, Limit(Shape(u, s)));
  }

  /** An addition ends or does not whatever the data, and leads to the same slots. */
  lemma AddedIsBare<K, V>(u: Setup<K>, s: State<K, V>, key: K, data: V)
    requires s.Valid()
    ensures Added(u, Bare(s), key, ()) == BareResult(Added(u, s, key, data))
  {
    hide BareTable, Inserted, Grown, Found;
    FoundIsBare(u, s, key);
    InsertedIsBare(u, s, key, data);
    var t := Inserted(u, s, key, data);
    if t.Some? {
      GrownIsBare(u, t.value, GrownSize(t.value.size, u.growth));
    }
  }

  lemma RemovedIsBare<K, V>(u: Setup<K>, s: State<K, V>, key: K)
    requires s.Valid()
    ensures Removed(u, Bare(s), key) == Bare(Removed(u, s, key))
  {
    hide LayoutOf, BareTable;
    ShapeSize(u, s);
    SearchIsBare(Shape(u, s), s.cells, key, false, false);
    var i := LookupSlot(Shape(u, s), s.cells, key);
    PutIsBare(s.cells, i, Vacated);
  }

  lemma BareStands<K, V>(l: Layout<K>, t: Table<K, V>, m: map<K, V>, keys: map<K, ()>)
    requires Stands(l, t, m) && keys.Keys == m.Keys
    ensures Stands(l, BareTable(t), keys)
  {
    hide Placed, UniqueKeys, Represents, BareTable;
    BarePlaced(l, t);
    BareUnique(t);
    BareRepresents(t, m, keys);
  }

  lemma BarePlaced<K, V>(l: Layout<K>, t: Table<K, V>)
    requires Placed(l, t)
    ensures Placed(l, BareTable(t))
  {
    var b := BareTable(t);
    forall i | 0 <= i < |b| && b[i].Taken?
      ensures PlacedAt(l, b, i)
    {
      assert PlacedAt(l, t, i);
    }
  }

  lemma BareUnique<K, V>(t: Table<K, V>)
    requires UniqueKeys(t)
    ensures UniqueKeys(BareTable(t))
  {
  }

  lemma BareRepresents<K, V>(t: Table<K, V>, m: map<K, V>, keys: map<K, ()>)
    requires Represents(t, m) && keys.Keys == m.Keys
    ensures Represents(BareTable(t), keys)
  {
    var b := BareTable(t);
    forall i | 0 <= i < |b| && b[i].Taken?
      ensures b[i].key in keys
    {
      assert t[i].key in m.Keys;
    }
    forall k | k in keys
      ensures HasKey(b, k)
    {
      assert k in m.Keys;
      assert HasKey(t, k);
      var i :| 0 <= i < |b| && t[i].Taken? && t[i].key == k;
      assert b[i].Taken? && b[i].key == k;
    }
  }

  /** Without its data a hash stands for the same keys. */
  lemma BareMeans<K, V>(u: Setup<K>, s: State<K, V>, m: map<K, V>, keys: map<K, ()>)
    requires Means(u, s, m) && keys.Keys == m.Keys
    ensures Means(u, Bare(s), keys)
  {
    hide Stands, BareTable, LayoutOf;
    assert |keys| == |keys.Keys| == |m|;
    BareStands(Shape(u, s), s.cells, m, keys);
  }

  // ---- Setting a key again and again

  /** Each of so many settings of the key in a row ends: the key is removed, and then added. */
  predicate Settable<K(==)>(u: Setup<K>, s: State<K, ()>, key: K, n: nat)
    requires s.Valid()
    decreases n
  {
    n == 0 ||
    (var r := Added(u, Removed(u, s, key), key, ());
     r.Some? && Settable(u, r.value, key, n - 1))
  }

  lemma {:induction false} FewerSettings<K>(u: Setup<K>, s: State<K, ()>, key: K, n: nat, fewer: nat)
    requires s.Valid() && Settable(u, s, key, n) && fewer <= n
    ensures Settable(u, s, key, fewer)
    decreases n
  {
    hide Added, Removed;
    if fewer > 0 {
      FewerSettings(u, Added(u, Removed(u, s, key), key, ()).value, key, n - 1, fewer - 1);
    }
  }

  /** A setting with data ends if it does without, and uses up one of those that end. */
  lemma SettingEnds<K, V>(u: Setup<K>, s: State<K, V>, key: K, data: V, n: nat)
    requires s.Valid() && n > 0 && Settable(u, Bare(s), key, n)
    ensures var r := Added(u, Removed(u, s, key), key, data); r.Some? && Settable(u, Bare(r.value), key, n - 1)
  {
    hide Added, Removed, Bare;
    RemovedIsBare(u, s, key);
    AddedIsBare(u, Removed(u, s, key), key, data);
  }
}
