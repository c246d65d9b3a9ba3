/** Histories of the open hash in which the code does not do what it promises. */
module Failures {
  import opened Options
  import opened Words
  import opened Numbers
  import opened Stepping
  import opened HashMethods
  import opened Probing
  import opened OpenTable
  import opened Geometry
  import opened Growth
  import opened OpenStates
  import opened Histories
  import opened ThreadHash

  lemma Extended<K, V>(u: Setup<K>, size: Word, history: History<K, V>, a: Action<K, V>)
    requires Steppable(size)
    ensures var before := StateAfter(u, size, history);
            StateAfter(u, size, history + [a]) == if before.None? then None else Histories.Step(u, before.value, a)
    ensures MapAfter(history + [a]) == MapStep(MapAfter(history), a)
  {
    assert (history + [a])[..|history|] == history;
  }

  lemma NothingYet<K, V>(u: Setup<K>, size: Word)
    requires Steppable(size)
    ensures StateAfter<K, V>(u, size, []) == Some(NewState(size)) && MapAfter<K, V>([]) == map[]
  {
  }

  // ---- An insertion that never ends, in a table filled to two thirds

  /** All keys have the primary hash 0, and step 6 in this table; the load factor is the default. */
  ghost predicate Alike(u: Setup<nat>) {
    (forall key :: u.hash(key) == 0) && Stepping.Step(u.secHash(0), 15, Division) == 6 && u.maxLoad == OPEN_MAX_LOAD
  }

  /** Such hash functions exist. */
  lemma SomeAreAlike()
    ensures Alike(Setup(ZERO_HASH, SIX, OPEN_MAX_LOAD, OPEN_GROWTH))
  {
    StepSixOfFifteen();
  }

  function Additions(n: nat): (h: History<nat, nat>)
    ensures |h| == n
  {
    if n == 0 then [] else Additions(n - 1) + [Addition(n - 1, n - 1)]
  }

  function Shape15(u: Setup<nat>): (l: Layout<nat>)
    ensures l.Valid() && l.size == 15
  {
    LayoutOf(u.hash, u.secHash, 15, Division)
  }

  lemma OnePath(u: Setup<nat>, key: nat, i: nat)
    requires Alike(u) && i <= 15
    ensures Shape15(u).Path(key, i) == PATH_OF_FIFTEEN[i]
  {
    hide Stepping.Step, At;
    assert Scaled(0, 15) == 0;
    PathIsProbe(u.hash, u.secHash, 15, Division, key, i);
    ProbesOfFifteen(i);
  }

  lemma EndsOf<K>(l: Layout<K>, key: K, path: seq<nat>)
    requires l.Valid() && |path| == l.size + 1 && forall i | 0 <= i <= l.size :: l.Path(key, i) == path[i]
    ensures l.Ends(key) == set x | x in path
  {
    forall x | x in path
      ensures x in l.Ends(key)
    {
      var i: nat :| i < |path| && path[i] == x;
      assert l.Path(key, i) == x;
    }
  }

  /** A search can end at ten of the fifteen slots. */
  lemma TenEnds(u: Setup<nat>, key: nat)
    requires Alike(u)
    ensures |Shape15(u).Ends(key)| == 10
  {
    hide Shape15;
    forall i: nat | i <= 15
      ensures Shape15(u).Path(key, i) == PATH_OF_FIFTEEN[i]
    {
      OnePath(u, key, i);
    }
    EndsOf(Shape15(u), key, PATH_OF_FIFTEEN);
    PathSlots();
    TenNumbers();
    assert Shape15(u).Ends(key) == SLOTS_OF_FIFTEEN;
  }

  const SLOTS_OF_FIFTEEN: set<nat> := {0, 2, 3, 6, 7, 9, 10, 11, 12, 14}

  lemma PathSlots()
    ensures forall x :: x in PATH_OF_FIFTEEN <==> x in SLOTS_OF_FIFTEEN
  {
    assert PATH_OF_FIFTEEN[15] == 2 && PATH_OF_FIFTEEN[10] == 7 && PATH_OF_FIFTEEN[13] == 10;
    assert PATH_OF_FIFTEEN[9] == 11 && PATH_OF_FIFTEEN[12] == 14;
  }

  lemma TenNumbers()
    ensures |SLOTS_OF_FIFTEEN| == 10
  {
  }

  lemma ItsShape(u: Setup<nat>, s: State<nat, nat>)
    requires s.size == 15 && s.how == Division
    ensures Shape(u, s) == Shape15(u)
  {
  }

  /** So an insertion ends exactly as long as there are fewer than ten elements. */
  lemma EndsBelowTen(u: Setup<nat>, s: State<nat, nat>, m: map<nat, nat>, key: nat, data: nat)
    requires Alike(u) && Means(u, s, m) && s.size == 15 && s.how == Division && key !in m
    ensures Shape(u, s) == Shape15(u)
    ensures Settles(Shape(u, s), s.cells, key, data) <==> |m| < 10
  {
    hide Shape15, Stands;
    ItsShape(u, s);
    forall k: nat, i | 0 <= i <= 15
      ensures Shape15(u).Path(k, i) == Shape15(u).Path(key, i)
    {
      OnePath(u, k, i);
      OnePath(u, key, i);
    }
    TenEnds(u, key);
    OnePathCountIff(Shape15(u), s.cells, m, key, data);
  }

  lemma OneMore(u: Setup<nat>, s: State<nat, nat>, m: map<nat, nat>, key: nat)
    requires Alike(u) && Means(u, s, m) && s.size == 15 && s.how == Division && key !in m && |m| < 10
    ensures var t := Added(u, s, key, key);
            && t.Some? && t.value.size == 15 && t.value.how == Division
            && Means(u, t.value, m[key := key]) && |m[key := key]| == |m| + 1
  {
    hide LayoutOf, Settle, Stands, Found;
    EndsBelowTen(u, s, m, key, key);
    FoundMeans(u, s, m, key);
    InsertedMeans(u, s, m, key, key);
    assert m[key := key].Keys == m.Keys + {key};
    LoadBelow(|m| + 1);
  }

  /** Eleven elements in fifteen slots are below the load factor. */
  lemma LoadBelow(n: nat)
    requires n <= 11
    ensures !Overloads(n, 15, OPEN_MAX_LOAD)
  {
    LoadIsProduct(n, 15, OPEN_MAX_LOAD);
  }

  lemma {:induction false} FirstTen(u: Setup<nat>, n: nat)
    requires Alike(u) && n <= 10
    ensures var s, m := StateAfter(u, 15, Additions(n)), MapAfter(Additions(n));
            && s.Some? && s.value.size == 15 && s.value.how == Division && Means(u, s.value, m)
            && |m| == n && forall k: nat :: k in m <==> k < n
  {
    hide Added, Means, StateAfter, MapAfter;
    if n == 0 {
      NothingYet<nat, nat>(u, 15);
      NewMeans<nat, nat>(u, 15);
    } else {
      FirstTen(u, n - 1);
      Extended(u, 15, Additions(n - 1), Addition(n - 1, n - 1));
      OneMore(u, StateAfter(u, 15, Additions(n - 1)).value, MapAfter(Additions(n - 1)), n - 1);
    }
  }

  /** Ten additions go well. The eleventh never ends, at a load of 11/15, below the 0.8 of the hash. */
  lemma EleventhNeverEnds(u: Setup<nat>)
    requires Alike(u)
    ensures StateAfter(u, 15, Additions(10)).Some? && StateAfter(u, 15, Additions(11)).None?
    ensures var s := StateAfter(u, 15, Additions(10)).value;
            && s.count == 10 && !Overloads(11, s.size, u.maxLoad)
            && forall rounds: nat :: Settle(Shape(u, s), s.cells, 10, 10, rounds) == None
  {
    hide LayoutOf, Stands, Found;
    FirstTen(u, 10);
    var s, m := StateAfter(u, 15, Additions(10)).value, MapAfter(Additions(10));
    EndsBelowTen(u, s, m, 10, 10);
    FoundMeans(u, s, m, 10);
    Extended(u, 15, Additions(10), Addition(10, 10));
    NeverEnds(u, s, m, 10, 10);
    LoadBelow(11);
  }

  lemma NeverEnds<K, V>(u: Setup<K>, s: State<K, V>, m: map<K, V>, key: K, data: V)
    requires Means(u, s, m) && key !in m && !Settles(Shape(u, s), s.cells, key, data)
    ensures forall rounds: nat :: Settle(Shape(u, s), s.cells, key, data, rounds) == None
  {
    AbsentFromTable(s.cells, m, key);
    SettlesIff(Shape(u, s), s.cells, key, data);
  }

  // ---- A removal that hits the wrong key

  const IDENTITY: nat -> Word := key => if key < 0x1_0000_0000 then key else 0

  /** This primary hash, any secondary one, and a load factor that one element in eleven slots does not pass. */
  ghost predicate Plain(u: Setup<nat>) {
    u.hash == IDENTITY && !Overloads(1, 11, u.maxLoad)
  }

  /** Ten keys with the bases 1 to 10 in a table of eleven slots. Keys 0 and 500 share the base 0. */
  const OTHERS: seq<nat> := [10, 2, 7, 12, 4, 1, 6, 11, 3, 8]

  function Shape11(secHash: Word -> Word): (l: Layout<nat>)
    ensures l.Valid() && l.size == 11
  {
    LayoutOf(IDENTITY, secHash, 11, Division)
  }

  lemma BaseOf(n: nat)
    requires n < 10
    ensures Scaled(OTHERS[n], 11) == n + 1
  {
    assert n == 0 || n == 1 || n == 2 || n == 3 || n == 4 || n == 5 || n == 6 || n == 7 || n == 8 || n == 9;
  }

  lemma SharedBase()
    ensures Scaled(0, 11) == 0 && Scaled(500, 11) == 0
  {
  }

  lemma FirstProbe(secHash: Word -> Word, key: nat)
    requires key < 0x1_0000_0000
    ensures Shape11(secHash).Path(key, 0) == Scaled(key, 11)
  {
    hide Stepping.Step, Scaled;
    PathIsProbe(IDENTITY, secHash, 11, Division, key, 0);
  }

  /** A new key at a free base comes, goes, and leaves nothing but a vacated slot. */
  lemma ComesAndGoes<K, V>(u: Setup<K>, s: State<K, V>, key: K, data: V, base: nat)
    requires s.Valid() && base < |s.cells| && s.cells[base].Empty? && Shape(u, s).Path(key, 0) == base
    requires !Overloads(s.count + 1, s.size, u.maxLoad)
    ensures var t := s.(cells := s.cells[base := Taken(key, data, 0)], count := s.count + 1);
            && Added(u, s, key, data) == Some(t)
            && Removed(u, t, key) == s.(cells := s.cells[base := Vacated])
  {
    hide ProbeOf;
    var l := Shape(u, s);
    FirstStop(l, s.cells, key, false, false, 0);
    FirstStop(l, s.cells, key, true, true, 0);
    var t := s.cells[base := Taken(key, data, 0)];
    FirstStop(l, t, key, false, false, 0);
    assert t[base := Vacated] == s.cells[base := Vacated];
  }

  /** The first n of the other keys are added and removed again. */
  function Wear(n: nat): History<nat, nat>
    requires n <= 10
  {
    if n == 0 then [] else Wear(n - 1) + [Addition(OTHERS[n - 1], 0)] + [Removal(OTHERS[n - 1])]
  }

  function Worn(n: nat): State<nat, nat> {
    State(11, Division, seq(11, i => if 1 <= i <= n then Vacated else Empty), 0)
  }

  lemma NewIsWorn()
    ensures NewState<nat, nat>(11) == Worn(0)
  {
    assert NewState<nat, nat>(11).cells == Worn(0).cells;
  }

  lemma WearOne(u: Setup<nat>, n: nat)
    requires Plain(u) && 0 < n <= 10
    ensures var t := Added(u, Worn(n - 1), OTHERS[n - 1], 0);
            t.Some? && Removed(u, t.value, OTHERS[n - 1]) == Worn(n)
  {
    hide LayoutOf, Added, Removed, Scaled;
    BaseOf(n - 1);
    SmallKey(n - 1);
    FirstProbe(u.secHash, OTHERS[n - 1]);
    ComesAndGoes(u, Worn(n - 1), OTHERS[n - 1], 0, n);
    assert Worn(n - 1).cells[n := Vacated] == Worn(n).cells;
  }

  lemma SmallKey(n: nat)
    requires n < 10
    ensures OTHERS[n] < 13
  {
  }

  lemma {:induction false} WearWears(u: Setup<nat>, n: nat)
    requires Plain(u) && n <= 10
    ensures StateAfter(u, 11, Wear(n)) == Some(Worn(n)) && MapAfter(Wear(n)) == map[]
  {
    hide Added, Removed, Worn, StateAfter, MapAfter;
    if n == 0 {
      NothingYet<nat, nat>(u, 11);
      NewIsWorn();
    } else {
      var key := OTHERS[n - 1];
      WearWears(u, n - 1);
      WearOne(u, n);
      assert map[key := 0] - {key} == map[];
      Extended(u, 11, Wear(n - 1), Addition(key, 0));
      Extended(u, 11, Wear(n - 1) + [Addition(key, 0)], Removal(key));
    }
  }

  function WornAndTaken(): History<nat, nat> {
    Wear(10) + [Addition(0, 7)]
  }

  function OnlyZero(): State<nat, nat> {
    State(11, Division, seq(11, i => if i == 0 then Taken(0, 7, 0) else Vacated), 1)
  }

  lemma WornThenTaken(u: Setup<nat>)
    requires Plain(u)
    ensures StateAfter(u, 11, WornAndTaken()) == Some(OnlyZero()) && MapAfter(WornAndTaken()) == map[0 := 7]
  {
    hide LayoutOf, Added, Removed, Scaled;
    WearWears(u, 10);
    SharedBase();
    FirstProbe(u.secHash, 0);
    ComesAndGoes(u, Worn(10), 0, 7, 0);
    assert Worn(10).cells[0 := Taken(0, 7, 0)] == OnlyZero().cells;
    Extended(u, 11, Wear(10), Addition(0, 7));
  }

  /** The search for key 500 passes all slots and ends where key 0 is. */
  lemma HitsZero(u: Setup<nat>)
    requires Plain(u)
    ensures var s := OnlyZero();
            && Found(u, s, 0) == Some(7) && !HasKey(s.cells, 500)
            && Removed(u, s, 500) == State(11, Division, seq(11, i => Vacated), 0)
  {
    hide LayoutOf, Scaled;
    var s := OnlyZero();
    SharedBase();
    FirstProbe(u.secHash, 0);
    assert Prime(11);
    BackAtBase(IDENTITY, u.secHash, 11, Division, 500);
    WornTable(Shape11(u.secHash), s.cells, 500);
    LookupHits(Shape11(u.secHash), s.cells, 0);
    assert s.cells[0 := Vacated] == seq(11, i => Vacated);
  }

  /** After these additions and removals key 0 alone is stored. Removing key 500, which was never added,
      removes key 0. It is the same for the factors of the open hash and for those of the thread store, and for
      every secondary hash function. */
  lemma WrongKeyRemoved(u: Setup<nat>)
    requires Plain(u)
    ensures MapAfter(WornAndTaken()) == map[0 := 7] && MapAfter(WornAndTaken() + [Removal(500)]) == map[0 := 7]
    ensures var s, t := StateAfter(u, 11, WornAndTaken()), StateAfter(u, 11, WornAndTaken() + [Removal(500)]);
            && s.Some? && Found(u, s.value, 0) == Some(7)
            && t.Some? && Found(u, t.value, 0) == None && t.value.count == 0
  {
    hide Found, Removed, WornAndTaken;
    WornThenTaken(u);
    HitsZero(u);
    Extended(u, 11, WornAndTaken(), Removal(500));
    NotFound(u, Removed(u, OnlyZero(), 500), 0);
  }

  lemma FactorsArePlain(secHash: Word -> Word)
    ensures Plain(Setup(IDENTITY, secHash, OPEN_MAX_LOAD, OPEN_GROWTH)) && Plain(ThreadSetup(IDENTITY, secHash))
  {
  }

  lemma NotFound<K, V>(u: Setup<K>, s: State<K, V>, key: K)
    requires s.Valid() && !HasKey(s.cells, key)
    ensures Found(u, s, key) == None
  {
  }
}
