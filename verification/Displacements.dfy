/** A history of the open hash in which an element is displaced. */
module Displacements {
  import opened Options
  import opened Words
  import opened Numbers
  import opened Stepping
  import opened HashMethods
  import opened Probing
  import opened OpenTable
  import opened Geometry
  import opened Growth
  import opened OpenStates
  import opened Histories
  import opened Failures

  const FOUR: Word -> Word := h => 4
  const FOURS := Setup(IDENTITY, FOUR, OPEN_MAX_LOAD, OPEN_GROWTH)

  function Fours(): (l: Layout<nat>)
    ensures l.Valid() && l.size == 11
  {
    LayoutOf(IDENTITY, FOUR, 11, Division)
  }

  lemma StepFour()
    ensures Stepping.Step(4, 11, Division) == 4
  {
    forall k | 3 <= k < 9
      ensures Fraction(11, k) >= 8
    {
      assert 11 * k <= 88;
      QuotientAtLeast(11 * k, k + 1, 8);
    }
    assert Accepted(11, 4);
    assert Start(4, 11, Division) == 4;
  }

  /** The paths go up by four. */
  lemma PathOf(key: nat, i: nat)
    requires key in {0, 11, 12, 500} && i <= 3
    ensures Fours().Path(key, i) == (Scaled(key, 11) + 4 * i) % 11
  {
    hide Stepping.Step, Scaled;
    StepFour();
    assert Prime(11);
    PrimeIsCoprime(4, 11);
    PathIsProbe(IDENTITY, FOUR, 11, Division, key, i);
    ProbesAreLinear(11, Scaled(key, 11), 4, i);
  }

  lemma Bases()
    ensures Scaled(0, 11) == 0 && Scaled(12, 11) == 4 && Scaled(11, 11) == 8 && Scaled(500, 11) == 0
  {
  }

  lemma Paths()
    ensures var l := Fours();
            && l.Path(0, 0) == 0 && l.Path(12, 0) == 4 && l.Path(11, 0) == 8 && l.Path(11, 1) == 1
            && l.Path(500, 0) == 0 && l.Path(500, 1) == 4 && l.Path(500, 2) == 8
  {
    hide Fours, Scaled;
    Bases();
    PathOf(0, 0);
    PathOf(12, 0);
    PathOf(11, 0);
    PathOf(11, 1);
    PathOf(500, 0);
    PathOf(500, 1);
    PathOf(500, 2);
  }

  /** A new key at a free base is placed there. */
  lemma TakesBase<K, V>(u: Setup<K>, s: State<K, V>, key: K, data: V, base: nat)
    requires s.Valid() && base < |s.cells| && s.cells[base].Empty? && Shape(u, s).Path(key, 0) == base
    requires !Overloads(s.count + 1, s.size, u.maxLoad)
    ensures Added(u, s, key, data)
            == Some(s.(cells := s.cells[base := Taken(key, data, 0)], count := s.count + 1))
  {
    hide ProbeOf;
    FirstStop(Shape(u, s), s.cells, key, false, false, 0);
    FreeAt(Shape(u, s), s.cells, key, 0);
  }

  /** Three elements at their bases, and what the fourth key makes of them. */
  function Three(): (t: Table<nat, nat>)
    ensures |t| == 11
  {
    Upto(3)
  }

  function Four(): (t: Table<nat, nat>)
    ensures |t| == 11
  {
    seq(11, i => if i == 0 then Taken(0, 1, 0) else if i == 4 then Taken(12, 2, 0) else if i == 8 then Taken(500, 4, 2)
                 else if i == 1 then Taken(11, 3, 1) else Empty)
  }

  /** The first n of the additions. */
  function Adds(n: nat): (h: History<nat, nat>)
    requires n <= 4
  {
    if n == 0 then []
    else Adds(n - 1) + [if n == 1 then Addition(0, 1) else if n == 2 then Addition(12, 2)
                        else if n == 3 then Addition(11, 3) else Addition(500, 4)]
  }

  function Upto(n: nat): (t: Table<nat, nat>)
    ensures |t| == 11
  {
    seq(11, i => if i == 0 && n > 0 then Taken(0, 1, 0) else if i == 4 && n > 1 then Taken(12, 2, 0)
                 else if i == 8 && n > 2 then Taken(11, 3, 0) else Empty)
  }

  lemma NextAdded(n: nat, key: nat, base: nat)
    requires n < 3 && base < 11 && Fours().Path(key, 0) == base && Upto(n)[base].Empty?
    requires Upto(n + 1) == Upto(n)[base := Taken(key, n + 1, 0)]
    ensures Added(FOURS, State(11, Division, Upto(n), n), key, n + 1) == Some(State(11, Division, Upto(n + 1), n + 1))
  {
    hide ProbeOf, Added, Upto, Overloads;
    Loads();
    var s := State(11, Division, Upto(n), n);
    assert Shape(FOURS, s) == Fours();
    TakesBase(FOURS, s, key, n + 1, base);
  }

  lemma {:induction false} FirstThree(n: nat)
    requires n <= 3
    ensures StateAfter(FOURS, 11, Adds(n)) == Some(State(11, Division, Upto(n), n))
  {
    hide LayoutOf, Added, StateAfter, MapAfter;
    if n == 0 {
      NothingYet<nat, nat>(FOURS, 11);
      assert NewState<nat, nat>(11).cells == Upto(0);
    } else {
      FirstThree(n - 1);
      Paths();
      var key := if n == 1 then 0 else if n == 2 then 12 else 11;
      var base := if n == 1 then 0 else if n == 2 then 4 else 8;
      assert Upto(n) == Upto(n - 1)[base := Taken(key, n, 0)];
      NextAdded(n - 1, key, base);
      Extended(FOURS, 11, Adds(n - 1), Addition(key, n));
    }
  }

  lemma Loads()
    ensures forall c | 0 <= c <= 4 :: !Overloads(c, 11, OPEN_MAX_LOAD)
  {
  }

  /** Key 500 passes the first two elements and displaces the third one, which goes on to its next probe. */
  lemma FourthSettles()
    ensures Settle(Fours(), Three(), 500, 4, Limit(Fours())) == Some(Four())
    ensures LookupSlot(Fours(), Three(), 500) == 1
  {
    hide Fours, Three, Four;
    var l := Fours();
    Paths();
    Cells();
    FirstStop(l, Three(), 500, true, true, 2);
    var t := Put(Three(), 8, 500, 4, 2);
    FreeAt(l, t, 11, 1);
    assert Put(t, 1, 11, 3, 1) == Four();
    PathOf(500, 3);
    Bases();
    FirstStop(l, Three(), 500, false, false, 3);
  }

  lemma Cells()
    ensures Three()[0] == Taken(0, 1, 0) && Three()[4] == Taken(12, 2, 0) && Three()[8] == Taken(11, 3, 0)
    ensures Three()[1].Empty?
    ensures Three()[8 := Taken(500, 4, 2)][1 := Taken(11, 3, 1)] == Four()
  {
  }

  /** Four additions to a new hash of eleven slots. The last one finds its first three probes taken and stores
      its element at the third, two hops from its base, in place of an element at its own base, which ends one hop
      from it. */
  lemma FourthDisplacesThird()
    ensures Adds(4)[0] == Addition(0, 1) && Adds(4)[1] == Addition(12, 2) && Adds(4)[2] == Addition(11, 3)
    ensures |Adds(4)| == 4 && Adds(4)[3] == Addition(500, 4)
    ensures var s := StateAfter(FOURS, 11, Adds(4));
            && s.Some? && s.value.size == 11 && s.value.count == 4
            && s.value.cells[0] == Taken(0, 1, 0) && s.value.cells[4] == Taken(12, 2, 0)
            && s.value.cells[8] == Taken(500, 4, 2) && s.value.cells[1] == Taken(11, 3, 1)
  {
    hide LayoutOf, StateAfter, MapAfter, Overloads, Settle, LookupSlot;
    FirstThree(3);
    FourthSettles();
    Loads();
    var s := State(11, Division, Three(), 3);
    assert Shape(FOURS, s) == Fours();
    Extended(FOURS, 11, Adds(3), Addition(500, 4));
    assert Adds(3) == Adds(2) + [Addition(11, 3)] && Adds(2) == Adds(1) + [Addition(12, 2)];
  }
}
