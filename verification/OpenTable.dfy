/** The open table as a value: what its slots hold, the invariant, and what the operations do to it.
    All of it holds for any probe sequence that depends on the key alone. */
module OpenTable {
  import opened Numbers
  import opened Options

  datatype Cell<K, V> = Empty | Vacated | Taken(key: K, data: V, hops: nat)

  /** The table size and the probe sequence of every key. */
  datatype Layout<!K> = Layout(size: nat, probe: (K, nat) -> nat) {
    predicate Valid() {
      size > 0
    }

    /** The slot of probe i for the key. */
    function Path(key: K, i: nat): (pos: nat)
      requires Valid()
      ensures pos < size
    {
      if probe(key, i) < size then probe(key, i) else 0
    }

    /** The slots a search for the key visits. */
    ghost function Visited(key: K): set<nat>
      requires Valid()
    {
      set i: nat | 0 <= i < size :: Path(key, i)
    }

    /** The slots a search for the key can end at: behind the last probe there is one more. */
    ghost function Ends(key: K): set<nat>
      requires Valid()
    {
      set i: nat | 0 <= i <= size :: Path(key, i)
    }

    /** No two probes of a search hit the same slot. */
    ghost predicate Distinct(key: K)
      requires Valid()
    {
      forall i, j | 0 <= i < j < size :: Path(key, i) != Path(key, j)
    }
  }

  type Table<K, V> = seq<Cell<K, V>>

  ghost predicate PlacedAt<K, V>(l: Layout<K>, t: Table<K, V>, s: nat)
    requires l.Valid() && |t| == l.size && s < |t| && t[s].Taken?
  {
    && t[s].hops <= l.size
    && l.Path(t[s].key, t[s].hops) == s
    && forall j | 0 <= j < t[s].hops :: !t[l.Path(t[s].key, j)].Empty?
  }

  /** Each element sits at probe "hops" of its key, and all earlier probes are non-null. */
  ghost predicate Placed<K, V>(l: Layout<K>, t: Table<K, V>) {
    l.Valid() && |t| == l.size && forall s | 0 <= s < |t| && t[s].Taken? :: PlacedAt(l, t, s)
  }

  ghost predicate UniqueKeys<K, V>(t: Table<K, V>) {
    forall r, s | 0 <= r < |t| && 0 <= s < |t| && t[r].Taken? && t[s].Taken? && t[r].key == t[s].key :: r == s
  }

  ghost predicate Invariant<K, V>(l: Layout<K>, t: Table<K, V>) {
    Placed(l, t) && UniqueKeys(t)
  }

  ghost predicate HasKey<K, V>(t: Table<K, V>, k: K) {
    exists s :: 0 <= s < |t| && t[s].Taken? && t[s].key == k
  }

  /** The finite map the table stands for. */
  ghost predicate Represents<K, V>(t: Table<K, V>, m: map<K, V>) {
    && (forall s | 0 <= s < |t| && t[s].Taken? :: t[s].key in m && m[t[s].key] == t[s].data)
    && (forall k | k in m :: HasKey(t, k))
  }

  /** The table is sound and stands for the map. */
  ghost predicate Stands<K, V>(l: Layout<K>, t: Table<K, V>, m: map<K, V>) {
    Invariant(l, t) && Represents(t, m)
  }

  ghost predicate NoneVacated<K, V>(t: Table<K, V>) {
    forall s | 0 <= s < |t| :: !t[s].Vacated?
  }

  // ---- Searching

  /** The condition at which the probe loop stops, at probe i. */
  predicate Stops<K(==), V>(l: Layout<K>, t: Table<K, V>, key: K, allowVacated: bool, robinHood: bool, i: nat)
    requires l.Valid() && |t| == l.size
  {
    var c := t[l.Path(key, i)];
    c.Empty?
    || (c.Vacated? && allowVacated)
    || (c.Taken? && c.key == key)
    || (robinHood && c.Taken? && i > 1 && c.hops < i - 1)
  }

  /** The hops of a search that starts at probe i: to the first stop, or through all of the table. */
  function Search<K(==), V>(l: Layout<K>, t: Table<K, V>, key: K, allowVacated: bool, robinHood: bool, i: nat): (h: nat)
    requires l.Valid() && |t| == l.size && i <= l.size
    ensures i <= h <= l.size
    ensures forall j | i <= j < h :: !Stops(l, t, key, allowVacated, robinHood, j)
    ensures h < l.size ==> Stops(l, t, key, allowVacated, robinHood, h)
    decreases l.size - i
  {
    if i == l.size || Stops(l, t, key, allowVacated, robinHood, i) then i
    else Search(l, t, key, allowVacated, robinHood, i + 1)
  }

  lemma FirstStop<K, V>(l: Layout<K>, t: Table<K, V>, key: K, allowVacated: bool, robinHood: bool, h: nat)
    requires l.Valid() && |t| == l.size && h <= l.size
    requires forall j | 0 <= j < h :: !Stops(l, t, key, allowVacated, robinHood, j)
    requires h < l.size ==> Stops(l, t, key, allowVacated, robinHood, h)
    ensures Search(l, t, key, allowVacated, robinHood, 0) == h
  {
  }

  /** Where a lookup ends, and where an insertion ends. */
  function LookupSlot<K(==), V>(l: Layout<K>, t: Table<K, V>, key: K): (s: nat)
    requires l.Valid() && |t| == l.size
    ensures s < l.size
  {
    l.Path(key, Search(l, t, key, false, false, 0))
  }

  function InsertSlot<K(==), V>(l: Layout<K>, t: Table<K, V>, key: K): (s: nat)
    requires l.Valid() && |t| == l.size
    ensures s < l.size
  {
    l.Path(key, InsertHops(l, t, key))
  }

  function InsertHops<K(==), V>(l: Layout<K>, t: Table<K, V>, key: K): (h: nat)
    requires l.Valid() && |t| == l.size
    ensures h <= l.size
  {
    Search(l, t, key, true, true, 0)
  }

  /** Where an insertion ends: it passes elements of other keys only, and from the third probe on only those that
      lie no more than one hop nearer to their own base. So it ends at a free slot, at its own key, or at an
      element that has come at least two hops less, which it displaces. */
  lemma InsertionStops<K, V>(l: Layout<K>, t: Table<K, V>, key: K)
    requires l.Valid() && |t| == l.size
    ensures var h := InsertHops(l, t, key);
            && (forall j | 0 <= j < h ::
                  var c := t[l.Path(key, j)];
                  c.Taken? && c.key != key && (j <= 1 || c.hops + 1 >= j))
            && (h < l.size ==>
                  var c := t[l.Path(key, h)];
                  c.Empty? || c.Vacated? || c.key == key || (h > 1 && c.hops + 1 < h))
  {
    var h := InsertHops(l, t, key);
    forall j | 0 <= j < h
      ensures var c := t[l.Path(key, j)]; c.Taken? && c.key != key && (j <= 1 || c.hops + 1 >= j)
    {
      assert !Stops(l, t, key, true, true, j);
    }
    if h < l.size {
      assert Stops(l, t, key, true, true, h);
    }
  }

  /** Where a lookup ends: it passes vacated slots and elements of other keys. */
  lemma LookupStops<K, V>(l: Layout<K>, t: Table<K, V>, key: K)
    requires l.Valid() && |t| == l.size
    ensures var h := Search(l, t, key, false, false, 0);
            && (forall j | 0 <= j < h ::
                  var c := t[l.Path(key, j)];
                  c.Vacated? || (c.Taken? && c.key != key))
            && (h < l.size ==>
                  var c := t[l.Path(key, h)];
                  c.Empty? || (c.Taken? && c.key == key))
  {
    var h := Search(l, t, key, false, false, 0);
    forall j | 0 <= j < h
      ensures var c := t[l.Path(key, j)]; c.Vacated? || (c.Taken? && c.key != key)
    {
      assert !Stops(l, t, key, false, false, j);
    }
    if h < l.size {
      assert Stops(l, t, key, false, false, h);
    }
  }

  /** A stored key is found in its slot, whatever has been vacated, even if no null slot is left. */
  lemma LookupHits<K, V>(l: Layout<K>, t: Table<K, V>, s: nat)
    requires Invariant(l, t) && s < |t| && t[s].Taken?
    ensures LookupSlot(l, t, t[s].key) == s
  {
    assert PlacedAt(l, t, s);
    var k, g := t[s].key, t[s].hops;
    var h := Search(l, t, k, false, false, 0);
    if g < h {
      assert Stops(l, t, k, false, false, g);
    } else if h < g {
      assert !t[l.Path(k, h)].Empty?;
    }
  }

  /** If the probes are distinct, the lookup passes exactly "hops" slots, none of which holds the key. */
  lemma HopsAreExact<K, V>(l: Layout<K>, t: Table<K, V>, s: nat)
    requires Invariant(l, t) && s < |t| && t[s].Taken? && t[s].hops < l.size
    requires l.Distinct(t[s].key)
    ensures Search(l, t, t[s].key, false, false, 0) == t[s].hops
  {
    LookupHits(l, t, s);
    assert PlacedAt(l, t, s);
    var k, g := t[s].key, t[s].hops;
    var h := Search(l, t, k, false, false, 0);
    if g < h {
      assert Stops(l, t, k, false, false, g);
    } else if h < g {
      assert false;
    }
  }

  // ---- Inserting

  function Put<K, V>(t: Table<K, V>, s: nat, key: K, data: V, hops: nat): Table<K, V>
    requires s < |t|
  {
    t[s := Taken(key, data, hops)]
  }

  /** One placement of the displacement loop. */
  function Place<K(==), V>(l: Layout<K>, t: Table<K, V>, key: K, data: V): (t': Table<K, V>)
    requires l.Valid() && |t| == l.size
    ensures |t'| == |t|
  {
    var h := InsertHops(l, t, key);
    Put(t, l.Path(key, h), key, data, h)
  }

  /** Placing an absent key where the search ended keeps the invariant. */
  lemma PutKeepsInvariant<K, V>(l: Layout<K>, t: Table<K, V>, key: K, data: V, h: nat)
    requires Invariant(l, t) && !HasKey(t, key) && h == InsertHops(l, t, key)
    ensures Invariant(l, Put(t, l.Path(key, h), key, data, h))
  {
    var s := l.Path(key, h);
    var t' := Put(t, s, key, data, h);
    forall r | 0 <= r < |t'| && t'[r].Taken?
      ensures PlacedAt(l, t', r)
    {
      if r == s {
        forall j | 0 <= j < h
          ensures !t'[l.Path(key, j)].Empty?
        {
          assert !Stops(l, t, key, true, true, j);
        }
      } else {
        assert PlacedAt(l, t, r);
      }
    }
  }

  /** Of the map, it adds the key and takes out the resident it displaces. */
  lemma PutRepresents<K, V>(t: Table<K, V>, m: map<K, V>, s: nat, key: K, data: V, h: nat)
    requires UniqueKeys(t) && Represents(t, m) && s < |t| && key !in m
    ensures Represents(Put(t, s, key, data, h), (if t[s].Taken? then m - {t[s].key} else m)[key := data])
  {
    var t' := Put(t, s, key, data, h);
    assert t'[s].key == key;
    forall k | k in m && (t[s].Taken? ==> k != t[s].key)
      ensures HasKey(t', k)
    {
      var r :| 0 <= r < |t| && t[r].Taken? && t[r].key == k;
      assert t'[r] == t[r];
    }
  }

  /** The table after the insertion and at most "rounds" placements: each but the last displaces a
      resident, which is placed next. None if that is not enough. */
  function Settle<K(==), V>(l: Layout<K>, t: Table<K, V>, key: K, data: V, rounds: nat): (r: Option<Table<K, V>>)
    requires l.Valid() && |t| == l.size
    ensures r.Some? ==> |r.value| == |t|
    decreases rounds
  {
    if rounds == 0 then None
    else
      var s := InsertSlot(l, t, key);
      var t' := Place(l, t, key, data);
      if t[s].Taken? then Settle(l, t', t[s].key, t[s].data, rounds - 1) else Some(t')
  }

  /** A placement leaves the rest of the chain to do: the displaced element, if there is one. */
  lemma SettleStep<K, V>(l: Layout<K>, t: Table<K, V>, key: K, data: V, rounds: nat, final: Table<K, V>,
                         t': Table<K, V>, displaced: Option<(K, V)>) returns (rest: nat)
    requires l.Valid() && |t| == l.size && Settle(l, t, key, data, rounds) == Some(final)
    requires t' == Place(l, t, key, data)
    requires var c := t[InsertSlot(l, t, key)]; displaced == if c.Taken? then Some((c.key, c.data)) else None
    ensures rest < rounds
    ensures match displaced
            case None => final == t'
            case Some(e) => Settle(l, t', e.0, e.1, rest) == Some(final)
  {
    rest := rounds - 1;
  }

  /** Robin Hood insertion refines map insertion, whatever the chain of displacements, even through
      placements for want of a free slot. */
  lemma {:induction false} SettleRefines<K, V>(l: Layout<K>, t: Table<K, V>, m: map<K, V>, key: K, data: V, rounds: nat)
    requires Invariant(l, t) && Represents(t, m) && key !in m
    requires Settle(l, t, key, data, rounds).Some?
    ensures var t' := Settle(l, t, key, data, rounds).value;
            Invariant(l, t') && Represents(t', m[key := data])
    decreases rounds
  {
    var s := InsertSlot(l, t, key);
    PlaceRefines(l, t, m, key, data);
    if t[s].Taken? {
      var m' := (m - {t[s].key})[key := data];
      SettleRefines(l, Place(l, t, key, data), m', t[s].key, t[s].data, rounds - 1);
    }
  }

  /** One placement: the map with the new key, and then with the displaced element back, is as it should be. */
  lemma PlaceRefines<K, V>(l: Layout<K>, t: Table<K, V>, m: map<K, V>, key: K, data: V)
    requires Invariant(l, t) && Represents(t, m) && key !in m
    ensures var s := InsertSlot(l, t, key);
            var m' := (if t[s].Taken? then m - {t[s].key} else m)[key := data];
            && Invariant(l, Place(l, t, key, data)) && Represents(Place(l, t, key, data), m')
            && (t[s].Taken? ==> t[s].key !in m' && m'[t[s].key := t[s].data] == m[key := data])
  {
    var h := InsertHops(l, t, key);
    PutKeepsInvariant(l, t, key, data, h);
    PutRepresents(t, m, l.Path(key, h), key, data, h);
  }

  // ---- The displacement loop ends

  /** Some probe of the key finds a slot free. */
  ghost predicate MeetsFree<K, V>(l: Layout<K>, t: Table<K, V>, key: K)
    requires l.Valid() && |t| == l.size
  {
    exists i :: 0 <= i < l.size && !t[l.Path(key, i)].Taken?
  }

  ghost predicate AllMeetFree<K, V>(l: Layout<K>, t: Table<K, V>)
    requires l.Valid() && |t| == l.size
  {
    forall s | 0 <= s < |t| && t[s].Taken? :: MeetsFree(l, t, t[s].key)
  }

  /** The same, or the slot behind the last probe is free: a search that finds nothing ends there. */
  ghost predicate FindsFree<K, V>(l: Layout<K>, t: Table<K, V>, key: K)
    requires l.Valid() && |t| == l.size
  {
    exists i :: 0 <= i <= l.size && !t[l.Path(key, i)].Taken?
  }

  ghost predicate AllFindFree<K, V>(l: Layout<K>, t: Table<K, V>)
    requires l.Valid() && |t| == l.size
  {
    forall s | 0 <= s < |t| && t[s].Taken? :: FindsFree(l, t, t[s].key)
  }

  /** The placements fill free slots only, and leave no other trace in them. */
  lemma {:induction false} SettleFillsFree<K, V>(l: Layout<K>, t: Table<K, V>, key: K, data: V, rounds: nat, s: nat)
    requires l.Valid() && |t| == l.size && s < |t| && Settle(l, t, key, data, rounds).Some?
    ensures var t' := Settle(l, t, key, data, rounds).value;
            (t[s].Taken? ==> t'[s].Taken?) && (t'[s].Taken? || t'[s] == t[s])
    decreases rounds
  {
    var r := InsertSlot(l, t, key);
    if t[r].Taken? {
      SettleFillsFree(l, Place(l, t, key, data), t[r].key, t[r].data, rounds - 1, s);
    }
  }

  function HopsOf<K, V>(c: Cell<K, V>): nat {
    if c.Taken? then c.hops else 0
  }

  function HopSum<K, V>(t: Table<K, V>): nat {
    if |t| == 0 then 0 else HopSum(t[..|t| - 1]) + HopsOf(t[|t| - 1])
  }

  lemma {:induction false} HopSumPut<K, V>(t: Table<K, V>, s: nat, c: Cell<K, V>)
    requires s < |t|
    ensures HopSum(t[s := c]) == HopSum(t) - HopsOf(t[s]) + HopsOf(c)
  {
    var t' := t[s := c];
    if s == |t| - 1 {
      assert t'[..s] == t[..s];
    } else {
      assert t'[..|t| - 1] == t[..|t| - 1][s := c];
      HopSumPut(t[..|t| - 1], s, c);
    }
  }

  lemma {:induction false} HopSumBound<K, V>(t: Table<K, V>, b: nat)
    requires forall s | 0 <= s < |t| :: HopsOf(t[s]) <= b
    ensures HopSum(t) <= |t| * b
  {
    if |t| > 0 {
      HopSumBound(t[..|t| - 1], b);
      assert |t| * b == (|t| - 1) * b + b;
    }
  }

  /** What the sum of all hops can still gain. */
  ghost function Gap<K, V>(l: Layout<K>, t: Table<K, V>): nat
    requires Placed(l, t)
  {
    assert forall s | 0 <= s < |t| && t[s].Taken? :: PlacedAt(l, t, s);
    HopSumBound(t, l.size);
    l.size * l.size - HopSum(t)
  }

  /** Rounds in which every insertion ends that ends at all; see SettlesIff. */
  function Limit<K>(l: Layout<K>): nat {
    2 * (l.size * l.size) + 2
  }

  /** The displacement loop of the insertion ends. */
  predicate Settles<K(==), V>(l: Layout<K>, t: Table<K, V>, key: K, data: V)
    requires l.Valid() && |t| == l.size
  {
    Settle(l, t, key, data, Limit(l)).Some?
  }

  /** The search for the element goes through the whole table and ends at an element that once did the
      same, and whose search goes through the whole table as well. */
  predicate Swaps<K(==), V>(l: Layout<K>, t: Table<K, V>, key: K, data: V)
    requires l.Valid() && |t| == l.size
  {
    var c := t[InsertSlot(l, t, key)];
    && InsertHops(l, t, key) == l.size && c.Taken? && c.hops == l.size
    && InsertHops(l, Place(l, t, key, data), c.key) == l.size
  }

  /** The chain of displacements comes to such a pair of elements. */
  predicate ComesToSwap<K(==), V>(l: Layout<K>, t: Table<K, V>, key: K, data: V, rounds: nat)
    requires l.Valid() && |t| == l.size
    decreases rounds
  {
    var c := t[InsertSlot(l, t, key)];
    Swaps(l, t, key, data)
    || (rounds > 0 && c.Taken? && ComesToSwap(l, Place(l, t, key, data), c.key, c.data, rounds - 1))
  }

  /** A displacement never lowers the sum of all hops. It keeps the sum only if the element and the resident
      have gone through the whole table both. */
  lemma DisplacementGains<K, V>(l: Layout<K>, t: Table<K, V>, key: K, data: V)
    requires Invariant(l, t) && !HasKey(t, key) && t[InsertSlot(l, t, key)].Taken?
    ensures var h := InsertHops(l, t, key);
            var c := t[InsertSlot(l, t, key)];
            var t' := Place(l, t, key, data);
            && Invariant(l, t') && !HasKey(t', c.key) && c.hops <= h && Gap(l, t') == Gap(l, t) - (h - c.hops)
            && (h < l.size ==> c.hops + 2 <= h)
  {
    var h := InsertHops(l, t, key);
    var s := l.Path(key, h);
    assert PlacedAt(l, t, s);
    if h < l.size {
      assert Stops(l, t, key, true, true, h);
    }
    PutKeepsInvariant(l, t, key, data, h);
    HopSumPut(t, s, Taken(key, data, h));
  }

  /** Two such elements take each other's place for ever. */
  lemma SwapIsBack<K, V>(l: Layout<K>, t: Table<K, V>, key: K, data: V)
    requires Invariant(l, t) && !HasKey(t, key) && Swaps(l, t, key, data)
    ensures var c := t[InsertSlot(l, t, key)];
            var t' := Place(l, t, key, data);
            && t'[InsertSlot(l, t', c.key)] == Taken(key, data, l.size)
            && Place(l, t', c.key, c.data) == t
  {
    var s := InsertSlot(l, t, key);
    assert PlacedAt(l, t, s);
    assert Place(l, t, key, data)[s := t[s]] == t;
  }

  lemma {:induction false} SwapNeverSettles<K, V>(l: Layout<K>, t: Table<K, V>, key: K, data: V, rounds: nat)
    requires Invariant(l, t) && !HasKey(t, key) && Swaps(l, t, key, data)
    ensures Settle(l, t, key, data, rounds) == None
    decreases rounds
  {
    SwapIsBack(l, t, key, data);
    if rounds >= 2 {
      SwapNeverSettles(l, t, key, data, rounds - 2);
    }
  }

  /** A chain that comes to a swap never ends. */
  lemma {:induction false} ComesToSwapNeverSettles<K, V>(l: Layout<K>, t: Table<K, V>, key: K, data: V, n: nat,
                                                         rounds: nat)
    requires Invariant(l, t) && !HasKey(t, key) && ComesToSwap(l, t, key, data, n)
    ensures Settle(l, t, key, data, rounds) == None
    decreases n
  {
    var c := t[InsertSlot(l, t, key)];
    if Swaps(l, t, key, data) {
      SwapNeverSettles(l, t, key, data, rounds);
    } else {
      DisplacementGains(l, t, key, data);
      if rounds > 0 {
        ComesToSwapNeverSettles(l, Place(l, t, key, data), c.key, c.data, n - 1, rounds - 1);
      }
    }
  }

  /** A chain that comes to no swap ends: all but every other displacement raises the sum of hops. */
  lemma {:induction false} SettlesWithoutSwap<K, V>(l: Layout<K>, t: Table<K, V>, key: K, data: V, rounds: nat)
    requires Invariant(l, t) && !HasKey(t, key) && rounds >= 2 * Gap(l, t) + 2 && !ComesToSwap(l, t, key, data, rounds)
    ensures Settle(l, t, key, data, rounds).Some?
    decreases rounds
  {
    var c := t[InsertSlot(l, t, key)];
    if c.Taken? {
      var h := InsertHops(l, t, key);
      var t' := Place(l, t, key, data);
      DisplacementGains(l, t, key, data);
      if c.hops < h {
        SettlesWithoutSwap(l, t', c.key, c.data, rounds - 1);
      } else {
        SecondRound(l, t', c.key, c.data, rounds - 1, h);
      }
    }
  }

  /** The round after a displacement that gained nothing. */
  lemma {:induction false} SecondRound<K, V>(l: Layout<K>, t: Table<K, V>, key: K, data: V, rounds: nat, h: nat)
    requires Invariant(l, t) && !HasKey(t, key) && rounds >= 2 * Gap(l, t) + 1 && !ComesToSwap(l, t, key, data, rounds)
    requires InsertHops(l, t, key) < l.size
    ensures Settle(l, t, key, data, rounds).Some?
    decreases rounds
  {
    var c := t[InsertSlot(l, t, key)];
    if c.Taken? {
      DisplacementGains(l, t, key, data);
      SettlesWithoutSwap(l, Place(l, t, key, data), c.key, c.data, rounds - 1);
    }
  }

  /** More rounds change nothing once the loop has ended. */
  lemma {:induction false} SettleMore<K, V>(l: Layout<K>, t: Table<K, V>, key: K, data: V, rounds: nat, more: nat)
    requires l.Valid() && |t| == l.size && Settle(l, t, key, data, rounds).Some? && more >= rounds
    ensures Settle(l, t, key, data, more) == Settle(l, t, key, data, rounds)
    decreases rounds
  {
    var c := t[InsertSlot(l, t, key)];
    if c.Taken? {
      SettleMore(l, Place(l, t, key, data), c.key, c.data, rounds - 1, more - 1);
    }
  }

  /** The displacement loop ends at all exactly if it ends within the limit, and exactly if it comes to no
      two elements that take each other's place for ever. */
  lemma SettlesIff<K, V>(l: Layout<K>, t: Table<K, V>, key: K, data: V)
    requires Invariant(l, t) && !HasKey(t, key)
    ensures (exists n: nat :: Settle(l, t, key, data, n).Some?) <==> Settles(l, t, key, data)
    ensures Settles(l, t, key, data) <==> !ComesToSwap(l, t, key, data, Limit(l))
  {
    if ComesToSwap(l, t, key, data, Limit(l)) {
      forall n: nat
        ensures Settle(l, t, key, data, n) == None
      {
        ComesToSwapNeverSettles(l, t, key, data, Limit(l), n);
      }
    } else {
      SettlesWithoutSwap(l, t, key, data, Limit(l));
    }
  }

  /** If every path finds a free slot, the chain of displacements ends. */
  lemma {:induction false} FreeSettles<K, V>(l: Layout<K>, t: Table<K, V>, key: K, data: V, rounds: nat)
    requires Invariant(l, t) && !HasKey(t, key) && FindsFree(l, t, key) && AllFindFree(l, t)
    ensures !ComesToSwap(l, t, key, data, rounds)
    ensures rounds >= Limit(l) ==> Settle(l, t, key, data, rounds).Some?
    decreases rounds
  {
    var s := InsertSlot(l, t, key);
    if t[s].Taken? {
      FreeStopsEarly(l, t, key);
      if rounds > 0 {
        DisplacementGains(l, t, key, data);
        FreeStays(l, t, key, data);
        FreeSettles(l, Place(l, t, key, data), t[s].key, t[s].data, rounds - 1);
      }
    }
    if rounds >= Limit(l) {
      SettlesWithoutSwap(l, t, key, data, rounds);
    }
  }

  /** With a free slot on its path a search never ends at a resident behind the last probe. */
  lemma FreeStopsEarly<K, V>(l: Layout<K>, t: Table<K, V>, key: K)
    requires l.Valid() && |t| == l.size && FindsFree(l, t, key) && t[InsertSlot(l, t, key)].Taken?
    ensures InsertHops(l, t, key) < l.size
  {
    var i :| 0 <= i <= l.size && !t[l.Path(key, i)].Taken?;
    if i < l.size {
      assert Stops(l, t, key, true, true, i);
    }
  }

  lemma FreeStays<K, V>(l: Layout<K>, t: Table<K, V>, key: K, data: V)
    requires l.Valid() && |t| == l.size && FindsFree(l, t, key) && AllFindFree(l, t) && t[InsertSlot(l, t, key)].Taken?
    ensures FindsFree(l, Place(l, t, key, data), t[InsertSlot(l, t, key)].key) && AllFindFree(l, Place(l, t, key, data))
  {
    var s, t' := InsertSlot(l, t, key), Place(l, t, key, data);
    forall k | FindsFree(l, t, k)
      ensures FindsFree(l, t', k)
    {
      var i :| 0 <= i <= l.size && !t[l.Path(k, i)].Taken?;
      assert !t'[l.Path(k, i)].Taken?;
    }
  }

  /** If neither the key nor any element finds a free slot, the displacement loop never ends. */
  lemma {:induction false} NeverSettles<K, V>(l: Layout<K>, t: Table<K, V>, key: K, data: V, rounds: nat)
    requires l.Valid() && |t| == l.size && !FindsFree(l, t, key)
    requires forall s | 0 <= s < |t| && t[s].Taken? :: !FindsFree(l, t, t[s].key)
    ensures Settle(l, t, key, data, rounds) == None
    decreases rounds
  {
    if rounds > 0 {
      var s, t' := InsertSlot(l, t, key), Place(l, t, key, data);
      assert forall r | 0 <= r < |t| :: t'[r].Taken? <==> t[r].Taken?;
      NeverSettles(l, t', t[s].key, t[s].data, rounds - 1);
    }
  }

  /** For keys of one path the loop ends exactly if a slot on the path is free. */
  lemma OnePathSettlesIff<K, V>(l: Layout<K>, t: Table<K, V>, key: K, data: V)
    requires Invariant(l, t) && !HasKey(t, key)
    requires forall s, i | 0 <= s < |t| && t[s].Taken? && 0 <= i <= l.size :: l.Path(t[s].key, i) == l.Path(key, i)
    ensures Settles(l, t, key, data) <==> FindsFree(l, t, key)
  {
    if FindsFree(l, t, key) {
      var i :| 0 <= i <= l.size && !t[l.Path(key, i)].Taken?;
      assert forall s | 0 <= s < |t| && t[s].Taken? :: l.Path(t[s].key, i) == l.Path(key, i);
      FreeSettles(l, t, key, data, Limit(l));
    } else {
      forall s | 0 <= s < |t| && t[s].Taken?
        ensures !FindsFree(l, t, t[s].key)
      {
        assert forall i | 0 <= i <= l.size :: l.Path(t[s].key, i) == l.Path(key, i);
      }
      NeverSettles(l, t, key, data, Limit(l));
    }
  }

  /** An insertion that ends is the insertion into the map, and makes no vacated slots. */
  lemma InsertionRefines<K, V>(l: Layout<K>, t: Table<K, V>, m: map<K, V>, key: K, data: V) returns (final: Table<K, V>)
    requires Stands(l, t, m) && key !in m && Settles(l, t, key, data)
    ensures Settle(l, t, key, data, Limit(l)) == Some(final)
    ensures Stands(l, final, m[key := data])
    ensures NoneVacated(t) ==> NoneVacated(final)
  {
    SettleRefines(l, t, m, key, data, Limit(l));
    final := Settle(l, t, key, data, Limit(l)).value;
    forall s | 0 <= s < |t|
      ensures final[s].Taken? || final[s] == t[s]
    {
      SettleFillsFree(l, t, key, data, Limit(l), s);
    }
  }

  // ---- Hops below the size

  /** No element has been placed behind the last probe. */
  ghost predicate HopsBelow<K, V>(l: Layout<K>, t: Table<K, V>) {
    forall s | 0 <= s < |t| && t[s].Taken? :: t[s].hops < l.size
  }

  /** If every path meets a free slot, no placement of an insertion is behind the last probe. */
  lemma {:induction false} HopsStayBelow<K, V>(l: Layout<K>, t: Table<K, V>, key: K, data: V, rounds: nat)
    requires l.Valid() && |t| == l.size && MeetsFree(l, t, key) && AllMeetFree(l, t) && HopsBelow(l, t)
    requires Settle(l, t, key, data, rounds).Some?
    ensures HopsBelow(l, Settle(l, t, key, data, rounds).value)
    decreases rounds
  {
    var s, t' := InsertSlot(l, t, key), Place(l, t, key, data);
    var i :| 0 <= i < l.size && !t[l.Path(key, i)].Taken?;
    assert Stops(l, t, key, true, true, i);
    if t[s].Taken? {
      forall k | MeetsFree(l, t, k)
        ensures MeetsFree(l, t', k)
      {
        var j :| 0 <= j < l.size && !t[l.Path(k, j)].Taken?;
        assert !t'[l.Path(k, j)].Taken?;
      }
      HopsStayBelow(l, t', t[s].key, t[s].data, rounds - 1);
    }
  }

  // ---- Enough room for c elements

  /** Every search for one of the keys visits more than c slots. */
  ghost predicate RoomFor<K>(l: Layout<K>, keys: set<K>, c: nat)
    requires l.Valid()
  {
    forall key | key in keys :: |l.Visited(key)| > c
  }

  /** Every search visits more than c slots. */
  ghost predicate Roomy<K(!new)>(l: Layout<K>, c: nat)
    requires l.Valid()
  {
    forall key: K :: |l.Visited(key)| > c
  }

  ghost function TakenSlots<K, V>(t: Table<K, V>): set<nat> {
    set s: nat | s < |t| && t[s].Taken?
  }

  /** The slots taken are as many as the keys at most. */
  lemma {:induction false} TakenBound<K, V>(t: Table<K, V>, slots: set<nat>, keys: set<K>)
    requires UniqueKeys(t) && forall s | s in slots :: s < |t| && t[s].Taken? && t[s].key in keys
    ensures |slots| <= |keys|
    decreases |slots|
  {
    if slots != {} {
      var s :| s in slots;
      TakenBound(t, slots - {s}, keys - {t[s].key});
    }
  }

  /** A search that visits more slots than there are elements meets a free slot. */
  lemma RoomMeetsFree<K, V>(l: Layout<K>, t: Table<K, V>, m: map<K, V>, key: K)
    requires l.Valid() && |t| == l.size && UniqueKeys(t) && Represents(t, m) && |l.Visited(key)| > |m|
    ensures MeetsFree(l, t, key)
  {
    var slots := TakenSlots(t);
    TakenBound(t, slots, m.Keys);
    if l.Visited(key) <= slots {
      SubsetSize(l.Visited(key), slots);
      assert false;
    }
    var x :| x in l.Visited(key) && x !in slots;
    var i: nat :| i < l.size && l.Path(key, i) == x;
  }

  /** With room for the key and all keys stored, every search that matters meets a free slot. */
  lemma RoomIsFree<K, V>(l: Layout<K>, t: Table<K, V>, m: map<K, V>, c: nat, key: K)
    requires l.Valid() && |t| == l.size && UniqueKeys(t) && Represents(t, m)
    requires |m| <= c && RoomFor(l, m.Keys + {key}, c)
    ensures MeetsFree(l, t, key) && AllMeetFree(l, t)
  {
    RoomMeetsFree(l, t, m, key);
    forall s | 0 <= s < |t| && t[s].Taken?
      ensures MeetsFree(l, t, t[s].key)
    {
      RoomMeetsFree(l, t, m, t[s].key);
    }
  }

  lemma MeetingIsFinding<K, V>(l: Layout<K>, t: Table<K, V>, key: K, data: V)
    requires Invariant(l, t) && !HasKey(t, key) && MeetsFree(l, t, key) && AllMeetFree(l, t)
    ensures Settles(l, t, key, data)
  {
    FreeSettles(l, t, key, data, Limit(l));
  }

  /** Every key takes a slot of its own. */
  lemma {:induction false} KeysBound<K, V>(t: Table<K, V>, slots: set<nat>, keys: set<K>)
    requires forall k | k in keys :: exists s | s in slots :: s < |t| && t[s].Taken? && t[s].key == k
    ensures |keys| <= |slots|
    decreases keys
  {
    if keys != {} {
      var k :| k in keys;
      var s :| s in slots && s < |t| && t[s].Taken? && t[s].key == k;
      forall k' | k' in keys - {k}
        ensures exists s' | s' in slots - {s} :: s' < |t| && t[s'].Taken? && t[s'].key == k'
      {
        var s' :| s' in slots && s' < |t| && t[s'].Taken? && t[s'].key == k';
        assert s' in slots - {s};
      }
      KeysBound(t, slots - {s}, keys - {k});
    }
  }

  lemma TakenCount<K, V>(t: Table<K, V>, m: map<K, V>)
    requires UniqueKeys(t) && Represents(t, m)
    ensures |TakenSlots(t)| == |m|
  {
    TakenBound(t, TakenSlots(t), m.Keys);
    forall k | k in m.Keys
      ensures exists s | s in TakenSlots(t) :: s < |t| && t[s].Taken? && t[s].key == k
    {
      assert HasKey(t, k);
      var s: nat :| s < |t| && t[s].Taken? && t[s].key == k;
      assert s in TakenSlots(t);
    }
    KeysBound(t, TakenSlots(t), m.Keys);
  }

  /** For keys of one path an insertion ends exactly as long as there are fewer elements than slots at which
      a search can end. */
  lemma OnePathCountIff<K, V>(l: Layout<K>, t: Table<K, V>, m: map<K, V>, key: K, data: V)
    requires Stands(l, t, m) && key !in m
    requires forall k, i | k in m && 0 <= i <= l.size :: l.Path(k, i) == l.Path(key, i)
    ensures Settles(l, t, key, data) <==> |m| < |l.Ends(key)|
  {
    var taken, ends := TakenSlots(t), l.Ends(key);
    OnePathSettlesIff(l, t, key, data);
    TakenCount(t, m);
    forall s | s in taken
      ensures s in ends
    {
      assert PlacedAt(l, t, s);
    }
    if FindsFree(l, t, key) {
      var i :| 0 <= i <= l.size && !t[l.Path(key, i)].Taken?;
      SubsetSize(taken, ends - {l.Path(key, i)});
    } else {
      SubsetSize(ends, taken);
    }
  }

  // ---- Clearing

  lemma EmptyRepresents<K, V>(t: Table<K, V>, m: map<K, V>, s: nat)
    requires UniqueKeys(t) && Represents(t, m) && s < |t| && t[s].Taken?
    ensures t[s].key in m && UniqueKeys(t[s := Empty]) && Represents(t[s := Empty], m - {t[s].key})
  {
    var t' := t[s := Empty];
    forall k | k in m && k != t[s].key
      ensures HasKey(t', k)
    {
      var r :| 0 <= r < |t| && t[r].Taken? && t[r].key == k;
      assert t'[r] == t[r];
    }
  }

  lemma SomeElementLeft<K, V>(t: Table<K, V>, m: map<K, V>, pos: nat)
    requires Represents(t, m) && |m| > 0 && forall s | 0 <= s < pos && s < |t| :: !t[s].Taken?
    ensures pos < |t|
  {
    var k :| k in m;
    assert HasKey(t, k);
  }

  lemma NothingLeft<K, V>(t: Table<K, V>, m: map<K, V>)
    requires Represents(t, m) && |m| == 0
    ensures m == map[] && forall s | 0 <= s < |t| :: !t[s].Taken?
  {
    assert m.Keys == {};
    assert m == map[];
  }

  // ---- Moving to a larger table

  lemma EmptyStands<K, V>(l: Layout<K>, t: Table<K, V>)
    requires l.Valid() && |t| == l.size && forall s | 0 <= s < |t| :: !t[s].Taken?
    ensures Stands(l, t, map[])
  {
  }

  /** One more slot looked at: an element there is new to the map. */
  lemma NextSlot<K, V>(t: Table<K, V>, m: map<K, V>, pos: nat, next: nat)
    requires UniqueKeys(t) && pos < |t| && next == pos + 1 && Represents(t[..pos], m)
    ensures t[pos].Taken? ==> t[pos].key !in m && Represents(t[..next], m[t[pos].key := t[pos].data])
    ensures !t[pos].Taken? ==> Represents(t[..next], m)
  {
    var u, u' := t[..pos], t[..next];
    forall k | k in m
      ensures HasKey(u', k)
    {
      assert HasKey(u, k);
      var s :| 0 <= s < |u| && u[s].Taken? && u[s].key == k;
      assert u'[s] == u[s];
    }
    if t[pos].Taken? {
      assert u'[pos].key == t[pos].key;
      if t[pos].key in m {
        assert false;
      }
    }
  }

  lemma AllMoved<K, V>(t: Table<K, V>, pos: nat, m: map<K, V>, m': map<K, V>)
    requires pos == |t| && Represents(t[..pos], m) && Represents(t, m')
    ensures m == m'
  {
    assert t[..pos] == t;
    assert forall k | k in m :: HasKey(t, k);
    assert forall k | k in m' :: HasKey(t, k);
  }

  // ---- Removing

  lemma VacateKeepsInvariant<K, V>(l: Layout<K>, t: Table<K, V>, s: nat)
    requires Invariant(l, t) && s < |t| && t[s].Taken?
    ensures Invariant(l, t[s := Vacated])
  {
    var t' := t[s := Vacated];
    forall r | 0 <= r < |t'| && t'[r].Taken?
      ensures PlacedAt(l, t', r)
    {
      assert PlacedAt(l, t, r);
    }
  }

  lemma VacateRepresents<K, V>(t: Table<K, V>, m: map<K, V>, s: nat)
    requires UniqueKeys(t) && Represents(t, m) && s < |t| && t[s].Taken?
    ensures Represents(t[s := Vacated], m - {t[s].key})
  {
    var t' := t[s := Vacated];
    forall k | k in m && k != t[s].key
      ensures HasKey(t', k)
    {
      var r :| 0 <= r < |t| && t[r].Taken? && t[r].key == k;
      assert t'[r] == t[r];
    }
  }

  /** The path of the key has no null slot, and the probe after the last is at an element. */
  ghost predicate ReachesAnother<K, V>(l: Layout<K>, t: Table<K, V>, key: K)
    requires l.Valid() && |t| == l.size
  {
    (forall j | 0 <= j < l.size :: !t[l.Path(key, j)].Empty?) && t[l.Path(key, l.size)].Taken?
  }

  /** privRemoveKey never compares keys: this is exactly when removing an absent key vacates a slot. */
  lemma AbsentRemovalIff<K, V>(l: Layout<K>, t: Table<K, V>, key: K)
    requires Invariant(l, t) && !HasKey(t, key)
    ensures t[LookupSlot(l, t, key)].Taken? <==> ReachesAnother(l, t, key)
  {
    var h := Search(l, t, key, false, false, 0);
    if h < l.size {
      assert Stops(l, t, key, false, false, h);
      assert t[l.Path(key, h)].Empty?;
    } else {
      forall j | 0 <= j < l.size
        ensures !t[l.Path(key, j)].Empty?
      {
        assert !Stops(l, t, key, false, false, j);
      }
    }
  }

  /** A removal by key, seen as a map: the key found is taken out, and a present key is the key found. */
  lemma RemovalRefines<K, V>(l: Layout<K>, t: Table<K, V>, m: map<K, V>, key: K)
    requires Invariant(l, t) && Represents(t, m)
    ensures var s := LookupSlot(l, t, key);
            && (key in m ==> t[s].Taken? && t[s].key == key && t[s].data == m[key])
            && (t[s].Taken? ==>
                  && t[s].key in m && Invariant(l, t[s := Vacated])
                  && Represents(t[s := Vacated], m - {t[s].key}))
            && (key !in m ==> (t[s].Taken? <==> ReachesAnother(l, t, key)))
  {
    var s := LookupSlot(l, t, key);
    if key in m {
      assert HasKey(t, key);
      var r :| 0 <= r < |t| && t[r].Taken? && t[r].key == key;
      LookupHits(l, t, r);
    } else {
      AbsentRemovalIff(l, t, key);
    }
    if t[s].Taken? {
      VacateKeepsInvariant(l, t, s);
      VacateRepresents(t, m, s);
    }
  }

  /** A worn table: all slots vacated but the first, which the absent key reaches after the last probe.
      Looking up the absent key for removal ends at the element there. */
  lemma WornTable<K, V>(l: Layout<K>, t: Table<K, V>, absent: K)
    requires l.Valid() && |t| == l.size && t[0].Taken? && t[0].hops == 0 && forall s | 0 < s < |t| :: t[s].Vacated?
    requires l.Path(t[0].key, 0) == 0 && l.Path(absent, l.size) == 0 && absent != t[0].key
    ensures Invariant(l, t) && !HasKey(t, absent) && LookupSlot(l, t, absent) == 0
  {
    assert PlacedAt(l, t, 0);
    AbsentRemovalIff(l, t, absent);
  }
}
