/** Whole runs of an open hash: any history of additions, removals, growths and clearings of a new one. */
module Histories {
  import opened Options
  import opened Words
  import opened Numbers
  import opened Stepping
  import opened HashMethods
  import opened OpenTable
  import opened Geometry
  import opened Growth
  import opened OpenStates

  datatype Action<K, V> = Addition(key: K, data: V) | Removal(key: K) | Enlargement(target: Word) | Clearing

  type History<K, V> = seq<Action<K, V>>

  function Step<K(==), V>(u: Setup<K>, s: State<K, V>, a: Action<K, V>): (r: Option<State<K, V>>)
    requires s.Valid()
    ensures r.Some? ==> r.value.Valid()
  {
    match a
    case Addition(key, data) => Added(u, s, key, data)
    case Removal(key) => Some(Removed(u, s, key))
    case Enlargement(target) => Grown(u, s, target)
    case Clearing => Some(Cleared(s))
  }

  /** The state a new hash of the size comes to; none if some loop never ends. */
  function StateAfter<K(==), V>(u: Setup<K>, size: Word, history: History<K, V>): (r: Option<State<K, V>>)
    requires Steppable(size)
    ensures r.Some? ==> r.value.Valid()
  {
    if |history| == 0 then Some(NewState(size))
    else
      var before := StateAfter(u, size, history[..|history| - 1]);
      if before.None? then None else Step(u, before.value, history[|history| - 1])
  }

  function MapStep<K(==), V>(m: map<K, V>, a: Action<K, V>): map<K, V> {
    match a
    case Addition(key, data) => if key in m then m else m[key := data]
    case Removal(key) => m - {key}
    case Enlargement(_) => m
    case Clearing => map[]
  }

  /** What the history means for a finite map. */
  function MapAfter<K(==), V>(history: History<K, V>): map<K, V> {
    if |history| == 0 then map[] else MapStep(MapAfter(history[..|history| - 1]), history[|history| - 1])
  }

  /** The action is not the removal of an absent key that ends at another element. */
  ghost predicate Harmless<K, V>(u: Setup<K>, s: State<K, V>, m: map<K, V>, a: Action<K, V>)
    requires s.Valid()
  {
    a.Removal? && a.key !in m ==> !ReachesAnother(Shape(u, s), s.cells, a.key)
  }

  ghost predicate AllHarmless<K, V>(u: Setup<K>, size: Word, history: History<K, V>)
    requires Steppable(size)
  {
    |history| > 0 ==>
      var before := history[..|history| - 1];
      var s := StateAfter(u, size, before);
      AllHarmless(u, size, before) && (s.Some? ==> Harmless(u, s.value, MapAfter(before), history[|history| - 1]))
  }

  lemma StepMeans<K, V>(u: Setup<K>, s: State<K, V>, m: map<K, V>, a: Action<K, V>)
    requires Means(u, s, m) && Step(u, s, a).Some? && Harmless(u, s, m, a)
    ensures Means(u, Step(u, s, a).value, MapStep(m, a))
  {
    hide Stands, Added, Removed, Grown, Cleared;
    match a
    case Addition(key, data) => AddedMeans(u, s, m, key, data);
    case Removal(key) =>
      RemovedMeans(u, s, m, key);
      assert key !in m ==> m - {key} == m;
    case Enlargement(target) => GrownMeans(u, s, m, target);
    case Clearing => ClearedMeans(u, s);
  }

  /** After any history, with tombstones, displacements and growths of any number, the hash stands for the map
      of the history, and every lookup agrees with it. */
  lemma {:induction false} EveryHistory<K(!new), V>(u: Setup<K>, size: Word, history: History<K, V>)
    requires Steppable(size) && StateAfter(u, size, history).Some? && AllHarmless(u, size, history)
    ensures var s, m := StateAfter(u, size, history).value, MapAfter(history);
            Means(u, s, m) && forall key: K :: Found(u, s, key) == if key in m then Some(m[key]) else None
  {
    if |history| == 0 {
      NewMeans<K, V>(u, size);
    } else {
      var last := |history| - 1;
      var before := history[..last];
      EveryHistory(u, size, before);
      StepMeans(u, StateAfter(u, size, before).value, MapAfter(before), history[last]);
    }
    var s, m := StateAfter(u, size, history).value, MapAfter(history);
    forall key: K
      ensures Found(u, s, key) == if key in m then Some(m[key]) else None
    {
      FoundMeans(u, s, m, key);
    }
  }

  /** Even a removal that ends at another element leaves a sound hash: it always stands for some map. */
  lemma {:induction false} AlwaysSound<K, V>(u: Setup<K>, size: Word, history: History<K, V>) returns (m: map<K, V>)
    requires Steppable(size) && StateAfter(u, size, history).Some?
    ensures Means(u, StateAfter(u, size, history).value, m)
  {
    if |history| == 0 {
      m := map[];
      NewMeans<K, V>(u, size);
    } else {
      var last := |history| - 1;
      var m0 := AlwaysSound(u, size, history[..last]);
      var s := StateAfter(u, size, history[..last]).value;
      var a := history[last];
      if a.Removal? {
        RemovedMeans(u, s, m0, a.key);
        var victim := Victim(u, s, a.key);
        m := if victim.Some? then m0 - {victim.value} else m0;
      } else {
        StepMeans(u, s, m0, a);
        m := MapStep(m0, a);
      }
    }
  }

  // ---- Histories with room

  /** The action has the room it may need. */
  ghost predicate Fits<K, V>(u: Setup<K>, s: State<K, V>, m: map<K, V>, a: Action<K, V>)
    requires s.Valid()
  {
    match a
    case Addition(key, _) => key !in m ==> HasRoom(u, s, m, key)
    case Removal(_) => true
    case Enlargement(target) => GrowthHasRoom(u, s.size, target, m.Keys, |m| - if m == map[] then 0 else 1)
    case Clearing => true
  }

  ghost predicate AllFit<K, V>(u: Setup<K>, size: Word, history: History<K, V>)
    requires Steppable(size)
  {
    |history| > 0 ==>
      var before := history[..|history| - 1];
      var s := StateAfter(u, size, before);
      AllFit(u, size, before) && (s.Some? ==> Fits(u, s.value, MapAfter(before), history[|history| - 1]))
  }

  lemma StepEnds<K, V>(u: Setup<K>, s: State<K, V>, m: map<K, V>, a: Action<K, V>)
    requires Means(u, s, m) && Fits(u, s, m, a) && HopsBelow(Shape(u, s), s.cells)
    ensures Step(u, s, a).Some?
    ensures var t := Step(u, s, a).value; HopsBelow(Shape(u, t), t.cells)
  {
    hide HasRoom, GrowthHasRoom, Added, Grown, LayoutOf, Found, Stands;
    match a
    case Addition(key, data) =>
      FoundMeans(u, s, m, key);
      if key in m {
        KnownStays(u, s, key, data);
      } else {
        RoomyAddEnds(u, s, m, key, data);
      }
    case Removal(key) =>
    case Enlargement(target) => RoomyGrowthEnds(u, s, m, target, |m| - if m == map[] then 0 else 1);
    case Clearing =>
  }

  lemma KnownStays<K, V>(u: Setup<K>, s: State<K, V>, key: K, data: V)
    requires s.Valid() && Found(u, s, key).Some?
    ensures Added(u, s, key, data) == Some(s)
  {
  }

  /** A history with room never hangs, and never stores an element behind the last probe. */
  lemma {:induction false} RoomIsEnough<K(!new), V>(u: Setup<K>, size: Word, history: History<K, V>)
    requires Steppable(size) && AllFit(u, size, history) && AllHarmless(u, size, history)
    ensures StateAfter(u, size, history).Some?
    ensures var s := StateAfter(u, size, history).value; HopsBelow(Shape(u, s), s.cells)
  {
    if |history| > 0 {
      var last := |history| - 1;
      var before := history[..last];
      RoomIsEnough(u, size, before);
      EveryHistory(u, size, before);
      StepEnds(u, StateAfter(u, size, before).value, MapAfter(before), history[last]);
    }
  }

  /** After such a history the stored hops of an element are the number of slots a lookup of its key passes,
      if the probes of the key are distinct. */
  lemma HopsExactAfter<K(!new), V>(u: Setup<K>, size: Word, history: History<K, V>, key: K)
    requires Steppable(size) && AllFit(u, size, history) && AllHarmless(u, size, history)
    requires StateAfter(u, size, history).Some? && key in MapAfter(history)
    requires Shape(u, StateAfter(u, size, history).value).Distinct(key)
    ensures var s := StateAfter(u, size, history).value;
            var h := Search(Shape(u, s), s.cells, key, false, false, 0);
            s.cells[Shape(u, s).Path(key, h)] == Taken(key, MapAfter(history)[key], h)
  {
    RoomIsEnough(u, size, history);
    EveryHistory(u, size, history);
    var s := StateAfter(u, size, history).value;
    assert HasKey(s.cells, key);
    var i :| 0 <= i < |s.cells| && s.cells[i].Taken? && s.cells[i].key == key;
    HopsAreExact(Shape(u, s), s.cells, i);
    LookupHits(Shape(u, s), s.cells, i);
  }

  /** Fewer elements than the load factor allows, in a table of prime size, and no removal of an absent key:
      every such history goes through without a growth, and the stored hops are exact. */
  lemma {:induction false} PrimeHistory<K(!new), V>(u: Setup<K>, size: Word, history: History<K, V>)
    requires Prime(size) && 11 <= size <= HALF_WORD
    requires forall n | 0 <= n < |history| :: PrimeStep(u, size, MapAfter(history[..n]), history[n])
    ensures AllFit(u, size, history) && AllHarmless(u, size, history)
    ensures var s := StateAfter(u, size, history); s.Some? && s.value.size == size
  {
    if |history| > 0 {
      var last := |history| - 1;
      var before := history[..last];
      forall n | 0 <= n < last
        ensures PrimeStep(u, size, MapAfter(before[..n]), before[n])
      {
        assert before[..n] == history[..n];
      }
      PrimeHistory(u, size, before);
      EveryHistory(u, size, before);
      var s := StateAfter(u, size, before).value;
      PrimeStepFits(u, s, MapAfter(before), history[last]);
      RoomIsEnough(u, size, history);
    }
  }

  ghost predicate PrimeStep<K, V>(u: Setup<K>, size: Word, m: map<K, V>, a: Action<K, V>) {
    match a
    case Addition(key, _) => key !in m ==> |m| < size && !Overloads(|m| + 1, size, u.maxLoad)
    case Removal(key) => key in m
    case Enlargement(target) => target <= size
    case Clearing => true
  }

  lemma PrimeStepFits<K(!new), V>(u: Setup<K>, s: State<K, V>, m: map<K, V>, a: Action<K, V>)
    requires Means(u, s, m) && Prime(s.size) && 11 <= s.size <= HALF_WORD && PrimeStep(u, s.size, m, a)
    ensures Fits(u, s, m, a) && Harmless(u, s, m, a)
    ensures Step(u, s, a).Some? ==> Step(u, s, a).value.size == s.size
  {
    hide LayoutOf, Prime, Inserted, Found, Overloads;
    match a
    case Addition(key, data) =>
      if key !in m {
        PrimeIsRoomy(u.hash, u.secHash, s.size, s.how, |m|);
      }
      FoundMeans(u, s, m, key);
      if Added(u, s, key, data).Some? {
        AddedSize(u, s, key, data);
      }
    case Removal(key) =>
    case Enlargement(target) =>
    case Clearing =>
  }

  // ---- The load bound over whole histories

  /** Not overloaded, and with a free slot left. */
  predicate WithinLoad<K, V>(s: State<K, V>) {
    0 <= s.count < s.size && !Overloads(s.count, s.size, OPEN_MAX_LOAD)
  }

  lemma SmallerLoad(count: nat, size: nat, fewer: nat, larger: nat)
    requires 0 < size <= larger && fewer <= count < size && !Overloads(count, size, OPEN_MAX_LOAD)
    ensures !Overloads(fewer, larger, OPEN_MAX_LOAD)
  {
    LoadIsProduct(count, size, OPEN_MAX_LOAD);
    LoadIsProduct(fewer, larger, OPEN_MAX_LOAD);
  }

  /** An addition of a new key raises the count by one. */
  lemma AddedCount<K, V>(u: Setup<K>, s: State<K, V>, key: K, data: V)
    requires s.Valid() && Added(u, s, key, data).Some?
    ensures Added(u, s, key, data).value.count == s.count + if Found(u, s, key).Some? then 0 else 1
  {
    hide Found, Inserted, Grown, GrownSize;
    if Found(u, s, key).None? {
      InsertedCounts(u, s, key, data);
    }
  }

  lemma StepKeepsLoad<K, V>(u: Setup<K>, s: State<K, V>, m: map<K, V>, a: Action<K, V>)
    requires u.maxLoad == OPEN_MAX_LOAD && u.growth == OPEN_GROWTH
    requires Means(u, s, m) && WithinLoad(s) && Step(u, s, a).Some?
    ensures WithinLoad(Step(u, s, a).value)
  {
    hide Stands, LayoutOf, Added, Found, Overloads, GrownSize;
    var t := Step(u, s, a).value;
    match a
    case Addition(key, data) =>
      AddedSize(u, s, key, data);
      AddedCount(u, s, key, data);
      OpenLoadBoundKept(s.count, s.size);
    case Removal(key) =>
      RemovedMeans(u, s, m, key);
      SmallerLoad(s.count, s.size, t.count, t.size);
    case Enlargement(target) =>
      GrownToSize(u, s, target);
      SmallerLoad(s.count, s.size, t.count, t.size);
    case Clearing =>
      SmallerLoad(s.count, s.size, t.count, t.size);
  }

  /** With the default factors an open hash is never overloaded, and never full, whatever its history. */
  lemma {:induction false} NeverOverloaded<K, V>(u: Setup<K>, size: Word, history: History<K, V>)
    requires u.maxLoad == OPEN_MAX_LOAD && u.growth == OPEN_GROWTH
    requires Steppable(size) && StateAfter(u, size, history).Some?
    ensures WithinLoad(StateAfter(u, size, history).value)
  {
    hide Step, Means;
    if |history| == 0 {
      LoadIsProduct(0, size, OPEN_MAX_LOAD);
    } else {
      var last := |history| - 1;
      NeverOverloaded(u, size, history[..last]);
      var m := AlwaysSound(u, size, history[..last]);
      StepKeepsLoad(u, StateAfter(u, size, history[..last]).value, m, history[last]);
    }
  }
}
