/** The set functions on the data of sets in their order. */
module SetAlgebra {
  /** The values of the data. */
  ghost function Members<P, D>(ps: seq<P>, value: P -> D): set<D> {
    set i | 0 <= i < |ps| :: value(ps[i])
  }

  ghost predicate Unrepeated<P, D>(ps: seq<P>, value: P -> D) {
    forall i, j | 0 <= i < j < |ps| :: value(ps[i]) != value(ps[j])
  }

  /** The data whose value is inside, or is not inside, a set of values; order is kept. */
  ghost function Select<P, D>(ps: seq<P>, value: P -> D, ds: set<D>, inside: bool): seq<P> {
    if |ps| == 0 then []
    else
      var rest, last := Select(ps[..|ps| - 1], value, ds, inside), ps[|ps| - 1];
      if (value(last) in ds) == inside then rest + [last] else rest
  }

  lemma SelectNext<P, D>(ps: seq<P>, value: P -> D, ds: set<D>, inside: bool, i: nat, k: nat)
    requires k == i + 1 <= |ps|
    ensures var rest := Select(ps[..i], value, ds, inside);
            Select(ps[..k], value, ds, inside) == if (value(ps[i]) in ds) == inside then rest + [ps[i]] else rest
  {
    assert ps[..k][..i] == ps[..i];
  }

  /** The places of the selected data in the source, which rise: nothing is selected twice, and the
      order of the source is kept. */
  ghost predicate Embeds<P>(places: seq<nat>, selected: seq<P>, ps: seq<P>) {
    && |places| == |selected|
    && (forall i | 0 <= i < |places| :: places[i] < |ps| && ps[places[i]] == selected[i])
    && (forall i, j | 0 <= i < j < |places| :: places[i] < places[j])
  }

  lemma {:induction false} SelectKeepsOrder<P, D>(ps: seq<P>, value: P -> D, ds: set<D>, inside: bool)
    returns (places: seq<nat>)
    ensures Embeds(places, Select(ps, value, ds, inside), ps)
  {
    if |ps| == 0 {
      places := [];
    } else {
      var n := |ps| - 1;
      places := SelectKeepsOrder(ps[..n], value, ds, inside);
      if (value(ps[n]) in ds) == inside {
        places := places + [n];
      }
    }
  }

  lemma {:induction false} SelectMembers<P, D>(ps: seq<P>, value: P -> D, ds: set<D>, inside: bool)
    ensures Members(Select(ps, value, ds, inside), value)
            == if inside then Members(ps, value) * ds else Members(ps, value) - ds
  {
    if |ps| > 0 {
      var n := |ps| - 1;
      SelectMembers(ps[..n], value, ds, inside);
      MembersAppend(ps[..n], ps[n], value);
      MembersAppend(Select(ps[..n], value, ds, inside), ps[n], value);
      assert ps[..n] + [ps[n]] == ps;
    }
  }

  lemma MembersAppend<P, D>(ps: seq<P>, p: P, value: P -> D)
    ensures Members(ps + [p], value) == Members(ps, value) + {value(p)}
  {
    var qs := ps + [p];
    forall d | d in Members(ps, value) + {value(p)}
      ensures d in Members(qs, value)
    {
      if d in Members(ps, value) {
        var i :| 0 <= i < |ps| && value(ps[i]) == d;
        assert qs[i] == ps[i];
      } else {
        assert qs[|ps|] == p;
      }
    }
  }

  lemma {:induction false} MembersConcat<P, D>(ps: seq<P>, qs: seq<P>, value: P -> D)
    ensures Members(ps + qs, value) == Members(ps, value) + Members(qs, value)
    decreases |qs|
  {
    if |qs| == 0 {
      assert ps + qs == ps;
    } else {
      var n := |qs| - 1;
      MembersConcat(ps, qs[..n], value);
      MembersAppend(ps + qs[..n], qs[n], value);
      MembersAppend(qs[..n], qs[n], value);
      assert ps + qs[..n] + [qs[n]] == ps + qs;
      assert qs[..n] + [qs[n]] == qs;
    }
  }

  /** What the functions build from the data of both sets. */
  ghost function Difference<P, D>(lhs: seq<P>, rhs: seq<P>, value: P -> D): seq<P> {
    Select(lhs, value, Members(rhs, value), false)
  }

  ghost function Intersection<P, D>(lhs: seq<P>, rhs: seq<P>, value: P -> D): seq<P> {
    Select(lhs, value, Members(rhs, value), true)
  }

  ghost function Union<P, D>(lhs: seq<P>, rhs: seq<P>, value: P -> D): seq<P> {
    lhs + Difference(rhs, lhs, value)
  }

  /** They are the mathematical operations on the values. */
  lemma AreSetOperations<P, D>(lhs: seq<P>, rhs: seq<P>, value: P -> D)
    ensures Members(Difference(lhs, rhs, value), value) == Members(lhs, value) - Members(rhs, value)
    ensures Members(Intersection(lhs, rhs, value), value) == Members(lhs, value) * Members(rhs, value)
    ensures Members(Union(lhs, rhs, value), value) == Members(lhs, value) + Members(rhs, value)
  {
    SelectMembers(lhs, value, Members(rhs, value), false);
    SelectMembers(lhs, value, Members(rhs, value), true);
    SelectMembers(rhs, value, Members(lhs, value), false);
    MembersConcat(lhs, Difference(rhs, lhs, value), value);
  }

  lemma {:induction false} SelectNone<P, D>(ps: seq<P>, value: P -> D, ds: set<D>, inside: bool)
    requires forall i | 0 <= i < |ps| :: (value(ps[i]) in ds) != inside
    ensures Select(ps, value, ds, inside) == []
  {
    if |ps| > 0 {
      SelectNone(ps[..|ps| - 1], value, ds, inside);
    }
  }

  lemma {:induction false} SelectAll<P, D>(ps: seq<P>, value: P -> D, ds: set<D>, inside: bool)
    requires forall i | 0 <= i < |ps| :: (value(ps[i]) in ds) == inside
    ensures Select(ps, value, ds, inside) == ps
  {
    if |ps| > 0 {
      SelectAll(ps[..|ps| - 1], value, ds, inside);
    }
  }

  /** The special cases of the functions: one set twice, and empty sets. */
  lemma SpecialCases<P, D>(ps: seq<P>, value: P -> D)
    ensures Difference(ps, ps, value) == [] && Difference(ps, [], value) == ps && Difference([], ps, value) == []
    ensures Intersection(ps, ps, value) == ps && Intersection(ps, [], value) == [] && Intersection([], ps, value) == []
    ensures Union(ps, ps, value) == ps && Union(ps, [], value) == ps && Union([], ps, value) == ps
  {
    SelectNone(ps, value, Members(ps, value), false);
    SelectAll(ps, value, Members<P, D>([], value), false);
    SelectAll(ps, value, Members(ps, value), true);
    SelectNone(ps, value, Members<P, D>([], value), true);
  }

  lemma {:induction false} Cardinality<P, D>(ps: seq<P>, value: P -> D)
    requires Unrepeated(ps, value)
    ensures |Members(ps, value)| == |ps|
  {
    if |ps| > 0 {
      var n := |ps| - 1;
      Cardinality(ps[..n], value);
      MembersAppend(ps[..n], ps[n], value);
      assert ps[..n] + [ps[n]] == ps;
    }
  }

  /** Without repeated values, equal sizes and one inclusion decide equality. */
  lemma EqualSizes<P, D>(ps: seq<P>, qs: seq<P>, value: P -> D)
    requires Unrepeated(ps, value) && Unrepeated(qs, value) && |ps| == |qs|
    ensures Members(ps, value) <= Members(qs, value) <==> Members(ps, value) == Members(qs, value)
  {
    Cardinality(ps, value);
    Cardinality(qs, value);
    if Members(ps, value) <= Members(qs, value) {
      SameSizeSubset(Members(ps, value), Members(qs, value));
    }
  }

  lemma {:induction false} SameSizeSubset<D>(a: set<D>, b: set<D>)
    requires a <= b && |a| == |b|
    ensures a == b
  {
    if a != {} {
      var x :| x in a;
      SameSizeSubset(a - {x}, b - {x});
    }
  }

  lemma DifferentSizes<P, D>(ps: seq<P>, qs: seq<P>, value: P -> D)
    requires Unrepeated(ps, value) && Unrepeated(qs, value) && |ps| != |qs|
    ensures Members(ps, value) != Members(qs, value)
  {
    Cardinality(ps, value);
    Cardinality(qs, value);
  }

  lemma PartLacks<P, D>(ps: seq<P>, value: P -> D, i: nat)
    requires Unrepeated(ps, value) && i < |ps|
    ensures value(ps[i]) !in Members(ps[..i], value)
  {
    forall j | 0 <= j < i
      ensures value(ps[..i][j]) != value(ps[i])
    {
      assert ps[..i][j] == ps[j];
    }
  }

  /** Pushing the next of some unrepeated data onto a union makes the union larger by it, unless its value
      was in the first set. */
  lemma UnionNext<P, D>(lhs: seq<P>, rhs: seq<P>, value: P -> D, i: nat, k: nat)
    requires Unrepeated(rhs, value) && k == i + 1 <= |rhs|
    ensures var u := Union(lhs, rhs[..i], value);
            Union(lhs, rhs[..k], value) == if value(rhs[i]) in Members(u, value) then u else u + [rhs[i]]
  {
    var part := rhs[..i];
    AreSetOperations(lhs, part, value);
    PartLacks(rhs, value, i);
    SelectNext(rhs, value, Members(lhs, value), false, i, k);
  }

  /** The next of some unrepeated data is not among the data selected before. */
  lemma NextIsNew<P, D>(ps: seq<P>, value: P -> D, ds: set<D>, inside: bool, i: nat)
    requires Unrepeated(ps, value) && i < |ps|
    ensures value(ps[i]) !in Members(Select(ps[..i], value, ds, inside), value)
  {
    SelectMembers(ps[..i], value, ds, inside);
    PartLacks(ps, value, i);
  }
}
