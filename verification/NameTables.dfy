/** The walk over a table of names that parseArgs and resetTargets make: they go through as many indices as the
    table holds names, not through as many as it has buckets. */
module NameTables {
  import opened HashElements
  import opened Sequences
  import opened ChainTable
  import opened Matching

  /** The targets met on the walk. */
  ghost function Met<T>(b: Buckets<string, T>, count: nat): seq<T>
    requires |b| > 0
  {
    DataIn(Walk(b, count))
  }

  function DataIn<T>(c: Chain<string, T>): (ts: seq<T>)
    ensures |ts| == |c| && forall i | 0 <= i < |c| :: ts[i] == c[i].data
  {
    seq(|c|, i requires 0 <= i < |c| => c[i].data)
  }

  lemma MetNext<T>(b: Buckets<string, T>, i: nat, k: nat)
    requires |b| > 0 && k == i + 1
    ensures Met(b, k) == Met(b, i) + DataIn(b[i % |b|])
    ensures Met(b, 0) == []
  {
  }

  /** The target has a name in a bucket below the number of names. */
  ghost predicate NamedBelow<T>(m: map<string, T>, index: string -> int, t: T) {
    exists w | w in m :: m[w] == t && index(w) < |m|
  }

  /** A target is met exactly if it has a name in a bucket below the count. */
  lemma MetIff<T>(b: Buckets<string, T>, index: string -> int, m: map<string, T>, t: T)
    requires |b| > 0 && Stands(b, index, m)
    ensures t in Met(b, |m|) <==> NamedBelow(m, index, t)
  {
    if t in Met(b, |m|) {
      var k :| 0 <= k < |Walk(b, |m|)| && Walk(b, |m|)[k].data == t;
      var e := Walk(b, |m|)[k];
      WalkStays(b, |m|, e);
      var i: nat :| i < |b| && e in b[i];
      WalkCounts(b, index, |m|, i, e);
      NamedInBucket(b, index, m, i, e);
    }
    if w :| w in m && m[w] == t && index(w) < |m| {
      var e := ElementOf(b, index, m, w);
      WalkCounts(b, index, |m|, index(w), e);
      var k :| 0 <= k < |Walk(b, |m|)| && Walk(b, |m|)[k] == e;
      assert Met(b, |m|)[k] == t;
    }
  }

  lemma NamedInBucket<T>(b: Buckets<string, T>, index: string -> int, m: map<string, T>, i: nat,
                         e: HashElement<string, T>)
    requires Stands(b, index, m) && i < |b| && e in b[i]
    ensures e.key in m && m[e.key] == e.data && index(e.key) == i
  {
    var j :| 0 <= j < |b[i]| && b[i][j] == e;
  }

  lemma ElementOf<T>(b: Buckets<string, T>, index: string -> int, m: map<string, T>, w: string)
    returns (e: HashElement<string, T>)
    requires Stands(b, index, m) && w in m
    ensures 0 <= index(w) < |b| && e in b[index(w)] && e.key == w && e.data == m[w]
  {
    assert HasKey(b[index(w)], w);
    var j :| 0 <= j < |b[index(w)]| && b[index(w)][j].key == w;
    e := b[index(w)][j];
  }

  /** With as many names as buckets every target is met. With fewer it is a matter of the hash function. */
  lemma EnoughNames<T>(b: Buckets<string, T>, index: string -> int, m: map<string, T>, t: T)
    requires |b| > 0 && Stands(b, index, m) && |m| >= |b| && t in m.Values
    ensures NamedBelow(m, index, t)
  {
    var w :| w in m && m[w] == t;
    var _ := ElementOf(b, index, m, w);
  }

  /** A target with one name is met once in each round of the walk that comes to its bucket, so more than once
      exactly if the count goes beyond its bucket by more than the size. */
  lemma MetCounts<T>(b: Buckets<string, T>, index: string -> int, m: map<string, T>, w: string)
    requires |b| > 0 && Stands(b, index, m) && w in m && forall v | v in m && m[v] == m[w] :: v == w
    ensures 0 <= index(w) < |b| && multiset(Met(b, |m|))[m[w]] == Visits(|b|, |m|, index(w))
  {
    var e := ElementOf(b, index, m, w);
    WalkCounts(b, index, |m|, index(w), e);
    var c := Walk(b, |m|);
    forall d | d in c
      ensures d.data == m[w] ==> d == e
    {
      WalkStays(b, |m|, d);
      var i: nat :| i < |b| && d in b[i];
      NamedInBucket(b, index, m, i, d);
      if d.data == m[w] {
        OneElement(b, index, i, d, e);
      }
    }
    DataCounts(c, e);
  }

  lemma OneElement<T>(b: Buckets<string, T>, index: string -> int, i: nat, d: HashElement<string, T>,
                      e: HashElement<string, T>)
    requires Sorted(b, index) && i < |b| && d in b[i] && e in b[i] && d.key == e.key
    ensures d == e
  {
  }

  lemma {:induction false} DataCounts<T>(c: Chain<string, T>, e: HashElement<string, T>)
    requires forall d | d in c :: d.data == e.data ==> d == e
    ensures multiset(DataIn(c))[e.data] == multiset(c)[e]
  {
    if |c| > 0 {
      var n := |c| - 1;
      DataCounts(c[..n], e);
      assert c == c[..n] + [c[n]];
      assert DataIn(c) == DataIn(c[..n]) + [c[n].data];
    }
  }

  /** The fourth step of parseArgs notes a target exactly if it is demanded and absent and has a name in a
      bucket below the count. */
  lemma NotedIff<T>(b: Buckets<string, T>, index: string -> int, m: map<string, T>, demanded: T -> bool,
                    present: set<T>, t: T)
    requires |b| > 0 && Stands(b, index, m)
    ensures MandatoryMissing(t) in Missing(Met(b, |m|), demanded, present) <==>
              demanded(t) && t !in present && NamedBelow(m, index, t)
  {
    MissingCounts(Met(b, |m|), demanded, present, t);
    MetIff(b, index, m, t);
  }

  /** How often it notes a target with one name. */
  lemma NotedCounts<T>(b: Buckets<string, T>, index: string -> int, m: map<string, T>, demanded: T -> bool,
                       present: set<T>, w: string)
    requires |b| > 0 && Stands(b, index, m) && w in m && forall v | v in m && m[v] == m[w] :: v == w
    ensures 0 <= index(w) < |b|
    ensures multiset(Missing(Met(b, |m|), demanded, present))[MandatoryMissing(m[w])] ==
            if demanded(m[w]) && m[w] !in present then Visits(|b|, |m|, index(w)) else 0
  {
    MissingCounts(Met(b, |m|), demanded, present, m[w]);
    MetCounts(b, index, m, w);
  }

  /** It notes all targets that are demanded and absent exactly if each of them has a name below the count, and
      so in any case if there are as many names as buckets. */
  lemma AllNotedIff<T>(b: Buckets<string, T>, index: string -> int, m: map<string, T>, demanded: T -> bool,
                       present: set<T>)
    requires |b| > 0 && Stands(b, index, m)
    ensures var noted := Missing(Met(b, |m|), demanded, present);
            && ((forall t | t in m.Values && demanded(t) && t !in present :: MandatoryMissing(t) in noted) <==>
                forall t | t in m.Values && demanded(t) && t !in present :: NamedBelow(m, index, t))
            && (|m| >= |b| ==> forall t | t in m.Values && demanded(t) && t !in present :: MandatoryMissing(t) in noted)
  {
    hide Missing, Met, NamedBelow, Stands;
    forall t | t in m.Values && demanded(t) && t !in present
      ensures MandatoryMissing(t) in Missing(Met(b, |m|), demanded, present) <==> NamedBelow(m, index, t)
      ensures |m| >= |b| ==> NamedBelow(m, index, t)
    {
      NotedIff(b, index, m, demanded, present, t);
      if |m| >= |b| {
        EnoughNames(b, index, m, t);
      }
    }
  }

  /** It notes nothing exactly if every demanded target with a name below the count is present. */
  lemma NoneNotedIff<T>(b: Buckets<string, T>, index: string -> int, m: map<string, T>, demanded: T -> bool,
                        present: set<T>)
    requires |b| > 0 && Stands(b, index, m)
    ensures Missing(Met(b, |m|), demanded, present) == [] <==>
              forall t | t in m.Values && demanded(t) && NamedBelow(m, index, t) :: t in present
  {
    hide Missing, Met, Stands;
    var met := Met(b, |m|);
    NoneMissingIff(met, demanded, present);
    if Missing(met, demanded, present) == [] {
      forall t | t in m.Values && demanded(t) && NamedBelow(m, index, t)
        ensures t in present
      {
        MetIff(b, index, m, t);
        assert t in met;
      }
    } else {
      var t :| t in met && demanded(t) && t !in present;
      MetIff(b, index, m, t);
      var w :| w in m && m[w] == t && index(w) < |m|;
      assert t in m.Values;
    }
  }
}
