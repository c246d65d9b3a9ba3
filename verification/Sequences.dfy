/** Insertion into and deletion from sequences. */
module Sequences {
  ghost predicate NoDuplicates<A>(c: seq<A>) {
    forall i, j | 0 <= i < j < |c| :: c[i] != c[j]
  }

  function Inserted<A>(c: seq<A>, i: nat, e: A): seq<A>
    requires i <= |c|
  {
    c[..i] + [e] + c[i..]
  }

  function Deleted<A>(c: seq<A>, i: nat): seq<A>
    requires i < |c|
  {
    c[..i] + c[i + 1..]
  }

  lemma InsertedAt<A>(c: seq<A>, i: nat, e: A)
    requires i <= |c|
    ensures var d := Inserted(c, i, e);
            |d| == |c| + 1 && forall k | 0 <= k < |d| :: d[k] == if k < i then c[k] else if k == i then e else c[k - 1]
  {
  }

  lemma DeletedAt<A>(c: seq<A>, i: nat)
    requires i < |c|
    ensures var d := Deleted(c, i);
            |d| == |c| - 1 && forall k | 0 <= k < |d| :: d[k] == if k < i then c[k] else c[k + 1]
  {
  }

  lemma OthersStay<A>(c: seq<A>, i: nat)
    requires i < |c|
    ensures forall e | e in c && e != c[i] :: e in Deleted(c, i)
  {
    forall k | 0 <= k < |c| && c[k] != c[i]
      ensures c[k] in Deleted(c, i)
    {
      assert Deleted(c, i)[if k < i then k else k - 1] == c[k];
    }
  }

  lemma StillDistinct<A>(c: seq<A>, i: nat, e: A)
    requires NoDuplicates(c) && i <= |c| && e !in c
    ensures NoDuplicates(Inserted(c, i, e))
  {
    InsertedAt(c, i, e);
  }

  lemma StillDistinctWithout<A>(c: seq<A>, i: nat)
    requires NoDuplicates(c) && i < |c|
    ensures NoDuplicates(Deleted(c, i)) && c[i] !in Deleted(c, i)
  {
    DeletedAt(c, i);
  }
}
