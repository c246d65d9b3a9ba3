/** The chained table as a value: a sequence of elements for each bucket. Keys and data of an element
    never change, so nothing here depends on the heap. */
module ChainTable {
  import opened HashElements
  import opened Numbers
  import opened Sequences

  type Chain<K, V> = seq<HashElement<K, V>>
  type Buckets<K, V> = seq<Chain<K, V>>

  /** Every element is in the bucket of its key, and no key is in a bucket twice. */
  ghost predicate Sorted<K, V>(b: Buckets<K, V>, index: K -> int) {
    && (forall i, j | 0 <= i < |b| && 0 <= j < |b[i]| :: index(b[i][j].key) == i)
    && (forall i, j, k | 0 <= i < |b| && 0 <= j < k < |b[i]| :: b[i][j].key != b[i][k].key)
  }

  /** Buckets share no elements, and a bucket holds none twice. */
  lemma Apart<K, V>(b: Buckets<K, V>, index: K -> int, i: nat)
    requires Sorted(b, index) && i < |b|
    ensures NoDuplicates(b[i])
    ensures forall h, e | 0 <= h < |b| && h != i && e in b[h] :: e !in b[i]
  {
  }

  ghost predicate HasKey<K, V>(c: Chain<K, V>, k: K) {
    exists j :: 0 <= j < |c| && c[j].key == k
  }

  /** The finite map the buckets stand for. */
  ghost predicate Represents<K, V>(b: Buckets<K, V>, index: K -> int, m: map<K, V>) {
    && (forall i, j | 0 <= i < |b| && 0 <= j < |b[i]| :: b[i][j].key in m && m[b[i][j].key] == b[i][j].data)
    && (forall k | k in m :: 0 <= index(k) < |b| && HasKey(b[index(k)], k))
  }

  ghost predicate Stands<K, V>(b: Buckets<K, V>, index: K -> int, m: map<K, V>) {
    Sorted(b, index) && Represents(b, index, m)
  }

  /** All elements, bucket by bucket. */
  ghost function Flatten<K, V>(b: Buckets<K, V>): Chain<K, V> {
    if |b| == 0 then [] else Flatten(b[..|b| - 1]) + b[|b| - 1]
  }

  function Append<K, V>(b: Buckets<K, V>, i: nat, e: HashElement<K, V>): Buckets<K, V>
    requires i < |b|
  {
    b[i := b[i] + [e]]
  }

  /** Appending an absent key to its bucket is the insertion into the map. */
  lemma AppendRefines<K, V>(b: Buckets<K, V>, index: K -> int, m: map<K, V>, e: HashElement<K, V>)
    returns (b': Buckets<K, V>, m': map<K, V>)
    requires Stands(b, index, m) && e.key !in m && 0 <= index(e.key) < |b|
    ensures b' == Append(b, index(e.key), e) && m' == m[e.key := e.data]
    ensures Stands(b', index, m') && |m'| == |m| + 1
    ensures !HasKey(b[index(e.key)], e.key)
  {
    var i := index(e.key);
    b', m' := Append(b, i, e), m[e.key := e.data];
    forall k | k in m
      ensures HasKey(b'[index(k)], k)
    {
      assert HasKey(b[index(k)], k);
      var j :| 0 <= j < |b[index(k)]| && b[index(k)][j].key == k;
      assert b'[index(k)][j] == b[index(k)][j];
    }
    assert b'[i][|b[i]|] == e;
  }

  /** Taking an element out of its bucket is the removal of its key from the map. */
  lemma WithoutRefines<K, V>(b: Buckets<K, V>, index: K -> int, m: map<K, V>, i: nat, j: nat)
    returns (b': Buckets<K, V>, m': map<K, V>)
    requires Stands(b, index, m) && i < |b| && j < |b[i]|
    ensures b' == b[i := Deleted(b[i], j)] && m' == m - {b[i][j].key}
    ensures Stands(b', index, m') && |m'| == |m| - 1
    ensures forall e | e in Deleted(b[i], j) :: e in b[i]
  {
    b', m' := b[i := Deleted(b[i], j)], m - {b[i][j].key};
    WithoutSorted(b, index, i, j);
    hide Sorted;
    forall k | k in m'
      ensures 0 <= index(k) < |b| && HasKey(b'[index(k)], k)
    {
      StillThere(b, index, m, i, j, k);
    }
    DomainWithout(m, b[i][j].key);
  }

  lemma WithoutSorted<K, V>(b: Buckets<K, V>, index: K -> int, i: nat, j: nat)
    requires Sorted(b, index) && i < |b| && j < |b[i]|
    ensures Sorted(b[i := Deleted(b[i], j)], index)
    ensures forall k, e | 0 <= k < |b| && e in b[i := Deleted(b[i], j)][k] :: e in b[k] && e != b[i][j]
  {
    var c := Deleted(b[i], j);
    assert forall k | 0 <= k < |c| :: c[k] == if k < j then b[i][k] else b[i][k + 1];
  }

  lemma StillThere<K, V>(b: Buckets<K, V>, index: K -> int, m: map<K, V>, i: nat, j: nat, k: K)
    requires Represents(b, index, m) && i < |b| && j < |b[i]| && k in m && k != b[i][j].key
    ensures 0 <= index(k) < |b| && HasKey(b[i := Deleted(b[i], j)][index(k)], k)
  {
    assert HasKey(b[index(k)], k);
    var r :| 0 <= r < |b[index(k)]| && b[index(k)][r].key == k;
    if index(k) == i {
      assert Deleted(b[i], j)[if r < j then r else r - 1].key == k;
    }
  }

  lemma DomainWithout<K, V>(m: map<K, V>, k: K)
    requires k in m
    ensures |m - {k}| == |m| - 1
  {
    assert (m - {k}).Keys == m.Keys - {k};
  }

  /** All buckets together hold as many elements as the map has keys. */
  lemma TotalLength<K, V>(b: Buckets<K, V>, index: K -> int, m: map<K, V>)
    requires Stands(b, index, m)
    ensures |Flatten(b)| == |m|
    decreases |m|
  {
    if m == map[] {
      forall i | 0 <= i < |b|
        ensures |b[i]| == 0
      {
        NoKeyNoElement(b, index, m, i);
      }
      EmptyBuckets(b);
    } else {
      var k :| k in m;
      var i := index(k);
      assert HasKey(b[i], k);
      var j :| 0 <= j < |b[i]| && b[i][j].key == k;
      var b', m' := WithoutRefines(b, index, m, i, j);
      TotalLength(b', index, m');
      FlattenReplace(b, i, Deleted(b[i], j));
    }
  }

  /** Emptying a bucket removes as many keys as it holds elements. */
  lemma EmptiedRefines<K, V>(b: Buckets<K, V>, index: K -> int, m: map<K, V>, i: nat)
    returns (b': Buckets<K, V>, m': map<K, V>)
    requires Stands(b, index, m) && i < |b|
    ensures b' == b[i := []] && Stands(b', index, m') && |m'| == |m| - |b[i]|
    decreases |b[i]|
  {
    if |b[i]| == 0 {
      b', m' := b, m;
    } else {
      var c, n := WithoutRefines(b, index, m, i, 0);
      b', m' := EmptiedRefines(c, index, n, i);
    }
  }

  /** As long as a key is left, one of the buckets that are not yet cleared holds an element. */
  lemma SomeBucketLeft<K, V>(b: Buckets<K, V>, index: K -> int, m: map<K, V>, pos: nat)
    requires Represents(b, index, m) && |m| > 0 && pos <= |b| && forall i | 0 <= i < pos :: |b[i]| == 0
    ensures pos < |b|
  {
    var k :| k in m;
    assert HasKey(b[index(k)], k);
  }

  lemma NoKeyNoElement<K, V>(b: Buckets<K, V>, index: K -> int, m: map<K, V>, i: nat)
    requires Represents(b, index, m) && i < |b|
    ensures m == map[] ==> |b[i]| == 0
  {
    if |b[i]| > 0 {
      assert b[i][0].key in m;
    }
  }

  lemma {:induction false} FlattenReplace<K, V>(b: Buckets<K, V>, i: nat, c: Chain<K, V>)
    requires i < |b|
    ensures |Flatten(b[i := c])| == |Flatten(b)| - |b[i]| + |c|
  {
    var n := |b| - 1;
    if i == n {
      assert b[i := c][..n] == b[..n];
    } else {
      FlattenReplace(b[..n], i, c);
      assert b[i := c][..n] == b[..n][i := c];
    }
  }

  // ---- Moving to a larger table

  /** The element with the key and data of e that a chain holds at a place. */
  ghost predicate CopyOf<K, V>(c: HashElement<K, V>, e: HashElement<K, V>) {
    c.key == e.key && c.data == e.data
  }

  /** The elements that belong into bucket i, in order. */
  ghost function Select<K, V>(done: Chain<K, V>, index: K -> int, i: int): Chain<K, V> {
    if |done| == 0 then []
    else
      var rest := Select(done[..|done| - 1], index, i);
      if index(done[|done| - 1].key) == i then rest + [done[|done| - 1]] else rest
  }

  /** The buckets hold copies of the elements done, in their order. */
  ghost predicate Spread<K, V>(b: Buckets<K, V>, index: K -> int, done: Chain<K, V>) {
    forall i | 0 <= i < |b| ::
      && |b[i]| == |Select(done, index, i)|
      && forall j | 0 <= j < |b[i]| :: CopyOf(b[i][j], Select(done, index, i)[j])
  }

  lemma SpreadAppend<K, V>(b: Buckets<K, V>, index: K -> int, done: Chain<K, V>, e: HashElement<K, V>,
                           copy: HashElement<K, V>)
    requires Spread(b, index, done) && CopyOf(copy, e) && 0 <= index(e.key) < |b|
    ensures Spread(Append(b, index(e.key), copy), index, done + [e])
  {
    var more := done + [e];
    assert more[..|more| - 1] == done;
  }

  /** The part of the old buckets that is moved: all of the first pos buckets, and j elements of the next. */
  function Part<K, V>(b: Buckets<K, V>, pos: nat, j: nat): Buckets<K, V>
    requires pos < |b| && j <= |b[pos]|
  {
    b[..pos] + [b[pos][..j]]
  }

  /** Elements of the part are in the new buckets already, in their flat order. */
  ghost predicate Moved<K, V>(b: Buckets<K, V>, oldIndex: K -> int, pos: nat, j: nat, c: Buckets<K, V>,
                              index: K -> int, m: map<K, V>)
    requires pos < |b| && j <= |b[pos]|
  {
    Represents(Part(b, pos, j), oldIndex, m) && Spread(c, index, Flatten(Part(b, pos, j)))
  }

  /** The next element to move is new to the map so far, and is the next one in the flat order. */
  lemma NextElement<K, V>(b: Buckets<K, V>, index: K -> int, m: map<K, V>, pos: nat, j: nat)
    returns (e: HashElement<K, V>, k: nat)
    requires Sorted(b, index) && pos < |b| && j < |b[pos]| && Represents(Part(b, pos, j), index, m)
    ensures e == b[pos][j] && e.key !in m && k == j + 1
    ensures Represents(Part(b, pos, k), index, m[e.key := e.data])
    ensures Flatten(Part(b, pos, k)) == Flatten(Part(b, pos, j)) + [e]
  {
    e, k := b[pos][j], j + 1;
    var p := Part(b, pos, j);
    assert p[pos] == b[pos][..j];
    if e.key in m {
      assert false;
    }
    assert b[pos][..j] + [e] == b[pos][..k];
    assert Part(b, pos, k) == Append(p, pos, e);
    PartSorted(b, index, pos, j);
    var _, _ := AppendRefines(p, index, m, e);
    FlattenLast(p, e);
  }

  lemma PartSorted<K, V>(b: Buckets<K, V>, index: K -> int, pos: nat, j: nat)
    requires Sorted(b, index) && pos < |b| && j <= |b[pos]|
    ensures Sorted(Part(b, pos, j), index)
  {
  }

  lemma NextIsNew<K, V>(b: Buckets<K, V>, oldIndex: K -> int, pos: nat, j: nat, c: Buckets<K, V>, index: K -> int,
                        m: map<K, V>)
    requires Sorted(b, oldIndex) && pos < |b| && j < |b[pos]| && Moved(b, oldIndex, pos, j, c, index, m)
    ensures b[pos][j].key !in m
  {
    var _, _ := NextElement(b, oldIndex, m, pos, j);
  }

  /** The next element can be added to the new table, which makes the part larger by it. */
  lemma NextMoved<K, V>(b: Buckets<K, V>, oldIndex: K -> int, pos: nat, j: nat, c: Buckets<K, V>, index: K -> int,
                        m: map<K, V>, copy: HashElement<K, V>)
    returns (k: nat)
    requires Sorted(b, oldIndex) && pos < |b| && j < |b[pos]| && Moved(b, oldIndex, pos, j, c, index, m)
    requires CopyOf(copy, b[pos][j]) && 0 <= index(copy.key) < |c|
    ensures k == j + 1 && copy.key !in m
    ensures Moved(b, oldIndex, pos, k, Append(c, index(copy.key), copy), index, m[copy.key := copy.data])
  {
    var e;
    e, k := NextElement(b, oldIndex, m, pos, j);
    SpreadAppend(c, index, Flatten(Part(b, pos, j)), e, copy);
  }

  lemma FlattenLast<K, V>(p: Buckets<K, V>, e: HashElement<K, V>)
    requires |p| > 0
    ensures Flatten(Append(p, |p| - 1, e)) == Flatten(p) + [e]
  {
    assert Append(p, |p| - 1, e)[..|p| - 1] == p[..|p| - 1];
  }

  /** After the last element of a bucket comes the first one of the next bucket, or the end. */
  lemma NextBucket<K, V>(b: Buckets<K, V>, oldIndex: K -> int, pos: nat, next: nat, c: Buckets<K, V>, index: K -> int,
                         m: map<K, V>, all: map<K, V>)
    requires next == pos + 1 <= |b| && Moved(b, oldIndex, pos, |b[pos]|, c, index, m) && Represents(b, oldIndex, all)
    ensures if next < |b| then Moved(b, oldIndex, next, 0, c, index, m) else m == all && Spread(c, index, Flatten(b))
  {
    var p := Part(b, pos, |b[pos]|);
    assert p == b[..next] by {
      assert b[pos][..|b[pos]|] == b[pos];
    }
    if next < |b| {
      EmptyPart(b, oldIndex, next, m, p);
    } else {
      assert p == b;
      RepresentsUnique(b, oldIndex, m, all);
    }
  }

  lemma EmptyPart<K, V>(b: Buckets<K, V>, index: K -> int, next: nat, m: map<K, V>, p: Buckets<K, V>)
    requires next < |b| && p == b[..next] && Represents(p, index, m)
    ensures Represents(Part(b, next, 0), index, m) && Flatten(Part(b, next, 0)) == Flatten(p)
  {
    var q := Part(b, next, 0);
    assert q[..|q| - 1] == p && q[next] == [];
    forall k | k in m
      ensures 0 <= index(k) < |q| && HasKey(q[index(k)], k)
    {
      assert HasKey(p[index(k)], k);
      assert q[index(k)] == p[index(k)];
    }
  }

  /** Before the first element, nothing is moved. */
  lemma NothingMoved<K, V>(b: Buckets<K, V>, oldIndex: K -> int, c: Buckets<K, V>, index: K -> int, m: map<K, V>)
    requires |b| > 0 && m == map[] && forall i | 0 <= i < |c| :: |c[i]| == 0
    ensures Moved(b, oldIndex, 0, 0, c, index, m)
  {
    var p := Part(b, 0, 0);
    assert |p| == 1 && p[0] == [];
    EmptyBuckets(p);
    assert Spread(c, index, []);
  }

  lemma RepresentsUnique<K, V>(b: Buckets<K, V>, index: K -> int, m: map<K, V>, m': map<K, V>)
    requires Represents(b, index, m) && Represents(b, index, m')
    ensures m == m'
  {
    assert forall k | k in m :: HasKey(b[index(k)], k);
    assert forall k | k in m' :: HasKey(b[index(k)], k);
  }

  lemma {:induction false} EmptyBuckets<K, V>(b: Buckets<K, V>)
    requires forall i | 0 <= i < |b| :: |b[i]| == 0
    ensures Flatten(b) == []
  {
    if |b| > 0 {
      EmptyBuckets(b[..|b| - 1]);
    }
  }

  // ---- Going through a table by its count

  /** What is seen at the first indices of a table, each taken modulo the number of buckets. */
  ghost function Walk<K, V>(b: Buckets<K, V>, count: nat): Chain<K, V>
    requires |b| > 0
  {
    if count == 0 then [] else Walk(b, count - 1) + b[(count - 1) % |b|]
  }

  /** How many of the first indices are those of bucket i: one in each round. */
  function Visits(size: nat, count: nat, i: nat): (n: nat)
    requires i < size
    ensures n > 0 <==> i < count
    ensures n > 1 <==> i + size < count
    decreases count
  {
    if count <= i then 0 else if count <= size then 1 else 1 + Visits(size, count - size, i)
  }

  lemma {:induction false} VisitsNext(size: nat, count: nat, i: nat)
    requires i < size
    ensures Visits(size, count + 1, i) == Visits(size, count, i) + if count % size == i then 1 else 0
    decreases count
  {
    if count >= size {
      VisitsNext(size, count - size, i);
      RoundLater(count, size);
    } else {
      BelowSize(count, size);
    }
  }

  lemma BelowSize(x: nat, n: nat)
    requires x < n
    ensures x % n == x
  {
  }

  lemma RoundLater(x: nat, n: nat)
    requires 0 < n <= x
    ensures (x - n) % n == x % n
  {
    ModUnique(x, n, (x - n) / n + 1, (x - n) % n);
  }

  /** An element is seen as often as its bucket is visited. In particular it is seen at all exactly if its
      bucket lies below the count. */
  lemma {:induction false} WalkCounts<K, V>(b: Buckets<K, V>, index: K -> int, count: nat, i: nat, e: HashElement<K, V>)
    requires Sorted(b, index) && i < |b| && e in b[i]
    ensures multiset(Walk(b, count))[e] == Visits(|b|, count, i)
    decreases count
  {
    hide Sorted;
    if count > 0 {
      var r := (count - 1) % |b|;
      WalkCounts(b, index, count - 1, i, e);
      VisitsNext(|b|, count - 1, i);
      InBucket(b, index, i, r, e);
      CountsAdd(Walk(b, count - 1), b[r], e);
    }
  }

  lemma CountsAdd<A>(c: seq<A>, d: seq<A>, e: A)
    ensures multiset(c + d)[e] == multiset(c)[e] + multiset(d)[e]
  {
  }

  lemma InBucket<K, V>(b: Buckets<K, V>, index: K -> int, i: nat, r: nat, e: HashElement<K, V>)
    requires Sorted(b, index) && i < |b| && r < |b| && e in b[i]
    ensures multiset(b[r])[e] == if r == i then 1 else 0
  {
    Apart(b, index, i);
    if r == i {
      OnlyOnce(b[i], e);
    } else {
      assert e !in b[r];
    }
  }

  lemma OnlyOnce<A>(c: seq<A>, e: A)
    requires NoDuplicates(c) && e in c
    ensures multiset(c)[e] == 1
  {
    var j :| 0 <= j < |c| && c[j] == e;
    assert c == c[..j] + [e] + c[j + 1..];
    assert e !in c[..j] && e !in c[j + 1..];
  }

  /** All that is seen is in some bucket. */
  lemma {:induction false} WalkStays<K, V>(b: Buckets<K, V>, count: nat, e: HashElement<K, V>)
    requires |b| > 0 && e in Walk(b, count)
    ensures exists i :: 0 <= i < |b| && e in b[i]
  {
    if count > 0 && e !in Walk(b, count - 1) {
      assert e in b[(count - 1) % |b|];
    } else if count > 0 {
      WalkStays(b, count - 1, e);
    }
  }
}
