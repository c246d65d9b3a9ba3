/** TChainHash on VTHashBase, without thread safety: buckets of linked elements, updated in place. */
module ChainHash {
  import opened Words
  import opened Stepping
  import opened HashMethods
  import opened HashElements
  import opened ChainTable
  import opened Numbers
  import opened Sequences
  import opened Growth

  /** privGetIndex */
  function IndexOf(hash: Word, size: Word, how: HashMethod): (i: nat)
    requires size > 0
    ensures i < size
  {
    if how.Division? then hash % size else Scaled(hash, size)
  }

  ghost function IndexFunction<K(!new)>(hash: K -> Word, size: Word, how: HashMethod): (f: K -> int)
    requires size > 0
    ensures forall k :: f(k) == IndexOf(hash(k), size, how)
  {
    (k: K) => if size > 0 then IndexOf(hash(k), size, how) else -1
  }

  /** The bucket of a hash: its remainder under division, and under multiplication the whole part of the fraction
      of hash * 0.618, scaled to the size. */
  ghost predicate IsBucket(hash: Word, size: Word, how: HashMethod, i: nat) {
    match how
    case Division => size > 0 && i == hash % size
    case Multiplication => IsScaled(hash, size, i)
  }

  lemma BucketIff(hash: Word, size: Word, how: HashMethod, i: nat)
    requires size > 0
    ensures IndexOf(hash, size, how) == i <==> IsBucket(hash, size, how, i)
  {
    ScaledIff(hash, size, i);
  }

  /** The index as privGetByIndex wraps it into the table, from both sides. */
  function Wrapped(index: int, xSize: nat): (xIdx: nat)
    requires xSize > 0
    ensures xIdx == index % xSize
  {
    WrapsBothSides(index, xSize);
    var xIdx := if index < 0 then xSize - (-index) % xSize else index % xSize;
    if xIdx >= xSize then xIdx % xSize else xIdx
  }

  lemma WrapsBothSides(index: int, n: nat)
    requires n > 0
    ensures index < 0 ==> (n - (-index) % n) % n == index % n
  {
    if index < 0 {
      var q, r := (-index) / n, (-index) % n;
      assert -index == q * n + r;
      if r == 0 {
        ModUnique(index, n, -q, 0);
        ModUnique(n, n, 1, 0);
      } else {
        assert (-q - 1) * n == -q * n - n;
        ModUnique(index, n, -q - 1, n - r);
        ModUnique(n - r, n, 0, n - r);
      }
    }
  }

  class TChainHash<K(==,!new), V> {
    const hash: K -> Word
    const maxLoadFactor: real
    const dynGrowFactor: real
    var hashTable: array<HashElement?<K, V>>
    var hashSize: Word
    var chMethod: HashMethod
    var eCount: int

    ghost var Index: K -> int                   // the bucket of every key
    ghost var Chains: Buckets<K, V>             // the elements of each bucket, in order
    ghost var Contents: map<K, V>               // the map this hash stands for
    ghost var Elements: set<HashElement<K, V>>  // all elements that ever were in the buckets

    /** Index is the bucket of every key. */
    ghost predicate Indexed()
      reads this`Index, this`hashSize, this`chMethod
    {
      && hashSize > 0
      && forall k {:trigger IndexOf(hash(k), hashSize, chMethod)} ::
           Index(k) == IndexOf(hash(k), hashSize, chMethod)
    }

    /** From its root, the bucket is linked in order. */
    static ghost predicate LinkedChain(root: HashElement?<K, V>, c: Chain<K, V>)
      reads c
    {
      && root == (if |c| == 0 then null else c[0])
      && forall j | 0 <= j < |c| :: c[j].next == After(c, j) && !c[j].isRemoved
    }

    static function After(c: Chain<K, V>, j: nat): HashElement?<K, V> {
      if j + 1 < |c| then c[j + 1] else null
    }

    ghost predicate Linked()
      reads this`hashTable, this`Chains, this`Elements, hashTable, Elements
    {
      && hashTable.Length == |Chains|
      && (forall i, e | 0 <= i < |Chains| && e in Chains[i] :: e in Elements)
      && (forall i | 0 <= i < |Chains| :: LinkedChain(hashTable[i], Chains[i]))
    }

    ghost predicate Valid()
      reads this, hashTable, Elements
    {
      && Indexed() && |Chains| == hashSize
      && Linked() && Stands(Chains, Index, Contents) && eCount == |Contents|
    }

    constructor (hash: K -> Word, initSize: Word, maxLoad: real, dynGrow: real)
      requires initSize > 0
      ensures Valid() && Contents == map[] && Elements == {} && hashSize == initSize && chMethod == Division
      ensures this.hash == hash && maxLoadFactor == maxLoad && dynGrowFactor == dynGrow && fresh(hashTable)
    {
      this.hash, maxLoadFactor, dynGrowFactor := hash, maxLoad, dynGrow;
      hashTable := new HashElement?<K, V>[initSize](i => null);
      hashSize, chMethod, eCount := initSize, Division, 0;
      Chains := seq(initSize, i => []);
      Contents, Elements, Index := map[], {}, IndexFunction(hash, initSize, Division);
    }

    /** privGet: walk the bucket until the key is found. */
    method Get(key: K) returns (result: HashElement?<K, V>)
      requires Valid()
      ensures result != null <==> key in Contents
      ensures result != null ==> result in Elements && result.key == key && result.data == Contents[key]
    {
      var index := IndexOf(hash(key), hashSize, chMethod);
      var _, found, j := FindInBucket(index, key);
      result := found;
      if key in Contents {
        assert HasKey(Chains[index], key);
      }
    }

    /** size() */
    function Size(): (n: int)
      requires Valid()
      reads this, hashTable, Elements
      ensures n == |Contents|
    {
      eCount
    }

    /** privGetByIndex: the first element of a bucket. */
    method GetByIndex(index: int) returns (result: HashElement?<K, V>)
      requires Valid()
      ensures result == if |Chains[index % hashSize]| == 0 then null else Chains[index % hashSize][0]
    {
      hide Stands, IndexOf;
      var xIdx := Wrapped(index, hashSize);
      assert LinkedChain(hashTable[xIdx], Chains[xIdx]);
      result := hashTable[xIdx];
    }

    lemma ItsBuckets()
      requires Valid()
      ensures |Chains| == hashSize > 0 && Stands(Chains, Index, Contents)
      ensures forall k :: Index(k) == IndexOf(hash(k), hashSize, chMethod)
    {
      hide Stands, IndexOf, Linked;
      forall k
        ensures Index(k) == IndexOf(hash(k), hashSize, chMethod)
      {
      }
    }

    /** The bucket in which the element of a key is, and in no other. */
    ghost predicate IsIn(key: K, i: nat)
      reads this
    {
      IsBucket(hash(key), hashSize, chMethod, i) && i < |Chains| && HasKey(Chains[i], key)
    }

    lemma EveryKeyInItsBucket(key: K)
      requires Valid() && key in Contents
      ensures exists i :: IsIn(key, i)
      ensures forall i | 0 <= i < |Chains| && HasKey(Chains[i], key) :: IsIn(key, i)
    {
      hide Linked, IndexOf, IsBucket;
      ItsBuckets();
      var i: nat := Index(key);
      BucketIff(hash(key), hashSize, chMethod, i);
      assert IsIn(key, i);
    }

    /** Along a bucket. */
    lemma ChainNext(i: nat, j: nat)
      requires Valid() && i < |Chains| && j < |Chains[i]|
      ensures Chains[i][j].next == After(Chains[i], j)
      ensures Chains[i][j].key in Contents && Contents[Chains[i][j].key] == Chains[i][j].data
    {
      hide IndexOf;
      assert LinkedChain(hashTable[i], Chains[i]);
    }

    /** The walk along a bucket: the first element with the key, and its predecessor. */
    method FindInBucket(index: nat, key: K) returns (prev: HashElement?<K, V>, result: HashElement?<K, V>, ghost j: nat)
      requires Linked() && index < |Chains|
      ensures j <= |Chains[index]| && forall k | 0 <= k < j :: Chains[index][k].key != key
      ensures result == if j < |Chains[index]| then Chains[index][j] else null
      ensures result != null ==> result.key == key
      ensures prev == if j == 0 then null else Chains[index][j - 1]
    {
      ghost var c := Chains[index];
      assert LinkedChain(hashTable[index], c);
      prev, result, j := null, hashTable[index], 0;
      while result != null && result.key != key
        invariant j <= |c| && forall k | 0 <= k < j :: c[k].key != key
        invariant prev == if j == 0 then null else c[j - 1]
        invariant result == if j < |c| then c[j] else null
        decreases |c| - j
      {
        assert result.next == After(c, j);
        prev := result;
        result := result.next;
        j := j + 1;
      }
    }

    /** The last element of a bucket, and how many elements it holds. */
    method FindTail(index: nat) returns (tail: HashElement<K, V>, hops: nat)
      requires Linked() && index < |Chains| && hashTable[index] != null
      ensures hops == |Chains[index]| > 0 && tail == Chains[index][hops - 1]
    {
      ghost var c := Chains[index];
      assert LinkedChain(hashTable[index], c);
      tail := hashTable[index];
      var next := tail.next;
      hops := 1;
      while next != null
        invariant 1 <= hops <= |c| && tail == c[hops - 1] && next == After(c, hops - 1)
        decreases |c| - hops
      {
        tail := next;
        next := tail.next;
        hops := hops + 1;
      }
    }

    static method LinkBehind(ghost c: Chain<K, V>, ghost root: HashElement<K, V>, tail: HashElement<K, V>,
                             elem: HashElement<K, V>)
      requires LinkedChain(root, c) && NoDuplicates(c) && |c| > 0 && tail == c[|c| - 1]
      requires elem !in c && elem.next == null
      modifies tail, elem
      ensures LinkedChain(root, c + [elem]) && elem.hops == old(elem.hops)
    {
      tail.InsertNext(elem);
    }

    /** Link the element in at the end of the bucket; the other buckets stay as they are. */
    method LinkIn(index: nat, elem: HashElement<K, V>)
      requires Linked() && Sorted(Chains, Index) && index < |Chains| && elem !in Elements && elem.next == null
               && elem.hops == 0
      modifies hashTable, Elements, elem
      ensures LinkedChain(hashTable[index], Chains[index] + [elem])
      ensures forall i | 0 <= i < |Chains| && i != index :: LinkedChain(hashTable[i], Chains[i])
      ensures elem.hops == |Chains[index]|
    {
      Apart(Chains, Index, index);
      assert forall i | 0 <= i < |Chains| :: LinkedChain(hashTable[i], Chains[i]) && elem !in Chains[i];
      if hashTable[index] != null {
        var tail, hops := FindTail(index);
        elem.hops := hops;
        assert forall i | 0 <= i < |Chains| && i != index :: tail !in Chains[i];
        LinkBehind(Chains[index], hashTable[index], tail, elem);
      } else {
        hashTable[index] := elem;
        elem.InsertAsFirst();
      }
    }

    /** The heap part of privInsert. */
    method AppendElement(index: nat, elem: HashElement<K, V>, ghost b: Buckets<K, V>)
      requires Linked() && index < |Chains| && elem !in Elements && elem.next == null && elem.hops == 0
      requires Sorted(Chains, Index) && b == Append(Chains, index, elem)
      modifies this`Chains, this`Elements, this`eCount, hashTable, Elements, elem
      ensures Linked() && Chains == b && eCount == old(eCount) + 1 && Elements == old(Elements) + {elem}
      ensures elem.hops == |old(Chains)[index]|
    {
      hide LinkedChain, Sorted;
      LinkIn(index, elem);
      Chains, Elements := b, Elements + {elem};
      eCount := eCount + 1;
    }

    static method UnlinkBehind(ghost c: Chain<K, V>, ghost root: HashElement<K, V>, prev: HashElement<K, V>,
                               elem: HashElement<K, V>, ghost j: nat)
      requires LinkedChain(root, c) && NoDuplicates(c) && 0 < j < |c| && prev == c[j - 1] && elem == c[j]
      modifies prev, elem
      ensures LinkedChain(root, Deleted(c, j))
      ensures elem.next == null && elem.isRemoved && elem.hops == 0
    {
      hide Deleted, After;
      ghost var d := Deleted(c, j);
      AfterDeleted(c, j, j - 1);
      assert prev.next == After(c, j - 1) && elem.next == After(c, j);
      var _ := prev.RemoveNext();
      forall k | 0 <= k < |d|
        ensures d[k].next == After(d, k) && !d[k].isRemoved
      {
        AfterDeleted(c, j, k);
        ghost var i := if k < j then k else k + 1;
        assert c[i] != elem && (k != j - 1 ==> c[i] != prev);
        assert old(c[i].next) == After(c, i) && !old(c[i].isRemoved);
      }
    }

    /** What is at a place once an element is deleted, and what comes after it. */
    static lemma AfterDeleted(c: Chain<K, V>, j: nat, k: nat)
      requires 0 < j < |c| && k + 1 < |c|
      ensures var d := Deleted(c, j);
              && |d| == |c| - 1 && d[0] == c[0] && After(c, j - 1) == c[j]
              && d[k] == (if k < j then c[k] else c[k + 1]) && After(d, k) == After(c, if k < j - 1 then k else k + 1)
    {
      DeletedAt(c, j);
    }

    method UnlinkRoot(index: nat, elem: HashElement<K, V>)
      requires Linked() && Sorted(Chains, Index) && index < |Chains| && |Chains[index]| > 0 && elem == Chains[index][0]
      modifies hashTable, elem
      ensures LinkedChain(hashTable[index], Deleted(Chains[index], 0))
      ensures forall i | 0 <= i < |Chains| && i != index :: LinkedChain(hashTable[i], Chains[i])
      ensures elem.next == null && elem.isRemoved && elem.hops == 0
    {
      Apart(Chains, Index, index);
      assert forall i | 0 <= i < |Chains| :: LinkedChain(hashTable[i], Chains[i]);
      assert Deleted(Chains[index], 0) == Chains[index][1..];
      hashTable[index] := elem.next;
      elem.Remove();
      forall i | 0 <= i < |Chains| && i != index
        ensures LinkedChain(hashTable[i], Chains[i])
      {
        assert elem !in Chains[i];
      }
    }

    /** Unlink the element at a place of a bucket; the other buckets stay as they are. */
    method LinkOut(index: nat, prev: HashElement?<K, V>, elem: HashElement<K, V>, ghost j: nat)
      requires Linked() && Sorted(Chains, Index) && index < |Chains| && j < |Chains[index]| && elem == Chains[index][j]
      requires prev == if j == 0 then null else Chains[index][j - 1]
      modifies hashTable, Elements
      ensures LinkedChain(hashTable[index], Deleted(Chains[index], j))
      ensures forall i | 0 <= i < |Chains| && i != index :: LinkedChain(hashTable[i], Chains[i])
      ensures elem.next == null && elem.isRemoved && elem.hops == 0
    {
      Apart(Chains, Index, index);
      assert forall i | 0 <= i < |Chains| :: LinkedChain(hashTable[i], Chains[i]);
      assert forall i | 0 <= i < |Chains| && i != index :: elem !in Chains[i] && (prev != null ==> prev !in Chains[i]);
      if prev != null {
        UnlinkBehind(Chains[index], hashTable[index], prev, elem, j);
        forall i | 0 <= i < |Chains| && i != index
          ensures LinkedChain(hashTable[i], Chains[i])
        {
          assert elem !in Chains[i] && prev !in Chains[i];
        }
      } else {
        UnlinkRoot(index, elem);
      }
    }

    /** The heap part of a removal. */
    method Unlink(index: nat, prev: HashElement?<K, V>, elem: HashElement<K, V>, ghost j: nat, ghost b: Buckets<K, V>)
      requires Linked() && index < |Chains| && j < |Chains[index]| && elem == Chains[index][j]
      requires prev == if j == 0 then null else Chains[index][j - 1]
      requires Sorted(Chains, Index) && b == Chains[index := Deleted(Chains[index], j)]
      requires forall e | e in Deleted(Chains[index], j) :: e in Chains[index]
      modifies this`Chains, this`eCount, hashTable, Elements
      ensures Linked() && Chains == b && eCount == old(eCount) - 1
      ensures elem.next == null && elem.isRemoved && elem.hops == 0
    {
      hide LinkedChain, Sorted, Deleted;
      LinkOut(index, prev, elem, j);
      Chains := b;
      eCount := eCount - 1;
    }

    /** privInsert: a new key goes to the end of its bucket. */
    method Insert(elem: HashElement<K, V>) returns (count: int)
      requires Valid() && elem !in Elements && elem.next == null && elem.hops == 0 && elem.key !in Contents
      modifies this`Chains, this`Contents, this`Elements, this`eCount, hashTable, Elements, elem
      ensures Valid() && Contents == old(Contents)[elem.key := elem.data] && count == eCount == old(eCount) + 1
      ensures Chains == Append(old(Chains), IndexOf(hash(elem.key), hashSize, chMethod), elem)
      ensures Elements == old(Elements) + {elem}
      ensures exists i: nat | i < |Chains| && IsBucket(hash(elem.key), hashSize, chMethod, i) ::
                Chains[i] == old(Chains)[i] + [elem]
    {
      hide Linked, Sorted, Represents, IndexOf, IsBucket;
      var idx := IndexOf(hash(elem.key), hashSize, chMethod);
      ghost var b, m := AppendRefines(Chains, Index, Contents, elem);
      Contents := m;
      AppendElement(idx, elem, b);
      count := eCount;
      BucketIff(hash(elem.key), hashSize, chMethod, idx);
    }

    /** Take the element at a place of a bucket out of the table. */
    method TakeOut(index: nat, prev: HashElement?<K, V>, elem: HashElement<K, V>, ghost j: nat)
      requires Valid() && index < |Chains| && j < |Chains[index]| && elem == Chains[index][j]
      requires prev == if j == 0 then null else Chains[index][j - 1]
      modifies this`Chains, this`Contents, this`eCount, hashTable, Elements
      ensures Valid() && Contents == old(Contents) - {elem.key} && eCount == old(eCount) - 1
      ensures Chains == old(Chains)[index := Deleted(old(Chains)[index], j)]
      ensures elem.next == null && elem.isRemoved && elem.hops == 0
    {
      hide Linked, Sorted, Represents;
      ghost var b, m := WithoutRefines(Chains, Index, Contents, index, j);
      Contents := m;
      Unlink(index, prev, elem, j, b);
    }

    /** privRemoveIdx: the first element of the bucket. */
    method RemoveIdx(index: nat) returns (result: HashElement?<K, V>)
      requires Valid()
      modifies this`Chains, this`Contents, this`eCount, hashTable, Elements
      ensures Valid()
      ensures if index < hashSize && |old(Chains)[index]| > 0
              then result == old(Chains)[index][0] && Contents == old(Contents) - {result.key}
                   && Chains == old(Chains)[index := old(Chains)[index][1..]]
              else result == null && Contents == old(Contents) && Chains == old(Chains)
    {
      result := null;
      if index < hashSize {
        assert LinkedChain(hashTable[index], Chains[index]);
        result := hashTable[index];
        if result != null {
          assert Deleted(Chains[index], 0) == Chains[index][1..];
          TakeOut(index, null, result, 0);
        }
      }
    }

    /** privRemoveKey: a present key is removed and nothing else, an absent key changes nothing. */
    method RemoveKey(key: K) returns (result: HashElement?<K, V>)
      requires Valid()
      modifies this`Chains, this`Contents, this`eCount, hashTable, Elements
      ensures Valid()
      ensures if key in old(Contents) then
                && result != null && result.key == key && result.data == old(Contents)[key]
                && result.next == null && result.isRemoved
                && Contents == old(Contents) - {key} && eCount == old(eCount) - 1
              else result == null && Contents == old(Contents) && Chains == old(Chains) && eCount == old(eCount)
    {
      var index := IndexOf(hash(key), hashSize, chMethod);
      var prev, found, j := FindInBucket(index, key);
      result := found;
      if key in Contents {
        assert HasKey(Chains[index], key);
      }
      if found != null {
        TakeOut(index, prev, found, j);
      }
    }

    /** The loop of privSetHashMethod ends for the target size. */
    predicate CanGrowTo(target: Word)
      reads this`hashSize
    {
      target > hashSize && target % 2 == 1 ==> target <= HALF_WORD
    }

    /** The part of grow() before the elements are moved. */
    method Renew(target: Word)
      requires target > 0 && (target % 2 == 1 ==> target <= HALF_WORD)
      modifies this
      ensures Valid() && fresh(hashTable) && Elements == {} && Contents == map[]
      ensures hashSize == target && chMethod == MethodFor(target)
      ensures forall i | 0 <= i < |Chains| :: |Chains[i]| == 0
    {
      hide MethodFor, IndexOf;
      hashTable := new HashElement?<K, V>[target](i => null);
      eCount := 0;
      chMethod := SetHashMethod(target);
      hashSize := target;
      Chains := seq(target, i => []);
      Contents, Elements, Index := map[], {}, IndexFunction(hash, target, chMethod);
    }

    /** privAdd: a new element goes to the end of its bucket. */
    method PrivAdd(key: K, data: V) returns (ghost elem: HashElement<K, V>)
      requires Valid() && key !in Contents
      modifies this`Chains, this`Contents, this`Elements, this`eCount, hashTable, Elements
      ensures Valid() && Contents == old(Contents)[key := data]
      ensures fresh(elem) && elem.key == key && elem.data == data && Elements == old(Elements) + {elem}
      ensures 0 <= Index(key) < |old(Chains)| && Chains == Append(old(Chains), Index(key), elem)
    {
      hide Linked, Sorted, Represents;
      var newElement := new HashElement(key, data);
      elem := newElement;
      var _ := Insert(newElement);
    }

    /** What is left of the old buckets: bucket pos from its element j on, and all the following ones. */
    static ghost predicate Remaining(oldTab: array<HashElement?<K, V>>, b: Buckets<K, V>, olds: set<HashElement<K, V>>,
                                     pos: nat, j: nat)
      reads oldTab, olds
    {
      && oldTab.Length == |b|
      && (forall i, e | 0 <= i < |b| && e in b[i] :: e in olds)
      && (pos < |b| ==> j <= |b[pos]| && LinkedChain(oldTab[pos], b[pos][j..]))
      && (forall i | pos < i < |b| :: LinkedChain(oldTab[i], b[i]))
    }

    /** The loops of grow(): the new table holds the part of the old one before the place. */
    ghost predicate Moving(oldTab: array<HashElement?<K, V>>, b: Buckets<K, V>, oldIndex: K -> int,
                           olds: set<HashElement<K, V>>,
                           pos: nat, j: nat)
      reads this, hashTable, Elements, oldTab, olds
    {
      && pos < |b| && oldTab != hashTable && Remaining(oldTab, b, olds, pos, j)
      && Valid() && Elements !! olds && Moved(b, oldIndex, pos, j, Chains, Index, Contents)
    }

    /** Drop the first element that is left of a bucket of the old table. */
    static method DropFirst(oldTab: array<HashElement?<K, V>>, ghost b: Buckets<K, V>,
                            ghost olds: set<HashElement<K, V>>, pos: nat, ghost j: nat, ghost k: nat)
      requires pos < |b| && j < |b[pos]| && k == j + 1 && Remaining(oldTab, b, olds, pos, j) && NoDuplicates(b[pos])
      modifies oldTab
      ensures Remaining(oldTab, b, olds, pos, k)
    {
      var toMove := oldTab[pos];
      var xNext := toMove.next;
      assert xNext == After(b[pos][j..], 0);
      oldTab[pos] := if xNext != toMove then xNext else null;
    }

    /** One round of the inner loop. */
    method MoveOne(oldTab: array<HashElement?<K, V>>, ghost b: Buckets<K, V>, ghost oldIndex: K -> int,
                   ghost olds: set<HashElement<K, V>>,
                   pos: nat, ghost j: nat) returns (ghost k: nat)
      requires Sorted(b, oldIndex) && Moving(oldTab, b, oldIndex, olds, pos, j) && oldTab[pos] != null
      modifies this`Chains, this`Contents, this`Elements, this`eCount, hashTable, Elements, oldTab
      ensures Moving(oldTab, b, oldIndex, olds, pos, k) && j < k && fresh(Elements - old(Elements))
    {
      hide Linked, Represents, Moved;
      assert LinkedChain(oldTab[pos], b[pos][j..]);
      var toMove := oldTab[pos];
      Apart(b, oldIndex, pos);
      hide Sorted;
      NextIsNew(b, oldIndex, pos, j, Chains, Index, Contents);
      ghost var elem := PrivAdd(toMove.key, toMove.data);
      k := NextMoved(b, oldIndex, pos, j, old(Chains), Index, old(Contents), elem);
      DropFirst(oldTab, b, olds, pos, j, k);
    }

    /** Everything of the old table is moved. */
    ghost predicate MovedAll(b: Buckets<K, V>, m: map<K, V>)
      reads this, hashTable, Elements
    {
      Valid() && Contents == m && Spread(Chains, Index, Flatten(b))
    }

    /** The outer loop of grow() at a bucket, or at the end. */
    ghost predicate AtBucket(oldTab: array<HashElement?<K, V>>, b: Buckets<K, V>, oldIndex: K -> int,
                             olds: set<HashElement<K, V>>,
                             m: map<K, V>, pos: nat)
      reads this, hashTable, Elements, oldTab, olds
    {
      if pos < |b| then Moving(oldTab, b, oldIndex, olds, pos, 0) else MovedAll(b, m)
    }

    /** The inner loop of grow(): move the elements of one bucket. */
    method MoveBucket(oldTab: array<HashElement?<K, V>>, ghost b: Buckets<K, V>, ghost oldIndex: K -> int,
                      ghost olds: set<HashElement<K, V>>,
                      pos: nat)
      requires Sorted(b, oldIndex) && Moving(oldTab, b, oldIndex, olds, pos, 0)
      modifies this`Chains, this`Contents, this`Elements, this`eCount, hashTable, Elements, oldTab
      ensures Moving(oldTab, b, oldIndex, olds, pos, |b[pos]|) && fresh(Elements - old(Elements))
    {
      hide Linked, Represents, Moved, Sorted;
      ghost var j := 0;
      while oldTab[pos] != null
        invariant Moving(oldTab, b, oldIndex, olds, pos, j) && fresh(Elements - old(Elements))
        decreases |b[pos]| - j
      {
        j := MoveOne(oldTab, b, oldIndex, olds, pos, j);
      }
      assert LinkedChain(oldTab[pos], b[pos][j..]);
    }

    /** One round of the outer loop. */
    method MoveNext(oldTab: array<HashElement?<K, V>>, ghost b: Buckets<K, V>, ghost oldIndex: K -> int,
                    ghost olds: set<HashElement<K, V>>,
                    ghost m: map<K, V>, pos: nat) returns (next: nat)
      requires Stands(b, oldIndex, m) && pos < |b| && AtBucket(oldTab, b, oldIndex, olds, m, pos)
      modifies this`Chains, this`Contents, this`Elements, this`eCount, hashTable, Elements, oldTab
      ensures next == pos + 1 && AtBucket(oldTab, b, oldIndex, olds, m, next) && fresh(Elements - old(Elements))
    {
      hide Linked, Represents, Moved, Sorted;
      MoveBucket(oldTab, b, oldIndex, olds, pos);
      next := pos + 1;
      NextBucket(b, oldIndex, pos, next, Chains, Index, Contents, m);
      assert next < |b| ==> b[next][0..] == b[next];
    }

    /** The outer loop of grow(). */
    method MoveElements(oldTab: array<HashElement?<K, V>>, ghost b: Buckets<K, V>, ghost oldIndex: K -> int,
                        ghost olds: set<HashElement<K, V>>,
                        ghost m: map<K, V>)
      requires Stands(b, oldIndex, m) && |b| == oldTab.Length && AtBucket(oldTab, b, oldIndex, olds, m, 0)
      modifies this`Chains, this`Contents, this`Elements, this`eCount, hashTable, Elements, oldTab
      ensures MovedAll(b, m) && fresh(Elements - old(Elements))
    {
      hide Linked, Represents, Moved, Sorted, Moving, MovedAll;
      var pos := 0;
      while pos < oldTab.Length
        invariant pos <= |b| && AtBucket(oldTab, b, oldIndex, olds, m, pos) && fresh(Elements - old(Elements))
      {
        pos := MoveNext(oldTab, b, oldIndex, olds, m, pos);
      }
    }

    lemma AllRemains()
      requires Valid()
      ensures |Chains| == hashTable.Length && Remaining(hashTable, Chains, Elements, 0, 0)
    {
      assert Chains[0][0..] == Chains[0];
    }

    /** What grow() does for a larger size. */
    method MoveTo(targetSize: Word)
      requires Valid() && targetSize > hashSize && CanGrowTo(targetSize)
      modifies this, hashTable
      ensures MovedAll(old(Chains), old(Contents)) && hashSize == targetSize && chMethod == MethodFor(targetSize)
      ensures fresh(hashTable) && fresh(Elements)
    {
      hide Linked, Represents, Sorted, Remaining, Moved;
      var oldTab := hashTable;
      ghost var b, m, olds, oldIndex := Chains, Contents, Elements, Index;
      AllRemains();
      Renew(targetSize);
      NothingMoved(b, oldIndex, Chains, Index, Contents);
      MoveElements(oldTab, b, oldIndex, olds, m);
    }

    /** grow: every element is copied into a larger table, indexed anew; the elements of a bucket keep
        the order they had in the old table. */
    method Grow(targetSize: Word) returns (size: Word)
      requires Valid() && CanGrowTo(targetSize)
      modifies this, hashTable
      ensures Valid() && Contents == old(Contents) && size == hashSize
      ensures if targetSize > old(hashSize)
              then hashSize == targetSize && chMethod == MethodFor(targetSize) && fresh(hashTable) && fresh(Elements)
                   && Spread(Chains, Index, Flatten(old(Chains)))
              else hashSize == old(hashSize) && chMethod == old(chMethod) && Chains == old(Chains)
                   && hashTable == old(hashTable) && Elements == old(Elements)
    {
      if targetSize > hashSize {
        MoveTo(targetSize);
      }
      size := hashSize;
    }

    /** With so many elements the table need not grow, or it can. */
    predicate CanHold(count: nat)
      reads this`hashSize
    {
      Overloads(count, hashSize, maxLoadFactor) ==>
        0 <= GrownSize(hashSize, dynGrowFactor) < WORD && CanGrowTo(GrownSize(hashSize, dynGrowFactor))
    }

    /** The growth after an insertion. */
    method GrowIfNeeded(newSize: int)
      requires Valid() && newSize == |Contents| && CanHold(|Contents|)
      modifies this, hashTable
      ensures Valid() && Contents == old(Contents)
      ensures hashSize == NextSize(newSize, old(hashSize), maxLoadFactor, dynGrowFactor)
      ensures chMethod == if hashSize == old(hashSize) then old(chMethod) else MethodFor(hashSize)
      ensures hashTable == old(hashTable) || fresh(hashTable)
      ensures fresh(Elements - old(Elements))
    {
      if newSize as real / hashSize as real > maxLoadFactor {
        var _ := Grow(GrownSize(hashSize, dynGrowFactor));
      }
    }

    /** add: a new key is bound, a known key keeps its element; the table grows past the load factor. */
    method Add(key: K, data: V) returns (count: int)
      requires Valid() && (key !in Contents ==> CanHold(|Contents| + 1))
      modifies this, hashTable, Elements
      ensures Valid() && count == |Contents|
      ensures if key in old(Contents) then Contents == old(Contents) && hashSize == old(hashSize)
              else Contents == old(Contents)[key := data]
                   && hashSize == NextSize(|Contents|, old(hashSize), maxLoadFactor, dynGrowFactor)
      ensures chMethod == if hashSize == old(hashSize) then old(chMethod) else MethodFor(hashSize)
      ensures exists i :: IsIn(key, i)
      ensures (hashTable == old(hashTable) || fresh(hashTable)) && fresh(Elements - old(Elements))
    {
      hide Linked, Represents, Sorted, MethodFor;
      var known := Get(key);
      if known == null {
        ghost var _ := PrivAdd(key, data);
        GrowIfNeeded(eCount);
      }
      count := eCount;
      EveryKeyInItsBucket(key);
    }

    /** The inner loop of clear(): delete the elements of a chain that is no longer in the table. */
    method DropChain(toDel: HashElement<K, V>, ghost c: Chain<K, V>)
      requires LinkedChain(toDel, c) && NoDuplicates(c)
      modifies this`eCount, c
      ensures eCount == old(eCount) - |c|
    {
      ghost var k := 1;
      assert toDel.next == After(c, 0);
      var delNext := toDel.RemoveNext();
      while delNext != null && delNext != toDel
        invariant 1 <= k <= |c| && delNext == (if k < |c| then c[k] else null)
        invariant eCount == old(eCount) - (k - 1)
        invariant toDel.next == (if delNext == null then null else After(c, k))
        invariant forall j | k < j < |c| :: c[j].next == After(c, j)
        decreases |c| - k
      {
        eCount := eCount - 1;
        k := k + 1;
        delNext := toDel.RemoveNext();
      }
      eCount := eCount - 1;
    }

    /** Set the root of a bucket to null; the other buckets stay as they are. */
    method CutRoot(pos: nat)
      requires Linked() && pos < |Chains|
      modifies hashTable
      ensures hashTable[pos] == null && forall i | 0 <= i < |Chains| && i != pos :: LinkedChain(hashTable[i], Chains[i])
    {
      assert forall i | 0 <= i < |Chains| :: LinkedChain(hashTable[i], Chains[i]);
      hashTable[pos] := null;
    }

    /** Take the root of a bucket out of the table and delete the chain. */
    method ClearBucket(pos: nat, ghost b: Buckets<K, V>)
      requires Linked() && Sorted(Chains, Index) && pos < |Chains| && b == Chains[pos := []]
      modifies this`Chains, this`eCount, hashTable, Elements
      ensures Linked() && Chains == b && eCount == old(eCount) - |old(Chains)[pos]|
    {
      Apart(Chains, Index, pos);
      hide Sorted;
      ghost var c := Chains[pos];
      assert LinkedChain(hashTable[pos], c);
      var toDel := hashTable[pos];
      CutRoot(pos);
      if toDel != null {
        DropChain(toDel, c);
        assert forall i | 0 <= i < |Chains| && i != pos :: LinkedChain(hashTable[i], Chains[i]);
      }
      Chains := b;
    }

    /** The loop of clear() at a position: the buckets before it are empty. */
    ghost predicate Clearing(pos: nat)
      reads this, hashTable, Elements
    {
      Valid() && pos <= |Chains| && forall i | 0 <= i < pos :: |Chains[i]| == 0
    }

    method ClearOne(pos: nat) returns (next: nat)
      requires Clearing(pos) && pos < |Chains|
      modifies this`Chains, this`Contents, this`eCount, hashTable, Elements
      ensures Clearing(next) && next == pos + 1 && |Chains| == |old(Chains)|
    {
      hide Linked, Sorted, Represents;
      ghost var b, m := EmptiedRefines(Chains, Index, Contents, pos);
      Contents := m;
      ClearBucket(pos, b);
      next := pos + 1;
    }

    /** clear: all buckets are emptied. */
    method Clear()
      requires Valid()
      modifies this`Chains, this`Contents, this`eCount, hashTable, Elements
      ensures Valid() && Contents == map[] && eCount == 0 && |Chains| == |old(Chains)|
      ensures forall i | 0 <= i < |Chains| :: |Chains[i]| == 0
    {
      hide Linked, Sorted, Represents;
      var pos := 0;
      while eCount > 0
        invariant Clearing(pos) && |Chains| == |old(Chains)|
        decreases |Chains| - pos
      {
        // the position never has to wrap around: an element is left
        SomeBucketLeft(Chains, Index, Contents, pos);
        pos := ClearOne(pos);
      }
      forall i | 0 <= i < |Chains|
        ensures |Chains[i]| == 0
      {
        NoKeyNoElement(Chains, Index, Contents, i);
      }
    }
  }
}
