/** THashElement: a key, its data, and the link to the next element of a bucket. */
module HashElements {
  class HashElement<K, V> {
    const key: K
    const data: V
    var next: HashElement?<K, V>
    var hops: nat
    var isRemoved: bool

    constructor (key: K, data: V)
      ensures this.key == key && this.data == data && next == null && hops == 0 && isRemoved
    {
      this.key, this.data, next, hops, isRemoved := key, data, null, 0, true;
    }

    method InsertAsFirst()
      modifies this`isRemoved
      ensures !isRemoved
    {
      isRemoved := false;
    }

    /** Link the element in behind this one. */
    method InsertNext(newNext: HashElement?<K, V>)
      modifies this`next, newNext
      ensures newNext == null || newNext == this ==> next == old(next)
      ensures newNext != null && newNext != this ==>
                next == newNext && newNext.next == old(next) && !newNext.isRemoved && newNext.hops == old(newNext.hops)
    {
      if newNext == null || newNext == this {
        return;
      }
      newNext.next := next;
      newNext.isRemoved := false;
      next := newNext;
    }

    method Remove()
      modifies this`next, this`hops, this`isRemoved
      ensures next == null && hops == 0 && isRemoved
    {
      next, isRemoved, hops := null, true, 0;
    }

    /** Take the successor out of the chain. */
    method RemoveNext() returns (removed: HashElement?<K, V>)
      modifies this`next, next
      ensures old(next) == null || old(next) == this ==> removed == null && next == old(next)
      ensures old(next) != null && old(next) != this ==>
                && removed == old(next) && next == old(next.next)
                && removed.next == null && removed.isRemoved && removed.hops == 0
    {
      var toRemove := next;
      if toRemove == null || toRemove == this {
        return null;
      }
      next := toRemove.next;
      toRemove.Remove();
      removed := toRemove;
    }
  }
}
