/** The hash behind the cursors of all threads: its factors, and for how many threads it never hangs. */
module ThreadHash {
  import opened Options
  import opened Words
  import opened Numbers
  import opened Stepping
  import opened HashMethods
  import opened OpenTable
  import opened Geometry
  import opened Growth
  import opened OpenStates
  import opened DataFree

  type ThreadId = nat

  const THREAD_SLOTS: Word := 47
  const GROWN_SLOTS: Word := 97
  const THREAD_MAX_LOAD: real := 0.6667
  const THREAD_GROWTH: real := 2.063829787234043

  function ThreadSetup(hash: ThreadId -> Word, secHash: Word -> Word): Setup<ThreadId> {
    Setup(hash, secHash, THREAD_MAX_LOAD, THREAD_GROWTH)
  }

  /** The default size and the one it grows to are prime. */
  lemma PrimeSlots()
    ensures Prime(THREAD_SLOTS) && Prime(GROWN_SLOTS) && GrownSize(THREAD_SLOTS, THREAD_GROWTH) == GROWN_SLOTS
  {
  }

  /** At most 31 elements in the first 47 slots, at most 64 in 97. */
  predicate FewThreads<V>(s: State<ThreadId, V>) {
    (s.size == THREAD_SLOTS && s.count <= 31) || (s.size == GROWN_SLOTS && s.count <= 64)
  }

  lemma Loads()
    ensures forall c: nat :: Overloads(c, THREAD_SLOTS, THREAD_MAX_LOAD) <==> c > 31
    ensures forall c: nat | c <= 64 :: !Overloads(c, GROWN_SLOTS, THREAD_MAX_LOAD)
  {
  }

  lemma ThreadHasRoom<V>(u: Setup<ThreadId>, s: State<ThreadId, V>, m: map<ThreadId, V>, thread: ThreadId)
    requires u == ThreadSetup(u.hash, u.secHash) && Means(u, s, m) && FewThreads(s) && |m| < 64
    ensures HasRoom(u, s, m, thread)
  {
    hide ProbeOf, Stands, Prime, Overloads, RoomFor, GrownSize, MethodFor;
    PrimeSlots();
    Loads();
    PrimeHasRoom(u, s.size, s.how, m.Keys + {thread}, |m|);
    PrimeHasRoom(u, GROWN_SLOTS, MethodFor(GROWN_SLOTS), m.Keys + {thread}, |m|);
  }

  /** Adding one of 64 threads ends. */
  lemma ThreadAddEnds<V>(u: Setup<ThreadId>, s: State<ThreadId, V>, m: map<ThreadId, V>, thread: ThreadId, data: V)
    requires u == ThreadSetup(u.hash, u.secHash) && Means(u, s, m) && FewThreads(s) && thread !in m && |m| < 64
    ensures var r := Added(u, s, thread, data);
            r.Some? && Means(u, r.value, m[thread := data]) && FewThreads(r.value)
  {
    hide LayoutOf, Stands, Prime, Overloads, GrownSize, HasRoom, Added, Found;
    PrimeSlots();
    Loads();
    ThreadHasRoom(u, s, m, thread);
    RoomyAddEnds(u, s, m, thread, data);
    AddedMeans(u, s, m, thread, data);
    FoundMeans(u, s, m, thread);
    AddedSize(u, s, thread, data);
    assert m[thread := data].Keys == m.Keys + {thread};
  }

  lemma PrimeHasRoom(u: Setup<ThreadId>, size: Word, how: HashMethod, keys: set<ThreadId>, c: nat)
    requires Prime(size) && 11 <= size <= HALF_WORD && c < size
    ensures RoomFor(LayoutOf(u.hash, u.secHash, size, how), keys, c)
  {
    PrimeIsRoomy(u.hash, u.secHash, size, how, c);
  }

  /** Setting one of 64 threads ends, and adds no other thread. */
  lemma ThreadSetEnds<V>(u: Setup<ThreadId>, s: State<ThreadId, V>, m: map<ThreadId, V>, thread: ThreadId, data: V)
    returns (r: State<ThreadId, V>, m': map<ThreadId, V>)
    requires u == ThreadSetup(u.hash, u.secHash) && Means(u, s, m) && FewThreads(s) && |m.Keys + {thread}| <= 64
    ensures Added(u, Removed(u, s, thread), thread, data) == Some(r)
    ensures Means(u, r, m') && FewThreads(r) && m'.Keys <= m.Keys + {thread} && |m'.Keys + {thread}| <= 64
  {
    hide Means, Added, Removed, FewThreads, ThreadSetup;
    ItIsValid(u, s, m);
    var m0 := ThreadRemoved(u, s, m, thread);
    ThreadAddEnds(u, Removed(u, s, thread), m0, thread, data);
    r, m' := Added(u, Removed(u, s, thread), thread, data).value, m0[thread := data];
    assert m'.Keys == m0.Keys + {thread} == m'.Keys + {thread};
  }

  lemma ThreadRemoved<V>(u: Setup<ThreadId>, s: State<ThreadId, V>, m: map<ThreadId, V>, thread: ThreadId)
    returns (m0: map<ThreadId, V>)
    requires Means(u, s, m) && FewThreads(s) && |m.Keys + {thread}| <= 64
    ensures Means(u, Removed(u, s, thread), m0) && FewThreads(Removed(u, s, thread))
    ensures thread !in m0 && m0.Keys <= m.Keys && |m0| < 64 && |m0.Keys + {thread}| <= 64
  {
    hide Stands, LayoutOf, ReachesAnother, Removed;
    RemovedMeans(u, s, m, thread);
    var victim := Victim(u, s, thread);
    m0 := if victim.Some? then m - {victim.value} else m;
    assert m0.Keys <= m.Keys;
    RemovedSize(u, s, thread);
    SubsetSize(m0.Keys + {thread}, m.Keys + {thread});
    SizeWith(m0.Keys, thread);
  }

  lemma RemovedSize<K, V>(u: Setup<K>, s: State<K, V>, key: K)
    requires s.Valid()
    ensures Removed(u, s, key).size == s.size && Removed(u, s, key).count <= s.count
  {
  }

  /** However often one of at most 64 threads sets its cursor in a row, each setting ends. */
  lemma {:induction false} ThreadsSettable(u: Setup<ThreadId>, s: State<ThreadId, ()>, m: map<ThreadId, ()>,
                                           thread: ThreadId, n: nat)
    requires u == ThreadSetup(u.hash, u.secHash) && Means(u, s, m) && FewThreads(s) && |m.Keys + {thread}| <= 64
    ensures Settable(u, s, thread, n)
    decreases n
  {
    hide Means, Added, Removed;
    assert s.Valid() by {
      ItIsValid(u, s, m);
    }
    if n > 0 {
      var r, m' := ThreadSetEnds(u, s, m, thread, ());
      ThreadsSettable(u, r, m', thread, n - 1);
    }
  }

  lemma ItIsValid<K, V>(u: Setup<K>, s: State<K, V>, m: map<K, V>)
    requires Means(u, s, m)
    ensures s.Valid()
  {
  }
}
