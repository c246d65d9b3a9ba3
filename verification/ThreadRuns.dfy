/** Whole runs of the hash behind the cursors: any settings by any threads, invalidations and clearings. */
module ThreadRuns {
  import opened Options
  import opened Words
  import opened Numbers
  import opened Stepping
  import opened OpenTable
  import opened Geometry
  import opened OpenStates
  import opened ThreadHash

  /** A thread sets its cursor, or drops it; all cursors to an element are dropped; or all of them. */
  datatype Use<V> = Setting(thread: ThreadId, cursor: Option<V>) | Invalidation(data: V) | Clearing

  /** curr( new_curr ) */
  function Set<V>(u: Setup<ThreadId>, s: State<ThreadId, V>, thread: ThreadId, cursor: Option<V>)
    : (r: Option<State<ThreadId, V>>)
    requires s.Valid()
    ensures r.Some? ==> r.value.Valid()
  {
    var removed := Removed(u, s, thread);
    if cursor.None? then Some(removed) else Added(u, removed, thread, cursor.value)
  }

  /** The loop of invalidate() at a slot. */
  function DroppedAt<V(==)>(u: Setup<ThreadId>, s: State<ThreadId, V>, data: V, i: nat): (r: State<ThreadId, V>)
    requires s.Valid() && i < s.size
    ensures r.Valid() && r.size == s.size
  {
    var c := s.cells[i];
    if c.Taken? && c.data == data then Removed(u, s, c.key) else s
  }

  /** The loop after the first i slots. */
  function DroppedBefore<V(==)>(u: Setup<ThreadId>, s: State<ThreadId, V>, data: V, i: nat): (r: State<ThreadId, V>)
    requires s.Valid() && i <= s.size
    ensures r.Valid() && r.size == s.size
    decreases i
  {
    if i == 0 then s else DroppedAt(u, DroppedBefore(u, s, data, i - 1), data, i - 1)
  }

  lemma DroppedNext<V>(u: Setup<ThreadId>, s: State<ThreadId, V>, data: V, i: nat, k: nat)
    requires s.Valid() && k == i + 1 <= s.size
    ensures DroppedBefore(u, s, data, 0) == s
    ensures DroppedBefore(u, s, data, k) == DroppedAt(u, DroppedBefore(u, s, data, i), data, i)
  {
  }

  /** invalidate() */
  function Invalidated<V(==)>(u: Setup<ThreadId>, s: State<ThreadId, V>, data: V): (r: State<ThreadId, V>)
    requires s.Valid()
    ensures r.Valid()
  {
    if s.count > 0 then DroppedBefore(u, s, data, s.size) else s
  }

  /** clear() */
  function Emptied<V>(s: State<ThreadId, V>): (r: State<ThreadId, V>)
    requires s.Valid()
    ensures r.Valid()
  {
    if s.count > 0 then Cleared(s) else s
  }

  function Used<V(==)>(u: Setup<ThreadId>, s: State<ThreadId, V>, use: Use<V>): (r: Option<State<ThreadId, V>>)
    requires s.Valid()
    ensures r.Some? ==> r.value.Valid()
  {
    match use
    case Setting(thread, cursor) => Set(u, s, thread, cursor)
    case Invalidation(data) => Some(Invalidated(u, s, data))
    case Clearing => Some(Emptied(s))
  }

  /** The state a new store of the default size comes to; none if some setting never ends. */
  function AfterUses<V(==)>(u: Setup<ThreadId>, uses: seq<Use<V>>): (r: Option<State<ThreadId, V>>)
    ensures r.Some? ==> r.value.Valid()
  {
    if |uses| == 0 then Some(NewState(THREAD_SLOTS))
    else
      var before := AfterUses(u, uses[..|uses| - 1]);
      if before.None? then None else Used(u, before.value, uses[|uses| - 1])
  }

  /** The state stands for cursors of the threads, few enough for it. */
  ghost predicate Serves<V>(u: Setup<ThreadId>, s: State<ThreadId, V>, m: map<ThreadId, V>, ids: set<ThreadId>) {
    Means(u, s, m) && FewThreads(s) && m.Keys <= ids
  }

  lemma RemovalServes<V>(u: Setup<ThreadId>, s: State<ThreadId, V>, m: map<ThreadId, V>, ids: set<ThreadId>,
                         thread: ThreadId)
    returns (m': map<ThreadId, V>)
    requires Serves(u, s, m, ids)
    ensures Serves(u, Removed(u, s, thread), m', ids)
  {
    hide Stands, LayoutOf, Removed;
    RemovedMeans(u, s, m, thread);
    RemovedSize(u, s, thread);
    var victim := Victim(u, s, thread);
    m' := if victim.Some? then m - {victim.value} else m;
  }

  lemma {:induction false} DroppingServes<V>(u: Setup<ThreadId>, s: State<ThreadId, V>, m: map<ThreadId, V>,
                                             ids: set<ThreadId>, data: V, i: nat)
    returns (m': map<ThreadId, V>)
    requires s.Valid() && i <= s.size && Serves(u, s, m, ids)
    ensures Serves(u, DroppedBefore(u, s, data, i), m', ids)
    decreases i
  {
    hide Serves, Removed;
    m' := m;
    if i > 0 {
      m' := DroppingServes(u, s, m, ids, data, i - 1);
      var t := DroppedBefore(u, s, data, i - 1);
      var c := t.cells[i - 1];
      if c.Taken? && c.data == data {
        m' := RemovalServes(u, t, m', ids, c.key);
      }
    }
  }

  /** One use by a thread of the set. */
  lemma UseServes<V>(u: Setup<ThreadId>, s: State<ThreadId, V>, m: map<ThreadId, V>, ids: set<ThreadId>, use: Use<V>)
    returns (m': map<ThreadId, V>)
    requires u == ThreadSetup(u.hash, u.secHash) && Serves(u, s, m, ids) && |ids| <= 64
    requires use.Setting? ==> use.thread in ids
    ensures Used(u, s, use).Some? && Serves(u, Used(u, s, use).value, m', ids)
  {
    hide Stands, LayoutOf, Removed, Added, ThreadSetup;
    match use
    case Setting(thread, cursor) =>
      SubsetSize(m.Keys + {thread}, ids);
      if cursor.Some? {
        var r;
        r, m' := ThreadSetEnds(u, s, m, thread, cursor.value);
      } else {
        m' := ThreadRemoved(u, s, m, thread);
      }
    case Invalidation(data) =>
      m' := m;
      if s.count > 0 {
        m' := DroppingServes(u, s, m, ids, data, s.size);
      }
    case Clearing =>
      m' := m;
      if s.count > 0 {
        ClearedMeans(u, s);
        m' := map[];
      }
  }

  /** However a set of at most 64 threads uses a new store, nothing hangs, and there is room for the next use. */
  lemma {:induction false} EveryUseEnds<V>(u: Setup<ThreadId>, uses: seq<Use<V>>, ids: set<ThreadId>)
    returns (m: map<ThreadId, V>)
    requires u == ThreadSetup(u.hash, u.secHash) && |ids| <= 64
    requires forall use | use in uses && use.Setting? :: use.thread in ids
    ensures AfterUses(u, uses).Some? && Serves(u, AfterUses(u, uses).value, m, ids)
  {
    hide Means, ThreadSetup, Used;
    if |uses| == 0 {
      m := map[];
      NewMeans<ThreadId, V>(u, THREAD_SLOTS);
    } else {
      var last := |uses| - 1;
      var before := EveryUseEnds(u, uses[..last], ids);
      m := UseServes(u, AfterUses(u, uses[..last]).value, before, ids, uses[last]);
    }
  }
}
