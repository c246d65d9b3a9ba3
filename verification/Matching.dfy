/** What the words of a command line are, and which target gets which parameter: the declarative side of
    CArgHandler. Targets are opaque. */
module Matching {
  import opened Numbers
  import opened Options

  /** The targets by their short and by their long names. */
  datatype Args<T> = Args(shorts: map<string, T>, longs: map<string, T>)

  /** getTarget: a short name is preferred; the empty word has no target. */
  function Find<T>(args: Args<T>, w: string): Option<T> {
    if |w| == 0 then None
    else if w in args.shorts then Some(args.shorts[w])
    else if w in args.longs then Some(args.longs[w])
    else None
  }

  function Dashes(w: string): (n: nat)
    ensures n <= |w| && (forall i | 0 <= i < n :: w[i] == '-') && (n < |w| ==> w[n] != '-')
  {
    if |w| > 0 && w[0] == '-' then Dashes(w[1..]) + 1 else 0
  }

  /** The character at a place behind the dashes of the word names a target, with all the dashes before it. */
  predicate Names<T>(args: Args<T>, w: string, i: nat)
    requires Dashes(w) <= i < |w|
  {
    Find(args, w[..Dashes(w)] + [w[i]]).Some?
  }

  /** A word is one of these. A full cluster of no character at all, such as a word of dashes alone, is an
      argument for no target. */
  predicate IsDirect<T>(args: Args<T>, w: string) {
    Find(args, w).Some?
  }

  predicate IsCluster<T>(args: Args<T>, w: string) {
    !IsDirect(args, w) && forall i | Dashes(w) <= i < |w| :: Names(args, w, i)
  }

  predicate IsParameter<T>(args: Args<T>, w: string) {
    !IsDirect(args, w) && |w| > 0 && w[0] != '-' && exists i | Dashes(w) <= i < |w| :: !Names(args, w, i)
  }

  predicate IsUnknown<T>(args: Args<T>, w: string) {
    !IsDirect(args, w) && |w| > 0 && w[0] == '-' && exists i | Dashes(w) <= i < |w| :: !Names(args, w, i)
  }

  lemma ExactlyOne<T>(args: Args<T>, w: string)
    ensures IsDirect(args, w) || IsCluster(args, w) || IsParameter(args, w) || IsUnknown(args, w)
    ensures !(IsDirect(args, w) && (IsCluster(args, w) || IsParameter(args, w) || IsUnknown(args, w)))
    ensures !(IsCluster(args, w) && (IsParameter(args, w) || IsUnknown(args, w)))
    ensures !(IsParameter(args, w) && IsUnknown(args, w))
  {
    if !IsDirect(args, w) && !IsCluster(args, w) {
      var i :| Dashes(w) <= i < |w| && !Names(args, w, i);
      assert |w| > 0;
    }
  }

  /** The targets a word stands for, in the order of its characters. */
  function TargetsOf<T>(args: Args<T>, w: string): (ts: seq<T>)
    ensures IsDirect(args, w) ==> ts == [Find(args, w).value]
    ensures IsCluster(args, w) ==> |ts| == |w| - Dashes(w)
    ensures !IsDirect(args, w) && !IsCluster(args, w) ==> ts == []
  {
    if IsDirect(args, w) then [Find(args, w).value]
    else if IsCluster(args, w) then
      var d := Dashes(w);
      seq(|w| - d, j requires 0 <= j < |w| - d => assert Names(args, w, d + j); Find(args, w[..d] + [w[d + j]]).value)
    else []
  }

  /** The targets of a cluster are those of its characters, each with the dashes before it, from left to right. */
  lemma ClusterInOrder<T>(args: Args<T>, w: string)
    requires IsCluster(args, w)
    ensures var d := Dashes(w);
            |TargetsOf(args, w)| == |w| - d
            && forall j | 0 <= j < |w| - d :: Find(args, w[..d] + [w[d + j]]) == Some(TargetsOf(args, w)[j])
  {
    var d := Dashes(w);
    forall j | 0 <= j < |w| - d
      ensures Find(args, w[..d] + [w[d + j]]) == Some(TargetsOf(args, w)[j])
    {
      assert Names(args, w, d + j);
    }
  }

  /** And they are those that are found so, none if some character names no target. */
  lemma IsUncombined<T>(args: Args<T>, w: string, ts: seq<T>)
    requires var d := Dashes(w);
             if forall i | d <= i < |w| :: Names(args, w, i) then
               |ts| == |w| - d && forall j | 0 <= j < |ts| :: Find(args, w[..d] + [w[d + j]]) == Some(ts[j])
             else ts == []
    ensures !IsDirect(args, w) ==> ts == TargetsOf(args, w)
  {
    hide Find;
    if IsCluster(args, w) {
      ClusterInOrder(args, w);
      assert |ts| == |TargetsOf(args, w)|;
    }
  }

  /** Characters without a dash at their front. */
  predicate Plain(s: string) {
    |s| > 0 && s[0] != '-'
  }

  predicate AllDashes(d: string) {
    forall i | 0 <= i < |d| :: d[i] == '-'
  }

  lemma {:induction false} DashesOfJoin(d: string, s: string)
    requires AllDashes(d) && Plain(s)
    ensures Dashes(d + s) == |d|
  {
    if |d| == 0 {
      assert d + s == s;
    } else {
      assert (d + s)[1..] == d[1..] + s;
      DashesOfJoin(d[1..], s);
    }
  }

  /** A part of a cluster, with its dashes, stands for its own characters: as a cluster, or as the name of a single
      character. */
  lemma PartOfCluster<T>(args: Args<T>, d: string, s: string)
    requires AllDashes(d) && Plain(s) && (|s| > 1 ==> !IsDirect(args, d + s))
    requires forall i | 0 <= i < |s| :: Find(args, d + [s[i]]).Some?
    ensures TargetsOf(args, d + s) == seq(|s|, i requires 0 <= i < |s| => Find(args, d + [s[i]]).value)
    ensures !IsParameter(args, d + s) && !IsUnknown(args, d + s)
  {
    var w := d + s;
    DashesOfJoin(d, s);
    assert w[..|d|] == d;
    if IsDirect(args, w) {
      assert s == [s[0]];
    } else {
      forall i | |d| <= i < |w|
        ensures Names(args, w, i)
      {
        assert w[i] == s[i - |d|];
      }
      ClusterInOrder(args, w);
    }
  }

  lemma CharactersName<T>(args: Args<T>, d: string, s: string)
    requires AllDashes(d) && Plain(s) && IsCluster(args, d + s)
    ensures forall i | 0 <= i < |s| :: Find(args, d + [s[i]]).Some?
  {
    var w := d + s;
    DashesOfJoin(d, s);
    forall i | 0 <= i < |s|
      ensures Find(args, d + [s[i]]).Some?
    {
      assert Names(args, w, |d| + i);
      assert w[..|d|] == d && w[|d| + i] == s[i];
    }
  }

  /** A cluster stands for what its parts stand for, one after the other, unless a part of several characters is a
      name itself. */
  lemma ClusterSplits<T>(args: Args<T>, d: string, s: string, t: string)
    requires AllDashes(d) && Plain(s) && Plain(t) && IsCluster(args, d + s + t)
    requires (|s| > 1 ==> !IsDirect(args, d + s)) && (|t| > 1 ==> !IsDirect(args, d + t))
    ensures TargetsOf(args, d + s + t) == TargetsOf(args, d + s) + TargetsOf(args, d + t)
    ensures forall w | w in {d + s + t, d + s, d + t} :: !IsParameter(args, w) && !IsUnknown(args, w)
  {
    hide Find, TargetsOf, IsParameter, IsUnknown, AllDashes;
    assert d + s + t == d + (s + t);
    CharactersName(args, d, s + t);
    forall i | 0 <= i < |s|
      ensures Find(args, d + [s[i]]).Some?
    {
      assert (s + t)[i] == s[i];
    }
    forall i | 0 <= i < |t|
      ensures Find(args, d + [t[i]]).Some?
    {
      assert (s + t)[|s| + i] == t[i];
    }
    PartOfCluster(args, d, s + t);
    PartOfCluster(args, d, s);
    PartOfCluster(args, d, t);
  }

  /** All targets of some words, all parameters among them, and all unknown words. */
  function Targets<T>(args: Args<T>, words: seq<string>): seq<T> {
    if |words| == 0 then [] else Targets(args, words[..|words| - 1]) + TargetsOf(args, words[|words| - 1])
  }

  function Parameters<T>(args: Args<T>, words: seq<string>): seq<string> {
    if |words| == 0 then []
    else
      var rest, w := Parameters(args, words[..|words| - 1]), words[|words| - 1];
      if IsParameter(args, w) then rest + [w] else rest
  }

  function Unknowns<T>(args: Args<T>, words: seq<string>): seq<string> {
    if |words| == 0 then []
    else
      var rest, w := Unknowns(args, words[..|words| - 1]), words[|words| - 1];
      if IsUnknown(args, w) then rest + [w] else rest
  }

  /** One more word. */
  lemma NextWord<T>(args: Args<T>, words: seq<string>, i: nat, k: nat)
    requires k == i + 1 <= |words|
    ensures Targets(args, words[..k]) == Targets(args, words[..i]) + TargetsOf(args, words[i])
    ensures Parameters(args, words[..k]) == Parameters(args, words[..i])
            + if IsParameter(args, words[i]) then [words[i]] else []
    ensures Unknowns(args, words[..k]) == Unknowns(args, words[..i])
            + if IsUnknown(args, words[i]) then [words[i]] else []
  {
    assert words[..k][..i] == words[..i];
  }

  /** Targets, parameters and unknown words of words one after the other. */
  lemma {:induction false} WordsJoin<T>(args: Args<T>, ws: seq<string>, vs: seq<string>)
    ensures Targets(args, ws + vs) == Targets(args, ws) + Targets(args, vs)
    ensures Parameters(args, ws + vs) == Parameters(args, ws) + Parameters(args, vs)
    ensures Unknowns(args, ws + vs) == Unknowns(args, ws) + Unknowns(args, vs)
    decreases |vs|
  {
    hide TargetsOf, IsParameter, IsUnknown;
    if |vs| == 0 {
      assert ws + vs == ws;
    } else {
      var n := |vs| - 1;
      WordsJoin(args, ws, vs[..n]);
      assert (ws + vs)[..|ws + vs| - 1] == ws + vs[..n];
    }
  }

  lemma OneWord<T>(args: Args<T>, w: string)
    ensures Targets(args, [w]) == TargetsOf(args, w)
    ensures Parameters(args, [w]) == if IsParameter(args, w) then [w] else []
    ensures Unknowns(args, [w]) == if IsUnknown(args, w) then [w] else []
  {
    NextWord(args, [w], 0, 1);
    assert [w][..0] == [] && [w][..1] == [w];
  }

  /** In a command line a cluster can be written as its parts. */
  lemma ClusterAsParts<T>(args: Args<T>, ws: seq<string>, d: string, s: string, t: string, vs: seq<string>)
    requires AllDashes(d) && Plain(s) && Plain(t) && IsCluster(args, d + s + t)
    requires (|s| > 1 ==> !IsDirect(args, d + s)) && (|t| > 1 ==> !IsDirect(args, d + t))
    ensures var whole, parts := ws + [d + s + t] + vs, ws + [d + s, d + t] + vs;
            && Targets(args, whole) == Targets(args, parts)
            && Parameters(args, whole) == Parameters(args, parts)
            && Unknowns(args, whole) == Unknowns(args, parts)
  {
    hide TargetsOf, IsParameter, IsUnknown, IsCluster, IsDirect, Targets, Parameters, Unknowns;
    ClusterSplits(args, d, s, t);
    OneWord(args, d + s + t);
    OneWord(args, d + s);
    OneWord(args, d + t);
    WordsJoin(args, ws, [d + s + t]);
    WordsJoin(args, ws + [d + s + t], vs);
    WordsJoin(args, [d + s], [d + t]);
    assert [d + s] + [d + t] == [d + s, d + t];
    WordsJoin(args, ws, [d + s, d + t]);
    WordsJoin(args, ws + [d + s, d + t], vs);
  }

  /** Words without any name: those with a dash at the front are unknown, unless they have nothing else; the others
      are parameters. */
  lemma WithoutNames<T>(args: Args<T>, w: string)
    requires args == Args(map[], map[])
    ensures IsParameter(args, w) <==> |w| > 0 && w[0] != '-'
    ensures IsUnknown(args, w) <==> |w| > 0 && w[0] == '-' && exists i | 0 <= i < |w| :: w[i] != '-'
    ensures TargetsOf(args, w) == []
  {
    if Dashes(w) < |w| {
      assert !Names(args, w, Dashes(w));
    }
  }

  // ---- Who gets which parameter

  /** A target that is processed, with its parameter if it gets one. */
  datatype Delivery<T> = Delivery(target: T, param: Option<string>)

  function Needing<T>(ts: seq<T>, needs: T -> bool): nat {
    if |ts| == 0 then 0 else Needing(ts[..|ts| - 1], needs) + if needs(ts[|ts| - 1]) then 1 else 0
  }

  /** The i-th target gets the k-th parameter if it is the k-th one that needs a parameter, and if there
      are so many. */
  function Delivered<T>(ts: seq<T>, params: seq<string>, needs: T -> bool, i: nat): Delivery<T>
    requires i < |ts|
  {
    var k := Needing(ts[..i], needs);
    Delivery(ts[i], if needs(ts[i]) && k < |params| then Some(params[k]) else None)
  }

  /** How many parameters the targets use up. */
  function Used<T>(ts: seq<T>, params: seq<string>, needs: T -> bool): (n: nat)
    ensures n <= |params|
  {
    if Needing(ts, needs) < |params| then Needing(ts, needs) else |params|
  }

  /** One more target: what it gets is the first parameter that is left. */
  lemma NextTarget<T>(ts: seq<T>, params: seq<string>, needs: T -> bool, i: nat, k: nat)
    requires k == i + 1 <= |ts|
    ensures var u := Used(ts[..i], params, needs);
            && Used(ts[..k], params, needs) == u + (if needs(ts[i]) && u < |params| then 1 else 0)
            && Delivered(ts, params, needs, i)
               == Delivery(ts[i], if needs(ts[i]) && u < |params| then Some(params[u]) else None)
  {
    assert ts[..k][..i] == ts[..i];
  }

  // ---- Errors

  datatype Error<T> =
    | ArgumentUnknown(word: string)
    | ParameterMissing(target: T)
    | MultipleSetParam(target: T, param: string)
    | ProcessingFailed(target: T)
    | MandatoryMissing(target: T)

  /** Which targets need a parameter, which take one only, and at which deliveries the processing throws: a
      callback may do so, and a target whose type does not go with its kind. */
  datatype Rules<!T> = Rules(needs: T -> bool, once: T -> bool, throws: nat -> bool)

  /** The target has been given a parameter before: by one of the deliveries, or in an earlier run. */
  predicate Given<T(==)>(ds: seq<Delivery<T>>, before: set<T>, t: T) {
    t in before || exists j | 0 <= j < |ds| :: ds[j].target == t && ds[j].param.Some?
  }

  /** What a delivery leads to after the earlier ones: an argument without the parameter it needs, a second
      parameter for a target that takes one only, and an exception while it is processed, are errors. */
  function ErrorOf<T(==)>(ds: seq<Delivery<T>>, before: set<T>, rules: Rules<T>,
                     d: Delivery<T>): seq<Error<T>> {
    if rules.needs(d.target) && d.param.None? then [ParameterMissing(d.target)]
    else if rules.once(d.target) && d.param.Some? && Given(ds, before, d.target)
    then [MultipleSetParam(d.target, d.param.value)]
    else if rules.throws(|ds|) then [ProcessingFailed(d.target)]
    else []
  }

  function ErrorsOf<T(==)>(ds: seq<Delivery<T>>, before: set<T>, rules: Rules<T>): seq<Error<T>> {
    if |ds| == 0 then []
    else
      var n := |ds| - 1;
      ErrorsOf(ds[..n], before, rules) + ErrorOf(ds[..n], before, rules, ds[n])
  }

  lemma NextDelivery<T>(ds: seq<Delivery<T>>, before: set<T>, rules: Rules<T>, d: Delivery<T>)
    ensures ErrorsOf(ds + [d], before, rules) == ErrorsOf(ds, before, rules)
            + ErrorOf(ds, before, rules, d)
    ensures forall t :: Given(ds + [d], before, t) <==> Given(ds, before, t) || (t == d.target && d.param.Some?)
  {
    assert (ds + [d])[..|ds|] == ds;
    var es := ds + [d];
    forall t
      ensures Given(es, before, t) <==> Given(ds, before, t) || (t == d.target && d.param.Some?)
    {
      if Given(ds, before, t) && t !in before {
        var j :| 0 <= j < |ds| && ds[j].target == t && ds[j].param.Some?;
        assert es[j] == ds[j];
      }
      if t == d.target && d.param.Some? {
        assert es[|ds|] == d;
      }
    }
  }

  /** The delivery is an argument that misses its parameter, or a second parameter where one is the limit, or
      its processing throws. */
  predicate Fails<T(==)>(ds: seq<Delivery<T>>, before: set<T>, rules: Rules<T>, i: nat)
    requires i < |ds|
  {
    (rules.needs(ds[i].target) && ds[i].param.None?)
    || (rules.once(ds[i].target) && ds[i].param.Some? && Given(ds[..i], before, ds[i].target))
    || rules.throws(i)
  }

  /** The target has been processed: by a delivery that did not fail, or in an earlier run. */
  predicate Worked<T(==)>(ds: seq<Delivery<T>>, before: set<T>, done: set<T>, rules: Rules<T>, t: T) {
    t in done || exists j | 0 <= j < |ds| :: ds[j].target == t && !Fails(ds, before, rules, j)
  }

  lemma NextWorked<T>(ds: seq<Delivery<T>>, before: set<T>, done: set<T>, rules: Rules<T>,
                      d: Delivery<T>)
    ensures forall t ::
              Worked(ds + [d], before, done, rules, t) <==>
                Worked(ds, before, done, rules, t)
                || (t == d.target && ErrorOf(ds, before, rules, d) == [])
  {
    var es := ds + [d];
    assert es[..|ds|] == ds;
    assert Fails(es, before, rules, |ds|) <==> ErrorOf(ds, before, rules, d) != [];
    forall j | 0 <= j < |ds|
      ensures Fails(es, before, rules, j) <==> Fails(ds, before, rules, j)
    {
      assert es[..j] == ds[..j];
    }
    forall t
      ensures Worked(es, before, done, rules, t) <==>
                Worked(ds, before, done, rules, t) || (t == d.target && !Fails(es, before, rules, |ds|))
    {
      if Worked(ds, before, done, rules, t) && t !in done {
        var j :| 0 <= j < |ds| && ds[j].target == t && !Fails(ds, before, rules, j);
        assert es[j].target == t;
      }
      if t == d.target && !Fails(es, before, rules, |ds|) {
        assert es[|ds|].target == t;
      }
    }
  }

  // ---- Positional targets

  /** The queue after its first element has been put to the end so often. */
  function Rotated<T>(q: seq<T>, n: nat): (r: seq<T>)
    ensures |r| == |q|
  {
    if |q| == 0 then q else seq(|q|, i => q[(i + n) % |q|])
  }

  lemma RotatedNext<T>(q: seq<T>, n: nat, k: nat)
    requires |q| > 0 && k == n + 1
    ensures Rotated(q, n)[0] == q[n % |q|]
    ensures Rotated(q, n)[1..] + [Rotated(q, n)[0]] == Rotated(q, k)
  {
    var r, s := Rotated(q, n), Rotated(q, k);
    forall i | 0 <= i < |q|
      ensures (r[1..] + [r[0]])[i] == s[i]
    {
      if i == |q| - 1 {
        WrapsAround(n, |q|);
      }
    }
  }

  lemma WrapsAround(n: nat, size: nat)
    requires size > 0
    ensures (size - 1 + (n + 1)) % size == n % size
  {
    ModUnique(n + size, size, n / size + 1, n % size);
  }

  /** The i-th parameter that is left over goes to the positional target i, counted around. */
  function Positional<T>(left: seq<string>, q: seq<T>): (ds: seq<Delivery<T>>)
    ensures |ds| == if |q| == 0 then 0 else |left|
  {
    if |q| == 0 then [] else seq(|left|, i requires 0 <= i < |left| => Delivery(q[i % |q|], Some(left[i])))
  }

  /** Without positional targets what is left over is unknown. */
  function LeftUnknown<T>(left: seq<string>, q: seq<T>): (es: seq<Error<T>>) {
    if |q| == 0 then Unknown(left) else []
  }

  function Unknown<T>(words: seq<string>): seq<Error<T>> {
    seq(|words|, i requires 0 <= i < |words| => ArgumentUnknown(words[i]))
  }

  lemma PositionalNext<T>(left: seq<string>, q: seq<T>, i: nat, k: nat)
    requires k == i + 1 <= |left|
    ensures |q| > 0 ==> Positional(left[..k], q) == Positional(left[..i], q) + [Delivery(q[i % |q|], Some(left[i]))]
    ensures |q| == 0 ==> Positional(left[..k], q) == Positional(left[..i], q)
    ensures |q| > 0 ==> LeftUnknown(left[..i], q) == []
    ensures LeftUnknown(left[..k], q) == LeftUnknown(left[..i], q) + if |q| == 0 then [ArgumentUnknown(left[i])] else []
  {
  }

  lemma NothingServed<T>(q: seq<T>)
    ensures Positional([], q) == [] && LeftUnknown([], q) == [] && Rotated(q, 0) == q
  {
  }

  function DeliveredAll<T>(ts: seq<T>, params: seq<string>, needs: T -> bool): (ds: seq<Delivery<T>>)
    ensures |ds| == |ts|
  {
    seq(|ts|, i requires 0 <= i < |ts| => Delivered(ts, params, needs, i))
  }

  lemma DeliveredNext<T>(ts: seq<T>, params: seq<string>, needs: T -> bool, i: nat, k: nat)
    requires k == i + 1 <= |ts|
    ensures DeliveredAll(ts[..k], params, needs) == DeliveredAll(ts[..i], params, needs)
            + [Delivered(ts, params, needs, i)]
  {
    var a := DeliveredAll(ts[..k], params, needs);
    var b := DeliveredAll(ts[..i], params, needs) + [Delivered(ts, params, needs, i)];
    forall j | 0 <= j < k
      ensures a[j] == b[j]
    {
      assert ts[..k][..j] == ts[..j];
      if j < i {
        assert ts[..i][..j] == ts[..j];
      }
    }
  }

  /** The place of the pass-through marker, or the end. */
  function MarkerAt(words: seq<string>, marker: Option<string>): (i: nat)
    ensures i <= |words|
    ensures marker.Some? ==> marker.value !in words[..i] && (i < |words| ==> words[i] == marker.value)
    ensures marker.None? ==> i == |words|
  {
    if |words| == 0 || Some(words[0]) == marker then 0 else MarkerAt(words[1..], marker) + 1
  }

  lemma {:induction false} MarkerIs(words: seq<string>, marker: Option<string>, i: nat)
    requires i <= |words| && forall j | 0 <= j < i :: Some(words[j]) != marker
    requires i < |words| ==> Some(words[i]) == marker
    ensures MarkerAt(words, marker) == i
  {
    if i > 0 {
      MarkerIs(words[1..], marker, i - 1);
    }
  }

  // ---- What the matching amounts to

  /** The parameters that are handed out, in order. */
  function Taken<T>(ds: seq<Delivery<T>>): seq<string> {
    if |ds| == 0 then []
    else
      var rest, d := Taken(ds[..|ds| - 1]), ds[|ds| - 1];
      if d.param.Some? then rest + [d.param.value] else rest
  }

  lemma {:induction false} TakenInOrder<T>(ts: seq<T>, params: seq<string>, needs: T -> bool)
    ensures Taken(DeliveredAll(ts, params, needs)) == params[..Used(ts, params, needs)]
  {
    if |ts| > 0 {
      var n := |ts| - 1;
      TakenInOrder(ts[..n], params, needs);
      NextTarget(ts, params, needs, n, |ts|);
      DeliveredNext(ts, params, needs, n, |ts|);
      var ds := DeliveredAll(ts[..n], params, needs);
      assert ts[..|ts|] == ts;
      assert (ds + [Delivered(ts, params, needs, n)])[..n] == ds;
    }
  }

  lemma {:induction false} TakenByPosition<T>(ds: seq<Delivery<T>>, left: seq<string>, q: seq<T>)
    requires |q| > 0
    ensures Taken(ds + Positional(left, q)) == Taken(ds) + left
    decreases |left|
  {
    if |left| == 0 {
      assert ds + Positional(left, q) == ds;
    } else {
      var n := |left| - 1;
      var p := Positional(left[..n], q);
      TakenByPosition(ds, left[..n], q);
      AddsOne(ds, p, left, q, n);
      assert left[..n] + [left[n]] == left;
    }
  }

  lemma TakenLast<T>(ds: seq<Delivery<T>>, d: Delivery<T>)
    ensures Taken(ds + [d]) == Taken(ds) + if d.param.Some? then [d.param.value] else []
  {
    assert (ds + [d])[..|ds|] == ds;
  }

  lemma AddsOne<T>(ds: seq<Delivery<T>>, p: seq<Delivery<T>>, left: seq<string>, q: seq<T>, n: nat)
    requires |q| > 0 && n + 1 == |left| && p == Positional(left[..n], q)
    ensures Taken(ds + Positional(left, q)) == Taken(ds + p) + [left[n]]
  {
    hide Taken, Positional;
    var d := Delivery(q[n % |q|], Some(left[n]));
    PositionalNext(left, q, n, |left|);
    assert left[..|left|] == left;
    assert ds + (p + [d]) == ds + p + [d];
    TakenLast(ds + p, d);
  }

  /** No parameter is lost, handed out twice, or handed out before an earlier one. */
  lemma NothingIsLost<T>(ts: seq<T>, params: seq<string>, needs: T -> bool, q: seq<T>)
    ensures var used := Used(ts, params, needs);
            var left := params[used..];
            Taken(DeliveredAll(ts, params, needs) + Positional(left, q)) + (if |q| == 0 then left else []) == params
  {
    var used := Used(ts, params, needs);
    var ds := DeliveredAll(ts, params, needs);
    TakenInOrder(ts, params, needs);
    if |q| == 0 {
      assert ds + Positional(params[used..], q) == ds;
    } else {
      TakenByPosition(ds, params[used..], q);
    }
    assert params[..used] + params[used..] == params;
  }

  /** The last delivery fails exactly if it leads to an error, the earlier ones fail as they did without it. */
  lemma FailsLast<T>(ds: seq<Delivery<T>>, before: set<T>, rules: Rules<T>, n: nat)
    requires n + 1 == |ds|
    ensures forall i | 0 <= i < n :: Fails(ds[..n], before, rules, i) <==> Fails(ds, before, rules, i)
    ensures ErrorOf(ds[..n], before, rules, ds[n]) == [] <==> !Fails(ds, before, rules, n)
  {
    hide Given;
    forall i | 0 <= i < n
      ensures Fails(ds[..n], before, rules, i) <==> Fails(ds, before, rules, i)
    {
      assert ds[..n][..i] == ds[..i];
    }
  }

  lemma {:induction false} NoErrorsOfIff<T>(ds: seq<Delivery<T>>, before: set<T>, rules: Rules<T>)
    ensures ErrorsOf(ds, before, rules) == [] <==> forall i | 0 <= i < |ds| :: !Fails(ds, before, rules, i)
  {
    hide Fails, ErrorOf;
    if |ds| > 0 {
      var n := |ds| - 1;
      NoErrorsOfIff(ds[..n], before, rules);
      FailsLast(ds, before, rules, n);
    }
  }

  /** Some argument misses its parameter exactly if more arguments need one than there are. */
  lemma {:induction false} MissingIff<T>(ts: seq<T>, params: seq<string>, needs: T -> bool)
    ensures (exists i | 0 <= i < |ts| :: needs(ts[i]) && Delivered(ts, params, needs, i).param.None?) <==>
              Needing(ts, needs) > |params|
  {
    if |ts| > 0 {
      var n := |ts| - 1;
      MissingIff(ts[..n], params, needs);
      forall i | 0 <= i < n
        ensures Delivered(ts[..n], params, needs, i) == Delivered(ts, params, needs, i)
      {
        assert ts[..n][..i] == ts[..i];
      }
      if needs(ts[n]) && Needing(ts[..n], needs) >= |params| {
        assert Delivered(ts, params, needs, n).param.None?;
      }
    }
  }

  /** A second parameter for a target that takes one only. */
  predicate Repeats<T(==)>(ds: seq<Delivery<T>>, before: set<T>, once: T -> bool, i: nat)
    requires i < |ds|
  {
    once(ds[i].target) && ds[i].param.Some? && Given(ds[..i], before, ds[i].target)
  }

  /** What is handed out leads to no error exactly if there are parameters for all arguments that need one,
      none is a second one for a target that takes one only, and no processing throws. */
  lemma NothingFailsIff<T>(ts: seq<T>, params: seq<string>, left: seq<string>, q: seq<T>, before: set<T>,
                           rules: Rules<T>)
    ensures var ds := DeliveredAll(ts, params, rules.needs) + Positional(left, q);
            ErrorsOf(ds, before, rules) == [] <==>
              && Needing(ts, rules.needs) <= |params|
              && forall i | 0 <= i < |ds| :: !Repeats(ds, before, rules.once, i) && !rules.throws(i)
  {
    var ds := DeliveredAll(ts, params, rules.needs) + Positional(left, q);
    hide ErrorsOf, Given;
    NoErrorsOfIff(ds, before, rules);
    MissingIff(ts, params, rules.needs);
    if i :| 0 <= i < |ts| && rules.needs(ts[i]) && Delivered(ts, params, rules.needs, i).param.None? {
      assert Fails(ds, before, rules, i);
    }
    forall i | 0 <= i < |ds|
      ensures Fails(ds, before, rules, i) <==>
                (rules.needs(ds[i].target) && ds[i].param.None?) || Repeats(ds, before, rules.once, i)
                || rules.throws(i)
      ensures rules.needs(ds[i].target) && ds[i].param.None? ==>
                i < |ts| && ds[i] == Delivered(ts, params, rules.needs, i)
    {
    }
  }

  // ---- Mandatory targets

  /** The errors for the targets that are demanded and absent, each time they are met. */
  function Missing<T(==)>(ts: seq<T>, demanded: T -> bool, present: set<T>): seq<Error<T>> {
    if |ts| == 0 then []
    else
      var t := ts[|ts| - 1];
      Missing(ts[..|ts| - 1], demanded, present) + if demanded(t) && t !in present then [MandatoryMissing(t)] else []
  }

  lemma MissingNext<T>(ts: seq<T>, t: T, demanded: T -> bool, present: set<T>)
    ensures Missing(ts + [t], demanded, present) ==
            Missing(ts, demanded, present) + if demanded(t) && t !in present then [MandatoryMissing(t)] else []
  {
    assert (ts + [t])[..|ts|] == ts;
  }

  lemma {:induction false} MissingJoins<T>(ts: seq<T>, us: seq<T>, demanded: T -> bool, present: set<T>)
    ensures Missing(ts + us, demanded, present) == Missing(ts, demanded, present) + Missing(us, demanded, present)
    decreases |us|
  {
    if |us| == 0 {
      assert ts + us == ts;
    } else {
      var n := |us| - 1;
      MissingJoins(ts, us[..n], demanded, present);
      assert ts + us == (ts + us[..n]) + [us[n]];
      MissingNext(ts + us[..n], us[n], demanded, present);
    }
  }

  /** An absent target is noted as often as it is met. */
  lemma {:induction false} MissingCounts<T>(ts: seq<T>, demanded: T -> bool, present: set<T>, t: T)
    ensures multiset(Missing(ts, demanded, present))[MandatoryMissing(t)] ==
            if demanded(t) && t !in present then multiset(ts)[t] else 0
  {
    if |ts| > 0 {
      var n := |ts| - 1;
      MissingCounts(ts[..n], demanded, present, t);
      assert ts == ts[..n] + [ts[n]];
    }
  }

  /** None is noted exactly if all that are met and demanded are present. */
  lemma {:induction false} NoneMissingIff<T>(ts: seq<T>, demanded: T -> bool, present: set<T>)
    ensures Missing(ts, demanded, present) == [] <==> forall t | t in ts :: demanded(t) ==> t in present
  {
    if |ts| > 0 {
      var n := |ts| - 1;
      NoneMissingIff(ts[..n], demanded, present);
      assert ts == ts[..n] + [ts[n]];
    }
  }
}
