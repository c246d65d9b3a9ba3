/** CArgHandler: parseArgs over the two tables of names and the queue of positional targets. */
module ArgHandler {
  import opened Options
  import opened Words
  import opened Stepping
  import opened HashElements
  import opened ChainTable
  import opened ChainHash
  import opened Growth
  import opened Matching
  import opened NameTables

  datatype ArgType = SetFalse | SetTrue | Add | Increase | Subtract | Decrease | Set | Callback

  datatype SetType = ZeroOrOne | ZeroOrMany | ExactlyOnce | OneOrMany

  class ArgTarget {
    const argType: ArgType
    const setType: SetType
    const paramName: string
    const hasShort: bool     // it has a short name
    const hasCallback: bool
    var gotParameter: bool
    var wasProcessed: bool
    const toValue: string -> int  // what a parameter means as a value
    var value: int                // the variable behind the target

    constructor (argType: ArgType, setType: SetType, paramName: string, hasShort: bool,
                 hasCallback: bool, toValue: string -> int, value: int)
      ensures this.argType == argType && this.setType == setType && this.paramName == paramName
      ensures this.hasShort == hasShort && this.hasCallback == hasCallback
      ensures this.toValue == toValue && this.value == value && !gotParameter && !wasProcessed
    {
      this.argType, this.setType, this.paramName := argType, setType, paramName;
      this.hasShort, this.hasCallback := hasShort, hasCallback;
      this.toValue, this.value := toValue, value;
      gotParameter, wasProcessed := false, false;
    }

    /** reset() */
    method Reset()
      modifies this`gotParameter, this`wasProcessed
      ensures !gotParameter && !wasProcessed
    {
      gotParameter, wasProcessed := false, false;
    }

    predicate NeedsParameter() {
      argType == Add || argType == Subtract || argType == Set || (argType == Callback && |paramName| > 0)
    }

    /** The target takes one parameter only. */
    predicate TakesOne() {
      argType == Set && (setType == ZeroOrOne || setType == ExactlyOnce)
    }

    predicate IsMandatory() {
      setType == ExactlyOnce || setType == OneOrMany
    }

    /** The value that comes of a parameter, if the target is not one of those that refuse it. */
    function Changed(value: int, param: Option<string>): int {
      var val := if param.Some? then toValue(param.value) else 0;
      match argType
      case SetFalse => 0
      case SetTrue => 1
      case Increase => value + 1
      case Decrease => value - 1
      case Add => value + val
      case Subtract => value - val
      case Set => val
      case Callback => value
    }

    /** process: a target that takes one parameter only refuses the second. Then the callback is called, if there
        is one; it may throw. */
    method Process(param: Option<string>, throws: bool) returns (outcome: Outcome)
      modifies this
      ensures outcome == if TakesOne() && old(gotParameter) then Refused else if throws then Thrown else Fine
      ensures gotParameter == (old(gotParameter) || argType == Set || (hasCallback && outcome.Fine? && IsText(param)))
      ensures wasProcessed == (old(wasProcessed) || outcome.Fine?)
      ensures value == if outcome.Refused? then old(value) else Changed(old(value), param)
    {
      outcome := Fine;
      var val := if param.Some? then toValue(param.value) else 0;
      match argType {
        case SetFalse => value := 0;
        case SetTrue => value := 1;
        case Increase => value := value + 1;
        case Decrease => value := value - 1;
        case Add => value := value + val;
        case Subtract => value := value - val;
        case Set =>
          if (setType == ZeroOrOne || setType == ExactlyOnce) && gotParameter {
            outcome := Refused;
          } else {
            value := val;
            gotParameter := true;
          }
        case Callback =>
      }
      if outcome == Fine {
        if throws {
          return Thrown;
        }
        if hasCallback && IsText(param) {
          gotParameter := true;
        }
      }
      if outcome == Fine {
        wasProcessed := true;
      }
    }
  }

  datatype Outcome = Fine | Refused | Thrown

  predicate IsText(param: Option<string>) {
    param.Some? && |param.value| > 0
  }

  const NEEDS: ArgTarget -> bool := (t: ArgTarget) => t.NeedsParameter()
  const TAKES_ONE: ArgTarget -> bool := (t: ArgTarget) => t.TakesOne()

  const MANDATORY: ArgTarget -> bool := (t: ArgTarget) => t.IsMandatory()
  const LONG_MANDATORY: ArgTarget -> bool := (t: ArgTarget) => !t.hasShort && t.IsMandatory()

  /** What comes from outside a run: the targets that have been given a parameter before, those that have been
      processed before, the values before, and at which deliveries the processing throws. */
  datatype Past =
    Past(given: set<ArgTarget>, done: set<ArgTarget>, values: map<ArgTarget, int>, throws: nat -> bool) {
    function Rules(): Rules<ArgTarget> {
      Matching.Rules(NEEDS, TAKES_ONE, throws)
    }
  }

  /** A target needs a parameter exactly if its value depends on it, or if it is a callback with a named one. */
  lemma NeedsParameterIff(t: ArgTarget, value: int, p: string, q: string)
    requires t.toValue(p) != t.toValue(q)
    ensures t.NeedsParameter() <==>
              || t.Changed(value, Some(p)) != t.Changed(value, Some(q))
              || (t.argType == Callback && t.paramName != "")
  {
  }

  /** The delivery reaches the variable behind its target. */
  predicate Reaches(ds: seq<Delivery<ArgTarget>>, given: set<ArgTarget>, i: nat)
    requires i < |ds|
  {
    var t, param := ds[i].target, ds[i].param;
    !(t.NeedsParameter() && param.None?) && !(t.TakesOne() && param.Some? && Given(ds[..i], given, t))
  }

  /** What the deliveries, one after the other, make of the value of a target. */
  function ValueAfter(ds: seq<Delivery<ArgTarget>>, past: Past, t: ArgTarget): int {
    if |ds| == 0 then (if t in past.values then past.values[t] else 0)
    else
      var n := |ds| - 1;
      var value := ValueAfter(ds[..n], past, t);
      if ds[n].target == t && Reaches(ds, past.given, n) then t.Changed(value, ds[n].param) else value
  }

  lemma NextValue(ds: seq<Delivery<ArgTarget>>, past: Past, d: Delivery<ArgTarget>, t: ArgTarget)
    ensures ValueAfter(ds + [d], past, t)
            == if d.target == t && !(t.NeedsParameter() && d.param.None?)
                  && !(t.TakesOne() && d.param.Some? && Given(ds, past.given, t))
               then t.Changed(ValueAfter(ds, past, t), d.param)
               else ValueAfter(ds, past, t)
  {
    assert (ds + [d])[..|ds|] == ds;
  }

  /** The parameters of the deliveries that reach a target, in order. */
  function Reached(ds: seq<Delivery<ArgTarget>>, given: set<ArgTarget>, t: ArgTarget): seq<Option<string>> {
    if |ds| == 0 then []
    else
      var n := |ds| - 1;
      Reached(ds[..n], given, t) + if ds[n].target == t && Reaches(ds, given, n) then [ds[n].param] else []
  }

  /** What parameters add up to. */
  function Sum(params: seq<Option<string>>, toValue: string -> int): int {
    if |params| == 0 then 0
    else
      var last := params[|params| - 1];
      Sum(params[..|params| - 1], toValue) + if last.Some? then toValue(last.value) else 0
  }

  /** The parameters make the one value of the other: they are counted up or down, added up or subtracted, the last
      one counts, or nothing is done. */
  predicate Make(t: ArgTarget, v: int, ps: seq<Option<string>>, v': int) {
    match t.argType
    case Increase => v' == v + |ps|
    case Decrease => v' == v - |ps|
    case Add => v' == v + Sum(ps, t.toValue)
    case Subtract => v' == v - Sum(ps, t.toValue)
    case SetTrue => v' == if ps == [] then v else 1
    case SetFalse => v' == if ps == [] then v else 0
    case Set => if ps == [] then v' == v
                else ps[|ps| - 1].Some? && v' == t.toValue(ps[|ps| - 1].value)
    case Callback => v' == v
  }

  lemma MakeNext(t: ArgTarget, v: int, ps: seq<Option<string>>, v': int, p: Option<string>)
    requires Make(t, v, ps, v') && (t.NeedsParameter() ==> p.Some?)
    ensures Make(t, v, ps + [p], t.Changed(v', p))
  {
    assert (ps + [p])[..|ps|] == ps;
  }

  /** The value after some deliveries is made of the parameters that have reached the target. */
  lemma {:induction false} ValueMeans(ds: seq<Delivery<ArgTarget>>, past: Past, t: ArgTarget)
    requires t in past.values
    ensures Make(t, past.values[t], Reached(ds, past.given, t), ValueAfter(ds, past, t))
  {
    hide Make, ArgTarget.Changed;
    if |ds| == 0 {
      NothingMade(t, past.values[t]);
    } else {
      var n := |ds| - 1;
      ValueMeans(ds[..n], past, t);
      if ds[n].target == t && Reaches(ds, past.given, n) {
        MakeNext(t, past.values[t], Reached(ds[..n], past.given, t), ValueAfter(ds[..n], past, t), ds[n].param);
      } else {
        assert Reached(ds, past.given, t) == Reached(ds[..n], past.given, t);
      }
    }
  }

  lemma NothingMade(t: ArgTarget, v: int)
    ensures Make(t, v, [], v)
  {
  }

  /** A target that takes one parameter only is reached by the first one, and not if it has been given one before. */
  lemma {:induction false} OnceReached(ds: seq<Delivery<ArgTarget>>, given: set<ArgTarget>, t: ArgTarget)
    requires t.TakesOne()
    ensures |Reached(ds, given, t)| == if t !in given && Given(ds, given, t) then 1 else 0
    ensures |Reached(ds, given, t)| == 1 ==>
              exists i :: 0 <= i < |ds| && ds[i].target == t && !Given(ds[..i], given, t)
                          && ds[i].param.Some? && Reached(ds, given, t) == [ds[i].param]
  {
    if |ds| > 0 {
      var n := |ds| - 1;
      OnceReached(ds[..n], given, t);
      assert ds == ds[..n] + [ds[n]];
      NextDelivery(ds[..n], given, Matching.Rules(NEEDS, TAKES_ONE, i => false), ds[n]);
      if |Reached(ds[..n], given, t)| == 1 {
        var i :| 0 <= i < n && ds[..n][i].target == t && !Given(ds[..n][..i], given, t)
                 && ds[..n][i].param.Some? && Reached(ds[..n], given, t) == [ds[..n][i].param];
        assert ds[..n][..i] == ds[..i];
        assert ds[..n][i] == ds[i];
      }
    }
  }

  class CArgHandler {
    const shortArgs: TChainHash<string, ArgTarget>
    const longArgs: TChainHash<string, ArgTarget>
    const passInit: Option<string>
    ghost const args: Args<ArgTarget>        // what the two tables stand for
    var posQueue: seq<ArgTarget>
    var errlist: seq<Error<ArgTarget>>
    var passed: Option<seq<string>>
    ghost var Log: seq<Delivery<ArgTarget>>  // what has been handed to the targets in this run

    ghost predicate Valid()
      reads shortArgs, shortArgs.hashTable, shortArgs.Elements, longArgs, longArgs.hashTable, longArgs.Elements
    {
      && shortArgs.Valid() && longArgs.Valid()
      && args == Args(shortArgs.Contents, longArgs.Contents)
    }

    /** A handler whose targets have been registered under their names. */
    constructor (shortArgs: TChainHash<string, ArgTarget>, longArgs: TChainHash<string, ArgTarget>,
                 positional: seq<ArgTarget>, passInit: Option<string>)
      requires shortArgs.Valid() && longArgs.Valid()
      ensures Valid() && this.shortArgs == shortArgs && this.longArgs == longArgs && this.passInit == passInit
      ensures args == Args(shortArgs.Contents, longArgs.Contents) && posQueue == positional
      ensures errlist == [] && passed == None && Log == []
    {
      hide TChainHash.Valid;
      this.shortArgs, this.longArgs, this.passInit := shortArgs, longArgs, passInit;
      args := Args(shortArgs.Contents, longArgs.Contents);
      posQueue, errlist, passed, Log := positional, [], None, [];
    }

    /** getTarget: the short name is preferred. */
    method GetTarget(key: string) returns (target: Option<ArgTarget>)
      requires Valid()
      ensures target == Find(args, key)
      ensures target.Some? <==> key != "" && (key in shortArgs.Contents || key in longArgs.Contents)
      ensures target.Some? ==>
                if key in shortArgs.Contents then target == Some(shortArgs.Contents[key])
                else key in longArgs.Contents && target == Some(longArgs.Contents[key])
    {
      hide TChainHash.Valid;
      target := None;
      if |key| > 0 {
        var elem := shortArgs.Get(key);
        if elem == null {
          elem := longArgs.Get(key);
        }
        if elem != null {
          target := Some(elem.data);
        }
      }
    }

    /** All targets. */
    ghost function Known(): set<ArgTarget>
      reads this
    {
      args.shorts.Values + args.longs.Values + set t | t in posQueue
    }

    /** The targets remember whether they have been processed, and those that take one parameter only whether
        they have been given one. */
    ghost predicate Remembered(all: set<ArgTarget>, past: Past)
      reads this`Log, all
    {
      && (forall t | t in all && t.TakesOne() :: t.gotParameter <==> Given(Log, past.given, t))
      && (forall t | t in all :: t.wasProcessed <==> Worked(Log, past.given, past.done, past.Rules(), t))
      && (forall t | t in all :: t.value == ValueAfter(Log, past, t))
    }

    /** The errors are those known before, and those of what has been handed out. */
    ghost predicate Recorded(all: set<ArgTarget>, past: Past, known: seq<Error<ArgTarget>>)
      reads this`Log, this`errlist, all
    {
      Remembered(all, past) && errlist == known + ErrorsOf(Log, past.given, past.Rules())
    }

    /** uncombine: a word whose characters behind the dashes all name targets stands for those targets. */
    method Uncombine(arg: string) returns (allFound: bool, argList: seq<ArgTarget>, dashCount: nat)
      requires Valid()
      ensures dashCount == Dashes(arg)
      ensures allFound <==> forall i | Dashes(arg) <= i < |arg| :: Names(args, arg, i)
      ensures allFound ==>
                && |argList| == |arg| - dashCount
                && forall j | 0 <= j < |argList| ::
                     Find(args, arg[..dashCount] + [arg[dashCount + j]]) == Some(argList[j])
      ensures !allFound ==> argList == []
      ensures !IsDirect(args, arg) ==> argList == TargetsOf(args, arg)
    {
      hide Find, Valid, IsDirect, TargetsOf;
      allFound, argList, dashCount := true, [], 0;
      var dashes := "";
      while dashCount < |arg| && arg[dashCount] == '-'
        invariant dashCount <= |arg| && dashes == arg[..dashCount] && forall j | 0 <= j < dashCount :: arg[j] == '-'
      {
        dashes := dashes + ['-'];
        dashCount := dashCount + 1;
      }
      DashesAre(arg, dashCount);
      var pos := dashCount;
      while allFound && pos < |arg|
        invariant dashCount <= pos <= |arg|
        invariant forall i | dashCount <= i < pos :: Names(args, arg, i)
        invariant allFound ==> |argList| == pos - dashCount
        invariant allFound ==>
                    forall j | 0 <= j < |argList| :: Find(args, dashes + [arg[dashCount + j]]) == Some(argList[j])
        invariant !allFound ==> argList == [] && pos < |arg| && !Names(args, arg, pos)
        decreases |arg| - pos, allFound
      {
        var target := GetTarget(dashes + [arg[pos]]);
        if target.Some? {
          assert Names(args, arg, pos);
          argList := argList + [target.value];
          pos := pos + 1;
        } else {
          allFound := false;
          argList := [];
        }
      }
      IsUncombined(args, arg, argList);
    }

    /** The first step for one word. */
    method Prepare(word: string, argQueue: seq<ArgTarget>, paramQueue: seq<string>)
      returns (argQueue': seq<ArgTarget>, paramQueue': seq<string>)
      requires Valid()
      modifies this`errlist
      ensures argQueue' == argQueue + TargetsOf(args, word)
      ensures paramQueue' == paramQueue + if IsParameter(args, word) then [word] else []
      ensures errlist == old(errlist) + if IsUnknown(args, word) then [ArgumentUnknown(word)] else []
    {
      hide Valid;
      argQueue', paramQueue' := argQueue, paramQueue;
      var target := GetTarget(word);
      if target.Some? {
        argQueue' := argQueue + [target.value];
        return;
      }
      var isUncombined, combQueue, dashCount := Uncombine(word);
      if isUncombined {
        argQueue' := argQueue + combQueue;
        return;
      }
      ExactlyOne(args, word);
      if dashCount == 0 {
        paramQueue' := paramQueue + [word];
        return;
      }
      errlist := errlist + [ArgumentUnknown(word)];
    }

    /** The first step: up to the pass-through marker, every word is an argument, a cluster of arguments, a
        parameter, or an error. */
    method PrepareAll(words: seq<string>) returns (idx: nat, argQueue: seq<ArgTarget>, paramQueue: seq<string>)
      requires Valid() && errlist == []
      modifies this`errlist
      ensures idx == MarkerAt(words, passInit)
      ensures argQueue == Targets(args, words[..idx]) && paramQueue == Parameters(args, words[..idx])
      ensures errlist == Unknown(Unknowns(args, words[..idx]))
    {
      hide IsParameter, IsUnknown, TargetsOf, MarkerAt, Valid;
      idx, argQueue, paramQueue := 0, [], [];
      while idx < |words| && Some(words[idx]) != passInit
        invariant idx <= |words| && forall j | 0 <= j < idx :: Some(words[j]) != passInit
        invariant argQueue == Targets(args, words[..idx]) && paramQueue == Parameters(args, words[..idx])
        invariant errlist == Unknown(Unknowns(args, words[..idx]))
      {
        var next := idx + 1;
        NextWord(args, words, idx, next);
        argQueue, paramQueue := Prepare(words[idx], argQueue, paramQueue);
        idx := next;
      }
      MarkerIs(words, passInit, idx);
    }

    /** The error that comes of handing the parameter to the target as it is. */
    ghost function Trouble(target: ArgTarget, param: Option<string>, throws: bool): seq<Error<ArgTarget>>
      reads target
    {
      if target.NeedsParameter() && param == None then [ParameterMissing(target)]
      else if target.TakesOne() && target.gotParameter then [MultipleSetParam(target, param.value)]
      else if throws then [ProcessingFailed(target)]
      else []
    }

    /** procTarget: hand the parameter to the target, or note an error. */
    method ProcTarget(target: ArgTarget, param: Option<string>, throws: bool)
      modifies this`errlist, target
      ensures errlist == old(errlist) + old(Trouble(target, param, throws))
      ensures target.TakesOne() ==> target.gotParameter == (old(target.gotParameter) || param.Some?)
      ensures target.wasProcessed == (old(target.wasProcessed) || old(Trouble(target, param, throws)) == [])
      ensures target.value
              == if (target.NeedsParameter() && param.None?) || (target.TakesOne() && old(target.gotParameter))
                 then old(target.value) else target.Changed(old(target.value), param)
    {
      if target.NeedsParameter() && param == None {
        errlist := errlist + [ParameterMissing(target)];
        return;
      }
      var outcome := target.Process(param, throws);
      match outcome
      case Fine =>
      case Refused => errlist := errlist + [MultipleSetParam(target, param.value)];
      case Thrown => errlist := errlist + [ProcessingFailed(target)];
    }

    /** The same, with what it means for the run. */
    method Hand(target: ArgTarget, param: Option<string>, throws: bool, ghost all: set<ArgTarget>,
                ghost past: Past, ghost known: seq<Error<ArgTarget>>)
      requires Recorded(all, past, known) && target in all && throws == past.throws(|Log|)
      modifies this`errlist, this`Log, target
      ensures Recorded(all, past, known) && Log == old(Log) + [Delivery(target, param)]
    {
      hide ErrorsOf, Given, Worked, ValueAfter, ArgTarget.Changed;
      forall t
        ensures ValueAfter(Log + [Delivery(target, param)], past, t)
                == if target == t && !(t.NeedsParameter() && param.None?)
                      && !(t.TakesOne() && param.Some? && Given(Log, past.given, t))
                   then t.Changed(ValueAfter(Log, past, t), param)
                   else ValueAfter(Log, past, t)
      {
        NextValue(Log, past, Delivery(target, param), t);
      }
      NextWorked(Log, past.given, past.done, past.Rules(), Delivery(target, param));
      NextDelivery(Log, past.given, past.Rules(), Delivery(target, param));
      assert Trouble(target, param, throws) == ErrorOf(Log, past.given, past.Rules(), Delivery(target, param));
      ProcTarget(target, param, throws);
      Log := Log + [Delivery(target, param)];
    }

    /** The second step: process the arguments in order; those that need a parameter take the first one
        that is left. */
    method ProcessAll(argQueue: seq<ArgTarget>, params: seq<string>, throws: nat -> bool,
                      ghost all: set<ArgTarget>, ghost past: Past, ghost known: seq<Error<ArgTarget>>)
      returns (paramQueue: seq<string>)
      requires Recorded(all, past, known) && Log == [] && throws == past.throws
      requires forall t | t in argQueue :: t in all
      modifies this`errlist, this`Log, all
      ensures Recorded(all, past, known) && Log == DeliveredAll(argQueue, params, NEEDS)
      ensures paramQueue == params[Used(argQueue, params, NEEDS)..]
    {
      hide Recorded;
      paramQueue := params;
      var queue := argQueue;
      var i := 0;
      while |queue| > 0
        invariant i <= |argQueue| && queue == argQueue[i..]
        invariant Recorded(all, past, known) && Log == DeliveredAll(argQueue[..i], params, NEEDS)
        invariant paramQueue == params[Used(argQueue[..i], params, NEEDS)..]
        decreases |queue|
      {
        var target := queue[0];
        queue := queue[1..];
        NextTarget(argQueue, params, NEEDS, i, i + 1);
        DeliveredNext(argQueue, params, NEEDS, i, i + 1);
        var param: Option<string> := None;
        if target.NeedsParameter() && |paramQueue| > 0 {
          param := Some(paramQueue[0]);
          paramQueue := paramQueue[1..];
        }
        Hand(target, param, throws(i), all, past, known);
        i := i + 1;
      }
      assert argQueue[..i] == argQueue;
    }

    /** The third step: what is left over goes to the positional targets, each of which is put to the end
        of its queue; without any it is an error. */
    method ServeAll(left: seq<string>, processed: nat, throws: nat -> bool, ghost all: set<ArgTarget>,
                    ghost past: Past, ghost known: seq<Error<ArgTarget>>)
      requires Recorded(all, past, known) && processed == |Log| && throws == past.throws
      requires forall t | t in posQueue :: t in all
      modifies this`posQueue, this`errlist, this`Log, all
      ensures Remembered(all, past) && Log == old(Log) + Positional(left, old(posQueue))
      ensures errlist == known + ErrorsOf(Log, past.given, past.Rules()) + LeftUnknown(left, old(posQueue))
      ensures posQueue == Rotated(old(posQueue), |left|)
    {
      hide Positional, LeftUnknown, ErrorsOf, Rotated, Remembered;
      var queue := left;
      var i := 0;
      ghost var q := posQueue;
      NothingServed(q);
      while |queue| > 0
        invariant i <= |left| && queue == left[i..]
        invariant Remembered(all, past) && Log == old(Log) + Positional(left[..i], q)
        invariant errlist == known + ErrorsOf(Log, past.given, past.Rules()) + LeftUnknown(left[..i], q)
        invariant posQueue == Rotated(q, i)
        decreases |queue|
      {
        var param := queue[0];
        queue := queue[1..];
        ghost var k := i + 1;
        PositionalNext(left, q, i, k);
        if |posQueue| > 0 {
          Serve(param, throws(processed + i), all, past, known, q, i, k);
        } else {
          errlist := errlist + [ArgumentUnknown(param)];
        }
        i := i + 1;
      }
      assert left[..i] == left;
    }

    /** The first positional target gets the parameter. */
    method Serve(param: string, throws: bool, ghost all: set<ArgTarget>, ghost past: Past,
                 ghost known: seq<Error<ArgTarget>>,
                 ghost q: seq<ArgTarget>, ghost i: nat, ghost k: nat)
      requires throws == past.throws(|Log|)
      requires Recorded(all, past, known) && |q| > 0 && posQueue == Rotated(q, i) && k == i + 1
               && forall t | t in q :: t in all
      modifies this`posQueue, this`errlist, this`Log, all
      ensures Recorded(all, past, known) && Log == old(Log) + [Delivery(q[i % |q|], Some(param))]
      ensures posQueue == Rotated(q, k)
    {
      hide Rotated, ErrorsOf;
      RotatedNext(q, i, k);
      var target := posQueue[0];
      posQueue := posQueue[1..];
      Hand(target, Some(param), throws, all, past, known);
      posQueue := posQueue + [target];
    }

    /** What is left over for the positional targets. */
    ghost function Left(words: seq<string>): seq<string> {
      var ps := Parameters(args, words);
      ps[Used(Targets(args, words), ps, NEEDS)..]
    }

    /** What the words hand to the targets. */
    ghost function Handed(words: seq<string>, q: seq<ArgTarget>): seq<Delivery<ArgTarget>> {
      DeliveredAll(Targets(args, words), Parameters(args, words), NEEDS) + Positional(Left(words), q)
    }

    /** All errors of the words. */
    ghost function ErrorsIn(words: seq<string>, q: seq<ArgTarget>, past: Past): seq<Error<ArgTarget>> {
      Unknown(Unknowns(args, words)) + ErrorsOf(Handed(words, q), past.given, past.Rules())
      + LeftUnknown(Left(words), q)
    }

    /** The words lead to no error exactly if none is unknown, the arguments that need a parameter get one,
        what is left over has a positional target to go to, no target that takes one parameter only is given a
        second one, and no processing throws. */
    lemma ErrorFreeIff(words: seq<string>, q: seq<ArgTarget>, past: Past)
      ensures var ts, ps, ds := Targets(args, words), Parameters(args, words), Handed(words, q);
              ErrorsIn(words, q, past) == [] <==>
                && Unknowns(args, words) == []
                && Needing(ts, NEEDS) <= |ps| && (Needing(ts, NEEDS) < |ps| ==> |q| > 0)
                && forall i | 0 <= i < |ds| :: !Repeats(ds, past.given, TAKES_ONE, i) && !past.throws(i)
    {
      hide Unknowns, Targets, Parameters, ErrorsOf, Repeats, Positional, DeliveredAll, Needing;
      NothingFailsIff(Targets(args, words), Parameters(args, words), Left(words), q, past.given, past.Rules());
    }

    /** A cluster hands out what its parts hand out as words of their own, and leads to the same errors. */
    lemma ClusterHandsOutParts(ws: seq<string>, d: string, s: string, t: string, vs: seq<string>, q: seq<ArgTarget>,
                               past: Past)
      requires AllDashes(d) && Plain(s) && Plain(t) && IsCluster(args, d + s + t)
      requires (|s| > 1 ==> !IsDirect(args, d + s)) && (|t| > 1 ==> !IsDirect(args, d + t))
      ensures var whole, parts := ws + [d + s + t] + vs, ws + [d + s, d + t] + vs;
              Handed(whole, q) == Handed(parts, q) && ErrorsIn(whole, q, past) == ErrorsIn(parts, q, past)
    {
      hide IsCluster, IsDirect, Targets, Parameters, Unknowns;
      ClusterAsParts(args, ws, d, s, t, vs);
    }

    /** The targets processed once the words are handed out. */
    ghost function Present(words: seq<string>, q: seq<ArgTarget>, all: set<ArgTarget>, past: Past): set<ArgTarget> {
      set t | t in all && Worked(Handed(words, q), past.given, past.done, past.Rules(), t)
    }

    /** The errors of the fourth step: for the mandatory targets met on the walk over the short names, then for
        those without a short name met on the walk over the long ones. */
    ghost function MissingIn(present: set<ArgTarget>): seq<Error<ArgTarget>>
      requires Valid()
      reads shortArgs, shortArgs.hashTable, shortArgs.Elements, longArgs, longArgs.hashTable, longArgs.Elements
    {
      shortArgs.ItsBuckets();
      longArgs.ItsBuckets();
      Missing(Met(shortArgs.Chains, |args.shorts|), MANDATORY, present)
      + Missing(Met(longArgs.Chains, |args.longs|), LONG_MANDATORY, present)
    }

    /** A mandatory target that the fourth step meets: the bucket of its name lies below the number of names.
        Positional targets have no name at all. */
    ghost predicate Demanded(t: ArgTarget)
      reads shortArgs, longArgs
    {
      && t.IsMandatory()
      && (NamedBelow(args.shorts, shortArgs.Index, t) || (!t.hasShort && NamedBelow(args.longs, longArgs.Index, t)))
    }

    /** The fourth step notes nothing exactly if all mandatory targets it meets have been processed. */
    lemma NothingMissingIff(present: set<ArgTarget>)
      requires Valid()
      ensures MissingIn(present) == [] <==> forall t | Demanded(t) :: t in present
    {
      hide TChainHash.Valid, Missing, Met;
      shortArgs.ItsBuckets();
      longArgs.ItsBuckets();
      NoneNotedIff(shortArgs.Chains, shortArgs.Index, args.shorts, MANDATORY, present);
      NoneNotedIff(longArgs.Chains, longArgs.Index, args.longs, LONG_MANDATORY, present);
    }

    /** A run leads to no error exactly if the words lead to none, and every mandatory target that the fourth
        step meets is handed something, or has been processed in an earlier run. */
    lemma RunErrorFreeIff(words: seq<string>, q: seq<ArgTarget>, all: set<ArgTarget>, past: Past)
      requires Valid() && args.shorts.Values + args.longs.Values <= all
      ensures var ds := Handed(words, q);
              ErrorsIn(words, q, past) + MissingIn(Present(words, q, all, past)) == [] <==>
                && ErrorsIn(words, q, past) == []
                && forall t | Demanded(t) :: t in past.done || exists i :: 0 <= i < |ds| && ds[i].target == t
    {
      hide Unknowns, Targets, Parameters, Handed, Left, ErrorsOf, Given, Valid, MissingIn, NamedBelow;
      var ds, present := Handed(words, q), Present(words, q, all, past);
      NothingMissingIff(present);
      DemandedIsNamed();
      if ErrorsIn(words, q, past) == [] {
        NoErrorsOfIff(ds, past.given, past.Rules());
        forall t
          ensures Worked(ds, past.given, past.done, past.Rules(), t) <==>
                    t in past.done || exists i :: 0 <= i < |ds| && ds[i].target == t
        {
        }
      }
    }

    lemma DemandedIsNamed()
      ensures forall t | Demanded(t) :: t in args.shorts.Values + args.longs.Values
    {
    }

    /** With at least as many names as buckets a table passes over none of its mandatory targets. */
    lemma EnoughDemanded(t: ArgTarget)
      requires Valid() && t.IsMandatory()
      requires || (t in args.shorts.Values && |args.shorts| >= shortArgs.hashSize)
               || (!t.hasShort && t in args.longs.Values && |args.longs| >= longArgs.hashSize)
      ensures Demanded(t)
    {
      hide TChainHash.Valid, NamedBelow;
      shortArgs.ItsBuckets();
      longArgs.ItsBuckets();
      if t in args.shorts.Values && |args.shorts| >= shortArgs.hashSize {
        EnoughNames(shortArgs.Chains, shortArgs.Index, args.shorts, t);
      } else {
        EnoughNames(longArgs.Chains, longArgs.Index, args.longs, t);
      }
    }

    /** The three steps. */
    method Match(words: seq<string>, throws: nat -> bool, ghost all: set<ArgTarget>, ghost past: Past)
      returns (idx: nat)
      requires throws == past.throws
      requires Valid() && errlist == [] && Log == [] && all == Known() && Remembered(all, past)
      modifies this`posQueue, this`errlist, this`Log, all
      ensures Valid() && Remembered(all, past)
      ensures idx == MarkerAt(words, passInit) && Log == Handed(words[..idx], old(posQueue))
      ensures errlist == ErrorsIn(words[..idx], old(posQueue), past)
      ensures posQueue == Rotated(old(posQueue), |Left(words[..idx])|)
    {
      hide Targets, Parameters, Unknowns, MarkerAt, ErrorsOf, DeliveredAll, Positional, LeftUnknown, Rotated, Used;
      hide Valid;
      var argQueue, paramQueue, left;
      idx, argQueue, paramQueue := PrepareAll(words);
      ghost var known := errlist;
      TargetsAreKnown(words[..idx]);
      NothingHandedYet(past);
      left := ProcessAll(argQueue, paramQueue, throws, all, past, known);
      ServeAll(left, |argQueue|, throws, all, past, known);
    }

    lemma NothingHandedYet(past: Past)
      ensures ErrorsOf<ArgTarget>([], past.given, past.Rules()) == []
    {
    }

    lemma {:induction false} TargetsAreKnown(words: seq<string>)
      ensures forall t | t in Targets(args, words) :: t in args.shorts.Values + args.longs.Values
    {
      if |words| > 0 {
        var w := words[|words| - 1];
        TargetsAreKnown(words[..|words| - 1]);
        forall t | t in TargetsOf(args, w)
          ensures t in args.shorts.Values + args.longs.Values
        {
          WordTargetIsKnown(w, t);
        }
      }
    }

    lemma FoundIsKnown(w: string)
      ensures Find(args, w).Some? ==> Find(args, w).value in args.shorts.Values + args.longs.Values
    {
    }

    lemma WordTargetIsKnown(w: string, t: ArgTarget)
      requires t in TargetsOf(args, w)
      ensures t in args.shorts.Values + args.longs.Values
    {
      if IsDirect(args, w) {
        FoundIsKnown(w);
      } else if IsCluster(args, w) {
        var j :| 0 <= j < |TargetsOf(args, w)| && TargetsOf(args, w)[j] == t;
        assert Names(args, w, Dashes(w) + j);
        FoundIsKnown(w[..Dashes(w)] + [w[Dashes(w) + j]]);
      }
    }

    ghost function PastOf(throws: nat -> bool): Past
      reads this, Known()
    {
      Past(set t | t in Known() && t.gotParameter, (set t | t in Known() && t.wasProcessed),
           map t | t in Known() :: t.value, throws)
    }

    /** The demands of the two walks. */
    static function Demands(shortsToo: bool): ArgTarget -> bool {
      if shortsToo then MANDATORY else LONG_MANDATORY
    }

    /** The inner loop of the fourth step, along a bucket. */
    method CheckBucket(table: TChainHash<string, ArgTarget>, i: nat, shortsToo: bool, ghost present: set<ArgTarget>)
      requires table.Valid() && table.hashSize > 0 && |table.Chains| == table.hashSize
      requires forall t | t in table.Contents.Values :: t.wasProcessed <==> t in present
      modifies this`errlist
      ensures errlist == old(errlist)
              + Missing(DataIn(table.Chains[i % table.hashSize]), Demands(shortsToo), present)
    {
      hide TChainHash.Valid, Missing;
      ghost var r := i % table.hashSize;
      ghost var c, j := table.Chains[r], 0;
      var elem := table.GetByIndex(i);
      NothingMet(Demands(shortsToo), present);
      while elem != null
        invariant j <= |c| && elem == if j < |c| then c[j] else null
        invariant errlist == old(errlist) + Missing(DataIn(c[..j]), Demands(shortsToo), present)
        decreases |c| - j
      {
        table.ChainNext(r, j);
        var next := elem.next;
        var target := elem.data;
        MissingNext(DataIn(c[..j]), target, Demands(shortsToo), present);
        assert DataIn(c[..j + 1]) == DataIn(c[..j]) + [target];
        if (shortsToo || !target.hasShort) && target.IsMandatory() && !target.wasProcessed {
          errlist := errlist + [MandatoryMissing(target)];
        }
        elem := next;
        j := j + 1;
      }
      assert c[..j] == c;
    }

    lemma NothingMet(demanded: ArgTarget -> bool, present: set<ArgTarget>)
      ensures Missing([], demanded, present) == [] && DataIn<ArgTarget>([]) == []
    {
    }

    /** The outer loop: through as many indices as there are names. */
    method CheckTable(table: TChainHash<string, ArgTarget>, shortsToo: bool, ghost present: set<ArgTarget>)
      requires table.Valid() && |table.Chains| > 0
      requires forall t | t in table.Contents.Values :: t.wasProcessed <==> t in present
      modifies this`errlist
      ensures errlist == old(errlist) + Missing(Met(table.Chains, |table.Contents|), Demands(shortsToo), present)
    {
      hide TChainHash.Valid, Missing, Met, Demands;
      table.ItsBuckets();
      var names := table.Size();
      var i := 0;
      NothingMet(Demands(shortsToo), present);
      MetNext(table.Chains, 0, 1);
      while i < names
        invariant i <= names
        invariant errlist == old(errlist) + Missing(Met(table.Chains, i), Demands(shortsToo), present)
      {
        MissingJoins(Met(table.Chains, i), DataIn(table.Chains[i % table.hashSize]), Demands(shortsToo), present);
        MetNext(table.Chains, i, i + 1);
        CheckBucket(table, i, shortsToo, present);
        i := i + 1;
      }
    }

    /** The fourth step. */
    method CheckMandatory(ghost present: set<ArgTarget>)
      requires Valid() && forall t | t in args.shorts.Values + args.longs.Values :: t.wasProcessed <==> t in present
      modifies this`errlist
      ensures errlist == old(errlist) + MissingIn(present)
    {
      hide TChainHash.Valid, Missing, Met;
      shortArgs.ItsBuckets();
      longArgs.ItsBuckets();
      CheckTable(shortArgs, true, present);
      CheckTable(longArgs, false, present);
    }

    /** parseArgs. At which of the targets that are processed an exception comes is for the callbacks to say. */
    method ParseArgs(argv: seq<string>, throws: nat -> bool) returns (errors: nat)
      requires Valid()
      modifies this, Known()
      ensures Valid() && errors == |errlist|
      ensures |argv| <= 1 ==> errlist == [] && passed == old(passed) && Log == [] && posQueue == old(posQueue)
      ensures |argv| > 1 ==>
                var words := argv[1..];
                var n := MarkerAt(words, passInit);
                var present := Present(words[..n], old(posQueue), old(Known()), old(PastOf(throws)));
                && Log == Handed(words[..n], old(posQueue)) && Remembered(old(Known()), old(PastOf(throws)))
                && errlist == ErrorsIn(words[..n], old(posQueue), old(PastOf(throws))) + MissingIn(present)
                && posQueue == Rotated(old(posQueue), |Left(words[..n])|)
                && passed == if errlist == [] && n + 1 < |words| then Some(words[n + 1..]) else old(passed)
    {
      hide MarkerAt, Handed, ErrorsIn, Left, Rotated, MissingIn, Worked, Given, Valid, ValueAfter, Remembered, Present;
      ghost var past, all, q := PastOf(throws), Known(), posQueue;
      errlist, Log := [], [];
      if |argv| <= 1 {
        return 0;
      }
      var words := argv[1..];
      AtTheStart(all, past);
      var idx := Match(words, throws, all, past);
      PresentAre(words[..idx], q, all, past);
      CheckMandatory(Present(words[..idx], q, all, past));
      if |errlist| == 0 && idx + 1 < |words| {
        passed := Some(words[idx + 1..]);
      }
      errors := |errlist|;
    }

    lemma PresentAre(words: seq<string>, q: seq<ArgTarget>, all: set<ArgTarget>, past: Past)
      requires Remembered(all, past) && Log == Handed(words, q) && args.shorts.Values + args.longs.Values <= all
      ensures forall t | t in args.shorts.Values + args.longs.Values ::
                t.wasProcessed <==> t in Present(words, q, all, past)
    {
      hide Handed;
    }

    lemma AtTheStart(all: set<ArgTarget>, past: Past)
      requires Log == [] && all == Known() && past == PastOf(past.throws)
      ensures Remembered(all, past)
    {
    }

    // ---- resetTargets makes the same walk

    /** A target of which some state is kept. */
    twostate predicate Untouched(t: ArgTarget)
      reads t
    {
      t.gotParameter == old(t.gotParameter) && t.wasProcessed == old(t.wasProcessed)
    }

    static predicate IsReset(t: ArgTarget)
      reads t
    {
      !t.gotParameter && !t.wasProcessed
    }

    /** The walk over one table: exactly the targets it meets are reset. */
    method ResetTable(table: TChainHash<string, ArgTarget>)
      requires table.Valid()
      modifies table.Contents.Values
      ensures forall t | t in table.Contents.Values ::
                if NamedBelow(table.Contents, table.Index, t) then IsReset(t) else Untouched(t)
      ensures forall t | t in table.Contents.Values :: t.value == old(t.value)
    {
      hide TChainHash.Valid, Met, NamedBelow;
      table.ItsBuckets();
      var names := table.Size();
      var i := 0;
      MetNext(table.Chains, 0, 1);
      while i < names
        invariant i <= names
        invariant forall t | t in table.Contents.Values ::
                    if t in Met(table.Chains, i) then IsReset(t) else Untouched(t)
        invariant forall t | t in table.Contents.Values :: t.value == old(t.value)
      {
        MetNext(table.Chains, i, i + 1);
        ResetBucket(table, i);
        i := i + 1;
      }
      forall t | t in table.Contents.Values
        ensures t in Met(table.Chains, i) <==> NamedBelow(table.Contents, table.Index, t)
      {
        MetIff(table.Chains, table.Index, table.Contents, t);
      }
    }

    method ResetBucket(table: TChainHash<string, ArgTarget>, i: nat)
      requires table.Valid() && table.hashSize > 0 && |table.Chains| == table.hashSize
      modifies table.Contents.Values
      ensures var ts := DataIn(table.Chains[i % table.hashSize]);
              forall t | t in table.Contents.Values :: if t in ts then IsReset(t) else Untouched(t)
      ensures forall t | t in table.Contents.Values :: t.value == old(t.value)
    {
      hide TChainHash.Valid;
      ghost var r := i % table.hashSize;
      ghost var c, j := table.Chains[r], 0;
      var elem := table.GetByIndex(i);
      while elem != null
        invariant j <= |c| && elem == if j < |c| then c[j] else null
        invariant forall t | t in table.Contents.Values :: if t in DataIn(c[..j]) then IsReset(t) else Untouched(t)
        invariant forall t | t in table.Contents.Values :: t.value == old(t.value)
        decreases |c| - j
      {
        table.ChainNext(r, j);
        assert DataIn(c[..j + 1]) == DataIn(c[..j]) + [elem.data];
        var target := elem.data;
        elem := elem.next;
        target.Reset();
        j := j + 1;
      }
      assert c[..j] == c;
    }

    /** resetTargets comes to the target: it is positional, or it has a name in a bucket below the number of
        names. */
    ghost predicate IsVisited(t: ArgTarget)
      reads this, shortArgs, longArgs
    {
      || t in posQueue
      || NamedBelow(args.shorts, shortArgs.Index, t)
      || NamedBelow(args.longs, longArgs.Index, t)
    }

    /** resetTargets resets the targets it comes to, and no others. */
    method ResetTargets(ghost all: set<ArgTarget>)
      requires Valid() && all == Known()
      modifies all
      ensures forall t | t in all :: if IsVisited(t) then IsReset(t) else Untouched(t)
      ensures forall t | t in all :: t.value == old(t.value)
    {
      hide TChainHash.Valid, NamedBelow;
      NamedAreThere();
      ResetTable(shortArgs);
      ResetTable(longArgs);
      ResetPositional();
    }

    method ResetPositional()
      modifies set t | t in posQueue
      ensures forall t | t in posQueue :: IsReset(t) && t.value == old(t.value)
    {
      var i := 0;
      while i < |posQueue|
        invariant i <= |posQueue|
        invariant forall k | 0 <= k < i :: IsReset(posQueue[k])
        invariant forall t | t in posQueue :: t.value == old(t.value)
      {
        posQueue[i].Reset();
        i := i + 1;
      }
    }

    lemma NamedAreThere()
      ensures forall t | NamedBelow(args.shorts, shortArgs.Index, t) :: t in args.shorts.Values
      ensures forall t | NamedBelow(args.longs, longArgs.Index, t) :: t in args.longs.Values
    {
    }
  }

  lemma {:induction false} DashesAre(w: string, n: nat)
    requires n <= |w| && (forall i | 0 <= i < n :: w[i] == '-') && (n < |w| ==> w[n] != '-')
    ensures Dashes(w) == n
  {
    if n > 0 {
      DashesAre(w[1..], n - 1);
    }
  }

  // ---- A mandatory argument that is not missed

  /** All names in the same bucket, which is not the first one. */
  const HASH_ONE: string -> Word := name => 1

  function OneName(target: ArgTarget): Args<ArgTarget> {
    var shorts: map<string, ArgTarget> := map["-m" := target];
    Args(shorts, map[])
  }

  lemma NotInTheFirst(how: HashMethod)
    ensures IndexOf(1, 37, how) >= 1
  {
  }

  /** The empty word stands for nothing. */
  lemma EmptyWord<T>(args: Args<T>)
    ensures Targets(args, [""]) == [] && Parameters(args, [""]) == [] && Unknowns(args, [""]) == []
  {
    assert [""][..0] == [];
    assert Find(args, "") == None;
  }

  /** A table of the size that the library gives it, with one name, or without any. */
  method TableOf(names: map<string, ArgTarget>, target: ArgTarget) returns (table: TChainHash<string, ArgTarget>)
    requires names == map[] || names == OneName(target).shorts
    ensures fresh(table) && fresh(table.hashTable) && fresh(table.Elements) && table.Valid()
    ensures table.Contents == names && table.hash == HASH_ONE && table.hashSize == 37
  {
    hide TChainHash.Valid, IndexOf;
    table := new TChainHash<string, ArgTarget>(HASH_ONE, 37, 4.0, 1.733);
    if names != map[] {
      assert table.CanHold(1);
      var _ := table.Add("-m", target);
    }
  }

  /** A handler with one mandatory argument. A command line without this argument leads to no error. */
  method MissedArgument() returns (handler: CArgHandler, target: ArgTarget, errors: nat)
    ensures fresh(handler) && handler.Valid() && handler.args == OneName(target)
    ensures target.IsMandatory() && errors == 0 && handler.errlist == []
    ensures handler.Log == []
  {
    hide TChainHash.Valid, CArgHandler.Valid, IndexOf, MarkerAt, Matching.Rotated;
    hide CArgHandler.Handed, CArgHandler.ErrorsIn, CArgHandler.MissingIn, CArgHandler.Left, CArgHandler.Present;
    target := new ArgTarget(Set, ExactlyOnce, "x", true, false, w => |w|, 0);
    var shorts := TableOf(OneName(target).shorts, target);
    var longs := TableOf(map[], target);
    handler := new CArgHandler(shorts, longs, [], None);
    NothingSaid(handler, target);
    errors := handler.ParseArgs(["prog", ""], n => false);
    NothingSaid(handler, target);
    assert ["prog", ""][1..] == [""] && [""][..1] == [""];
  }

  /** Nothing is handed out, and the target is not met. */
  lemma NothingSaid(handler: CArgHandler, target: ArgTarget)
    requires handler.Valid() && handler.args == OneName(target)
    requires handler.shortArgs.hash == HASH_ONE && handler.shortArgs.hashSize == 37
    ensures MarkerAt([""], None) == 1 && handler.Handed([""], []) == []
    ensures forall past :: handler.ErrorsIn([""], [], past) == []
    ensures forall present :: handler.MissingIn(present) == []
  {
    hide TChainHash.Valid, IndexOf;
    EmptyWord(handler.args);
    handler.shortArgs.ItsBuckets();
    NotInTheFirst(handler.shortArgs.chMethod);
    forall present
      ensures handler.MissingIn(present) == []
    {
      handler.NothingMissingIff(present);
    }
  }
}
