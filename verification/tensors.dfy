/** `Tensor`: the steps of one tensor, by mode, and the queries over them.
    The trial the tensor belongs to is given as a `Trial` value: `refresh`
    is what `maybe_refresh` does to this tensor (it loads newly indexed
    steps through the `add_*` methods), and the other fields are the
    trial's answers after that refresh. */
module Tensors {
  import opened Results
  import opened SortedSeqs
  import opened Locations
  import opened Steps

  datatype Tensor = Tensor(name: string, cache: bool, modeSteps: map<Mode, ModeSteps>)

  /** `StepState`. */
  datatype StepState = Unavailable | Available | NotYetAvailable

  datatype Trial = Trial(
    refresh: Tensor -> Tensor,
    hasPassedStep: (int, Mode) -> StepState,
    loadedAllSteps: bool,
    availableSteps: Mode -> seq<int>,
    modeModestep: int -> (Mode, int),
    globalStep: (Mode, int) -> int)

  /** The exceptions the queries raise. `NoStepsForMode` is the `TypeError`
      `bisect` raises when `steps` returns `None`; `FetchWithoutLocation`
      is the fetch with no location described at `StepReduction`. */
  datatype TensorError =
    | StepUnavailable(step: int, mode: Mode)
    | StepNotYetAvailable(step: int, mode: Mode)
    | NoMoreData(step: int, mode: Mode, lastStep: int)
    | TensorUnavailableForStep(tensor: string, step: int, mode: Mode, hasReductions: Option<bool>)
    | NegativeModeStep(modeStep: int)
    | NoStepsForMode(mode: Mode)
    | FetchWithoutLocation

  /** Every mode's steps cache as the tensor does and are stored under their
      own mode and step number. */
  ghost predicate CacheConsistent(t: Tensor) {
    forall m :: m in t.modeSteps ==> t.modeSteps[m].mode == m && CachesAs(t.modeSteps[m], t.cache)
  }

  /** `_create_mode_step`: a negative mode step is a `ValueError`; otherwise
      the mode gets an empty `ModeSteps` unless it has one. */
  function CreateModeStep(t: Tensor, mode: Mode, modeStep: int): (r: Result<Tensor, TensorError>)
    ensures modeStep < 0 <==> r.Err?
    ensures r.Err? ==> r.error == NegativeModeStep(modeStep)
    ensures r.Ok? ==> && mode in r.value.modeSteps
                      && r.value.modeSteps.Keys == t.modeSteps.Keys + {mode}
                      && (forall m :: m in t.modeSteps ==> r.value.modeSteps[m] == t.modeSteps[m])
                      && r.value.name == t.name && r.value.cache == t.cache
    ensures r.Ok? && mode !in t.modeSteps ==> r.value.modeSteps[mode] == ModeSteps(mode, t.cache, map[])
  {
    if modeStep < 0 then Err(NegativeModeStep(modeStep))
    else if mode in t.modeSteps then Ok(t)
    else Ok(t.(modeSteps := t.modeSteps[mode := ModeSteps(mode, t.cache, map[])]))
  }

  /** The four `add_*` methods: create the mode's steps if needed, then apply
      one setter to them. */
  datatype Addition =
    | AddValue(value: Option<Value>)
    | AddReductionValue(key: RedKey, redValue: Value)
    | AddLocation(loc: TensorLocation)
    | AddReductionLocation(key: RedKey, redLoc: TensorLocation)

  function Apply(ms: ModeSteps, k: int, a: Addition): (r: ModeSteps)
    ensures OnlyStepChanged(ms, r, k)
  {
    match a
    case AddValue(v) => SetStepValue(ms, k, v)
    case AddReductionValue(key, v) => SetStepReductionValue(ms, k, key, v)
    case AddLocation(loc) => SetStepLocation(ms, k, loc)
    case AddReductionLocation(key, loc) => SetStepReductionLocation(ms, k, key, loc)
  }

  /** `add_step`, `add_reduction_step`, `add_step_lazy` and
      `add_reduction_step_lazy`. */
  function Add(t: Tensor, mode: Mode, modeStep: int, a: Addition): (r: Result<Tensor, TensorError>)
    ensures modeStep < 0 <==> r.Err?
    ensures r.Err? ==> r.error == NegativeModeStep(modeStep)
  {
    var c :- CreateModeStep(t, mode, modeStep);
    Ok(c.(modeSteps := c.modeSteps[mode := Apply(c.modeSteps[mode], modeStep, a)]))
  }

  /** A successful addition keeps every mode (adding `mode` if needed), and
      within `mode` changes only step `modeStep`, which it creates if
      absent; every other mode is unchanged. */
  lemma AddChangesOneStep(t: Tensor, mode: Mode, modeStep: int, a: Addition)
    requires modeStep >= 0
    ensures var r := Add(t, mode, modeStep, a).value;
            && r.modeSteps.Keys == t.modeSteps.Keys + {mode}
            && (forall m :: m in t.modeSteps && m != mode ==> r.modeSteps[m] == t.modeSteps[m])
            && OnlyStepChanged(if mode in t.modeSteps then t.modeSteps[mode] else ModeSteps(mode, t.cache, map[]), r.modeSteps[mode], modeStep)
            && r.name == t.name && r.cache == t.cache
  {
  }

  lemma ApplyKeepsCache(ms: ModeSteps, k: int, a: Addition)
    requires CachesAs(ms, ms.cache)
    ensures CachesAs(Apply(ms, k, a), ms.cache) && Apply(ms, k, a).mode == ms.mode
  {
    match a
    case AddValue(v) => SettersKeepCache(ms, k, v, RedKey([], false), [], TensorLocation([], [], 0, 0));
    case AddReductionValue(key, v) => SettersKeepCache(ms, k, None, key, v, TensorLocation([], [], 0, 0));
    case AddLocation(loc) => SettersKeepCache(ms, k, None, RedKey([], false), [], loc);
    case AddReductionLocation(key, loc) => SettersKeepCache(ms, k, None, key, [], loc);
  }

  /** Additions keep every step caching as the tensor does. */
  lemma AddKeepsCacheConsistent(t: Tensor, mode: Mode, modeStep: int, a: Addition)
    requires CacheConsistent(t)
    ensures Add(t, mode, modeStep, a).Ok? ==> CacheConsistent(Add(t, mode, modeStep, a).value)
  {
    if modeStep >= 0 {
      var c := CreateModeStep(t, mode, modeStep).value;
      assert CacheConsistent(c);
      ApplyKeepsCache(c.modeSteps[mode], modeStep, a);
    }
  }

  /** The order modes are visited in when gathering global steps; the order
      does not matter once the result is sorted. */
  const AllModes: seq<Mode> := [Train, Eval, Predict, Global]

  lemma AllModesComplete(m: Mode)
    ensures m in AllModes
  {
  }

  /** `global_step(mode, s)` for each step `s` of `ms`, in step order. */
  function GlobalsOf(gs: (Mode, int) -> int, m: Mode, steps: seq<int>): (r: seq<int>)
    ensures |r| == |steps|
    ensures forall i :: 0 <= i < |r| ==> r[i] == gs(m, steps[i])
  {
    if steps == [] then [] else [gs(m, steps[0])] + GlobalsOf(gs, m, steps[1..])
  }

  /** The global step of every stored (mode, step) pair, mode by mode. */
  function Gather(t: Tensor, modes: seq<Mode>, gs: (Mode, int) -> int): seq<int> {
    if modes == [] then []
    else
      (if modes[0] in t.modeSteps then GlobalsOf(gs, modes[0], StepNums(t.modeSteps[modes[0]])) else []) +
      Gather(t, modes[1..], gs)
  }

  /** `_global_steps`: the global steps of all stored steps, sorted. */
  function GlobalSteps(t: Tensor, gs: (Mode, int) -> int): (r: seq<int>)
    ensures NonDecreasing(r)
    ensures multiset(r) == multiset(Gather(t, AllModes, gs))
  {
    Sort(Gather(t, AllModes, gs))
  }

  /** How many (mode, step) pairs the modes in `modes` store. */
  function PairCount(t: Tensor, modes: seq<Mode>): nat {
    if modes == [] then 0
    else (if modes[0] in t.modeSteps then |t.modeSteps[modes[0]].steps| else 0) + PairCount(t, modes[1..])
  }

  /** A global step is gathered exactly when it is the global step of some
      stored pair of one of the modes visited. */
  lemma {:induction false} GatherIff(t: Tensor, modes: seq<Mode>, gs: (Mode, int) -> int, x: int)
    ensures |Gather(t, modes, gs)| == PairCount(t, modes)
    ensures x in Gather(t, modes, gs) <==>
              exists m, s :: m in modes && m in t.modeSteps && s in t.modeSteps[m].steps && x == gs(m, s)
    decreases |modes|
  {
    if modes != [] {
      GatherIff(t, modes[1..], gs, x);
      var m0 := modes[0];
      if m0 in t.modeSteps {
        var ns := StepNums(t.modeSteps[m0]);
        var head := GlobalsOf(gs, m0, ns);
        if x in head {
          var i :| 0 <= i < |head| && head[i] == x;
          assert ns[i] in t.modeSteps[m0].steps;
        }
        if exists s :: s in t.modeSteps[m0].steps && x == gs(m0, s) {
          var s :| s in t.modeSteps[m0].steps && x == gs(m0, s);
          var i :| 0 <= i < |ns| && ns[i] == s;
          assert head[i] == x;
        }
      }
      forall m, s | m in modes && m in t.modeSteps && s in t.modeSteps[m].steps && x == gs(m, s)
        ensures m == m0 || m in modes[1..]
      {
        var i :| 0 <= i < |modes| && modes[i] == m;
        if i > 0 {
          assert modes[1..][i - 1] == m;
        }
      }
    }
  }

  /** `_global_steps` has one entry per stored (mode, step) pair: as many
      entries as pairs, and exactly the global steps of those pairs. */
  lemma GlobalStepsPairs(t: Tensor, gs: (Mode, int) -> int, x: int)
    ensures |GlobalSteps(t, gs)| == PairCount(t, AllModes)
    ensures x in GlobalSteps(t, gs) <==>
              exists m, s :: m in t.modeSteps && s in t.modeSteps[m].steps && x == gs(m, s)
  {
    var g := Gather(t, AllModes, gs);
    var r := GlobalSteps(t, gs);
    GatherIff(t, AllModes, gs, x);
    assert |r| == |multiset(r)| == |multiset(g)| == |g|;
    assert x in r <==> x in multiset(r);
    assert x in g <==> x in multiset(g);
    forall m, s | m in t.modeSteps && s in t.modeSteps[m].steps && x == gs(m, s)
      ensures m in AllModes
    {
      AllModesComplete(m);
    }
  }

  datatype Listed = Listed(steps: Option<seq<int>>, tensor: Tensor)

  /** `Tensor.steps(mode)`: refreshes, then lists the global steps, or the
      steps of `mode`, or `None` for a mode with no steps. */
  function TensorSteps(t: Tensor, trial: Trial, mode: Mode): (r: Listed)
    ensures r.tensor == trial.refresh(t)
    ensures mode != Global ==> (r.steps.Some? <==> mode in r.tensor.modeSteps)
    ensures mode != Global && r.steps.Some? ==> r.steps.value == StepNums(r.tensor.modeSteps[mode])
    ensures mode == Global ==> r.steps == Some(GlobalSteps(r.tensor, trial.globalStep))
    ensures r.steps.Some? ==> NonDecreasing(r.steps.value)
  {
    var t' := trial.refresh(t);
    if mode == Global then Listed(Some(GlobalSteps(t', trial.globalStep)), t')
    else if mode in t'.modeSteps then Listed(Some(StepNums(t'.modeSteps[mode])), t')
    else Listed(None, t')
  }

  /** Where a step is stored: its mode and the step number within it. */
  datatype Addr = Addr(mode: Mode, stepNum: int)

  predicate Holds(t: Tensor, a: Addr) {
    a.mode in t.modeSteps && a.stepNum in t.modeSteps[a.mode].steps
  }

  function StepAt(t: Tensor, a: Addr): Step
    requires Holds(t, a)
  {
    t.modeSteps[a.mode].steps[a.stepNum]
  }

  /** Replaces the step stored at `a`. */
  function PutStep(t: Tensor, a: Addr, s: Step): (r: Tensor)
    requires Holds(t, a)
    ensures Holds(r, a) && StepAt(r, a) == s
    ensures r.name == t.name && r.cache == t.cache
    ensures r.modeSteps.Keys == t.modeSteps.Keys
    ensures forall b :: Holds(t, b) <==> Holds(r, b)
    ensures forall b :: Holds(t, b) && b != a ==> StepAt(r, b) == StepAt(t, b)
  {
    var ms := t.modeSteps[a.mode];
    t.(modeSteps := t.modeSteps[a.mode := ms.(steps := ms.steps[a.stepNum := s])])
  }

  /** Storing back the step already there changes nothing. */
  lemma PutSameStep(t: Tensor, a: Addr)
    requires Holds(t, a)
    ensures PutStep(t, a, StepAt(t, a)) == t
  {
    var ms := t.modeSteps[a.mode];
    assert ms.(steps := ms.steps[a.stepNum := StepAt(t, a)]) == ms;
    assert t.modeSteps[a.mode := ms] == t.modeSteps;
  }

  /** `_get_step_currently`: a global step stored under GLOBAL is found
      there; otherwise a global step number is first converted to a mode
      and mode step, and looked up under that mode. */
  function Locate(t: Tensor, k: int, mode: Mode, modeModestep: int -> (Mode, int)): (r: Option<Addr>)
    ensures r.Some? ==> Holds(t, r.value)
    ensures mode != Global ==> r == (if Holds(t, Addr(mode, k)) then Some(Addr(mode, k)) else None)
    ensures mode == Global && Holds(t, Addr(Global, k)) ==> r == Some(Addr(Global, k))
    ensures mode == Global && !Holds(t, Addr(Global, k)) ==>
              var a := Addr(modeModestep(k).0, modeModestep(k).1);
              r == if Holds(t, a) then Some(a) else None
  {
    if mode == Global && Global in t.modeSteps && k in t.modeSteps[Global].steps then Some(Addr(Global, k))
    else
      var a := if mode == Global then Addr(modeModestep(k).0, modeModestep(k).1) else Addr(mode, k);
      if a.mode in t.modeSteps && a.stepNum in t.modeSteps[a.mode].steps then Some(a) else None
  }

  /** The result of resolving a step: where it is stored in `tensor` (the
      tensor after any refresh), or the exception; and how many times the
      trial was refreshed. */
  datatype Resolved = Resolved(result: Result<Addr, TensorError>, tensor: Tensor, refreshes: nat)

  /** The last available step of `mode`, or -1 when there is none. */
  function LastStep(avail: seq<int>): int {
    if |avail| > 0 then avail[|avail| - 1] else -1
  }

  /** `Tensor.step`: a step stored now is returned without refreshing;
      otherwise the trial refreshes and its step state decides. */
  function ResolveStep(t: Tensor, trial: Trial, k: int, mode: Mode): (r: Resolved)
    ensures r.result.Ok? ==> Holds(r.tensor, r.result.value)
  {
    var found := Locate(t, k, mode, trial.modeModestep);
    if found.Some? then Resolved(Ok(found.value), t, 0)
    else
      var t' := trial.refresh(t);
      match trial.hasPassedStep(k, mode)
      case Available =>
        var again := Locate(t', k, mode, trial.modeModestep);
        if again.Some? then Resolved(Ok(again.value), t', 1)
        else Resolved(Err(TensorUnavailableForStep(t.name, k, mode, None)), t', 1)
      case Unavailable => Resolved(Err(StepUnavailable(k, mode)), t', 1)
      case NotYetAvailable =>
        if trial.loadedAllSteps then Resolved(Err(NoMoreData(k, mode, LastStep(trial.availableSteps(mode)))), t', 1)
        else Resolved(Err(StepNotYetAvailable(k, mode)), t', 1)
  }

  /** A step stored already is returned as is, without refreshing. */
  lemma ResolveFoundWithoutRefresh(t: Tensor, trial: Trial, k: int, mode: Mode)
    requires Locate(t, k, mode, trial.modeModestep).Some?
    ensures var r := ResolveStep(t, trial, k, mode);
            r.refreshes == 0 && r.tensor == t && r.result == Ok(Locate(t, k, mode, trial.modeModestep).value)
  {
  }

  /** A step not stored yet costs one refresh, after which each step state
      maps to its own outcome: found, `TensorUnavailableForStep`,
      `StepUnavailable`, or, when not yet available, `NoMoreData` (with the
      last available step) if and only if the trial has loaded all its
      steps, `StepNotYetAvailable` otherwise. */
  lemma ResolveAfterRefresh(t: Tensor, trial: Trial, k: int, mode: Mode)
    requires Locate(t, k, mode, trial.modeModestep).None?
    ensures var r := ResolveStep(t, trial, k, mode);
            var t' := trial.refresh(t);
            var state := trial.hasPassedStep(k, mode);
            && r.refreshes == 1 && r.tensor == t'
            && (r.result.Ok? <==> state == Available && Locate(t', k, mode, trial.modeModestep).Some?)
            && (r.result.Ok? ==> r.result.value == Locate(t', k, mode, trial.modeModestep).value)
            && (state == Available && r.result.Err? ==> r.result.error == TensorUnavailableForStep(t.name, k, mode, None))
            && (state == Unavailable <==> r.result == Err(StepUnavailable(k, mode)))
            && (r.result.Err? && r.result.error.NoMoreData? <==> state == NotYetAvailable && trial.loadedAllSteps)
            && (r.result.Err? && r.result.error.NoMoreData? ==>
                  r.result.error.lastStep == LastStep(trial.availableSteps(mode)))
            && (r.result == Err(StepNotYetAvailable(k, mode)) <==> state == NotYetAvailable && !trial.loadedAllSteps)
  {
  }

  datatype Answer<T> = Answer(result: Result<T, TensorError>, tensor: Tensor, fetches: nat, refreshes: nat)

  /** `Tensor.value`: resolves the step, then reads its value (see
      `StepValue`); the step, possibly now caching its value, is stored
      back. */
  function TensorValue(t: Tensor, trial: Trial, k: int, mode: Mode, fetch: TensorLocation -> Value): (r: Answer<Value>)
    ensures ResolveStep(t, trial, k, mode).result.Err? ==>
              r.result == ResolveStep(t, trial, k, mode).result.PropagateFailure() && r.fetches == 0
  {
    var rs := ResolveStep(t, trial, k, mode);
    match rs.result
    case Err(e) => Answer(Err(e), rs.tensor, 0, rs.refreshes)
    case Ok(a) =>
      var sv := StepValue(StepAt(rs.tensor, a), fetch);
      var t' := PutStep(rs.tensor, a, sv.step);
      match sv.result
      case Ok(v) => Answer(Ok(v), t', sv.fetches, rs.refreshes)
      case Err(hasReductions) => Answer(Err(TensorUnavailableForStep(t.name, k, mode, Some(hasReductions))), t', sv.fetches, rs.refreshes)
  }

  /** On a step stored already: `value` returns the step's full value, or
      reports whether it has reductions when it has neither value nor
      location; it fetches as `StepValue` does, and a caching tensor asked
      again returns the same value without fetching. */
  lemma TensorValueOfStoredStep(t: Tensor, trial: Trial, k: int, mode: Mode, fetch: TensorLocation -> Value)
    requires Locate(t, k, mode, trial.modeModestep).Some?
    ensures var a := Locate(t, k, mode, trial.modeModestep).value;
            var s := StepAt(t, a);
            var r := TensorValue(t, trial, k, mode, fetch);
            && r.refreshes == 0
            && (r.result.Ok? <==> FullValue(s, fetch).Some?)
            && (r.result.Ok? ==> r.result.value == FullValue(s, fetch).value)
            && (s.value.Some? ==> r.fetches == 0 && r.tensor == t)
            && (s.value.None? && s.location.Some? ==> r.fetches == (if s.cache then 1 else 2))
            && (r.result.Err? ==>
                  r.result.error == TensorUnavailableForStep(t.name, k, mode, Some(s.reductionValues != map[] || s.reductionLocations != map[])))
    ensures var a := Locate(t, k, mode, trial.modeModestep).value;
            var s := StepAt(t, a);
            var r := TensorValue(t, trial, k, mode, fetch);
            s.cache && s.location.Some? ==>
              var r2 := TensorValue(r.tensor, trial, k, mode, fetch);
              r2.result == r.result && r2.fetches == 0 && r2.refreshes == 0
  {
    var a := Locate(t, k, mode, trial.modeModestep).value;
    var s := StepAt(t, a);
    ResolveFoundWithoutRefresh(t, trial, k, mode);
    StepValueFetches(s, fetch);
    var sv := StepValue(s, fetch);
    var t' := PutStep(t, a, sv.step);
    if s.value.Some? {
      PutSameStep(t, a);
    }
    if s.cache && s.location.Some? {
      CachedStepValueOnce(s, fetch);
      assert Locate(t', k, mode, trial.modeModestep) == Some(a);
      ResolveFoundWithoutRefresh(t', trial, k, mode);
    }
  }

  /** `Tensor.reduction_value`: resolves the step, then takes the reduction
      from the first source that has it (see `StepReduction`); the step,
      possibly now caching what was read, is stored back. */
  function TensorReduction(t: Tensor, trial: Trial, k: int, name: string, mode: Mode, abs: bool,
                           fetch: TensorLocation -> Value, reduce: (string, Value, bool) -> Value): (r: Answer<Value>)
    ensures ResolveStep(t, trial, k, mode).result.Err? ==>
              r.result == ResolveStep(t, trial, k, mode).result.PropagateFailure() && r.fetches == 0
  {
    var rs := ResolveStep(t, trial, k, mode);
    match rs.result
    case Err(e) => Answer(Err(e), rs.tensor, 0, rs.refreshes)
    case Ok(a) =>
      var sr := StepReduction(StepAt(rs.tensor, a), RedKey(name, abs), fetch, reduce);
      var t' := PutStep(rs.tensor, a, sr.step);
      match sr.result
      case Ok(v) => Answer(Ok(v), t', sr.fetches, rs.refreshes)
      case Err(_) => Answer(Err(FetchWithoutLocation), t', sr.fetches, rs.refreshes)
  }

  /** On a step stored already, `reduction_value` tries the reduction in
      memory, then the saved reduction location, then computes it from the
      full value. */
  lemma TensorReductionOrder(t: Tensor, trial: Trial, k: int, name: string, mode: Mode, abs: bool,
                             fetch: TensorLocation -> Value, reduce: (string, Value, bool) -> Value)
    requires Locate(t, k, mode, trial.modeModestep).Some?
    ensures var s := StepAt(t, Locate(t, k, mode, trial.modeModestep).value);
            var key := RedKey(name, abs);
            var r := TensorReduction(t, trial, k, name, mode, abs, fetch, reduce);
            && r.refreshes == 0
            && (key in s.reductionValues ==> r.result == Ok(s.reductionValues[key]) && r.fetches == 0)
            && (key !in s.reductionValues && key in s.reductionLocations ==>
                  r.result == Ok(fetch(s.reductionLocations[key])))
            && (key !in s.reductionValues && key !in s.reductionLocations ==>
                  r.result == (if FullValue(s, fetch).Some? then Ok(reduce(name, FullValue(s, fetch).value, abs)) else Err(FetchWithoutLocation)))
  {
    ResolveFoundWithoutRefresh(t, trial, k, mode);
    StepReductionOrder(StepAt(t, Locate(t, k, mode, trial.modeModestep).value), RedKey(name, abs), fetch, reduce);
  }

  /** `Tensor.reduction_values`: resolves the step and reads its reductions. */
  function TensorReductions(t: Tensor, trial: Trial, k: int, mode: Mode, fetch: TensorLocation -> Value): (r: Answer<map<RedKey, Value>>)
    ensures var rs := ResolveStep(t, trial, k, mode);
            && (rs.result.Ok? <==> r.result.Ok?)
            && (rs.result.Ok? ==> r.result.value == ReadReductions(StepAt(rs.tensor, rs.result.value), fetch).result)
            && (rs.result.Err? ==> r.result == rs.result.PropagateFailure() && r.fetches == 0)
  {
    var rs := ResolveStep(t, trial, k, mode);
    match rs.result
    case Err(e) => Answer(Err(e), rs.tensor, 0, rs.refreshes)
    case Ok(a) =>
      var red := ReadReductions(StepAt(rs.tensor, a), fetch);
      Answer(Ok(red.result), PutStep(rs.tensor, a, red.step), red.fetches, rs.refreshes)
  }

  /** Python's `s[-n:]` for a non-zero `n`: the last `n` elements for a
      positive `n`, and all but the first `-n` for a negative one. */
  function TailSlice(s: seq<int>, n: int): (r: seq<int>)
    requires n != 0
    ensures n > 0 ==> r == LastN(s, n)
    ensures n < 0 ==> r == if -n < |s| then s[-n..] else []
  {
    if n > 0 then LastN(s, n) else if -n < |s| then s[-n..] else []
  }

  /** `prev_steps` on a sorted list of steps: the prefix of steps up to and
      including `step`, then, for a truthy `n`, its slice `[-n:]`. */
  function PrevOf(steps: seq<int>, step: int, n: Option<int>): (r: seq<int>)
    requires NonDecreasing(steps)
    ensures |r| <= |steps|
    ensures forall i :: 0 <= i < |r| ==> r[i] <= step
  {
    var prefix := steps[..BisectRight(steps, step, 0, |steps|)];
    if n.Some? && n.value != 0 then TailSlice(prefix, n.value) else prefix
  }

  /** The steps not after `step`: the longest prefix whose entries are all at
      most `step`. */
  lemma PrevOfPrefix(steps: seq<int>, step: int)
    requires NonDecreasing(steps)
    ensures var r := PrevOf(steps, step, None);
            && r == steps[..|r|]
            && (forall i :: 0 <= i < |r| ==> r[i] <= step)
            && (forall j :: |r| <= j < |steps| ==> steps[j] > step)
    ensures PrevOf(steps, step, Some(0)) == PrevOf(steps, step, None)
  {
  }

  /** A step is among the previous steps exactly when it is stored and not
      after `step`. */
  lemma PrevOfIff(steps: seq<int>, step: int, x: int)
    requires NonDecreasing(steps)
    ensures x in PrevOf(steps, step, None) <==> x in steps && x <= step
  {
    var r := PrevOf(steps, step, None);
    PrevOfPrefix(steps, step);
    if x in steps && x <= step {
      var i :| 0 <= i < |steps| && steps[i] == x;
      assert i < |r|;
      assert r[i] == x;
    }
  }

  /** With a positive `n`, the `n` latest steps not after `step` (all of
      them when there are fewer). */
  lemma PrevOfLastN(steps: seq<int>, step: int, n: int)
    requires NonDecreasing(steps) && n > 0
    ensures var p := PrevOf(steps, step, None);
            var r := PrevOf(steps, step, Some(n));
            |r| == (if n < |p| then n else |p|) && r == p[|p| - |r|..]
  {
    var p := PrevOf(steps, step, None);
    assert PrevOf(steps, step, Some(n)) == LastN(p, n);
  }

  /** `Tensor.prev_steps`: lists the steps of `mode` (refreshing), and takes
      the previous ones; with no steps for the mode, `bisect` fails. */
  function PrevSteps(t: Tensor, trial: Trial, step: int, n: Option<int>, mode: Mode): (r: Answer<seq<int>>)
    ensures r.tensor == trial.refresh(t) && r.refreshes == 1 && r.fetches == 0
    ensures r.result.Err? <==> TensorSteps(t, trial, mode).steps.None?
    ensures r.result.Err? ==> r.result.error == NoStepsForMode(mode)
    ensures r.result.Ok? ==> r.result.value == PrevOf(TensorSteps(t, trial, mode).steps.value, step, n)
  {
    var listed := TensorSteps(t, trial, mode);
    match listed.steps
    case None => Answer(Err(NoStepsForMode(mode)), listed.tensor, 0, 1)
    case Some(steps) => Answer(Ok(PrevOf(steps, step, n)), listed.tensor, 0, 1)
  }
}
