/** The per-step store of a tensor: a `Step` holds the value of one step (in
    memory, or only its location in an event file), the reductions saved for
    it and where they were saved; a `ModeSteps` maps step numbers of one
    mode to their steps. Reading from a location goes through `fetch`,
    which stands for `IndexReader.fetch_tensor_value`; every read result
    counts the fetches it made, so that what the cache saves can be stated. */
module Steps {
  import opened Results
  import opened SortedSeqs
  import opened Locations

  /** A tensor's value (a numpy array in the source); its contents are not
      interpreted here. */
  type Value = seq<real>

  /** `ModeKeys`. */
  datatype Mode = Train | Eval | Predict | Global

  /** The key of a reduction: its name and whether it is taken of the
      absolute value. */
  datatype RedKey = RedKey(name: string, abs: bool)

  datatype Step = Step(
    stepNum: int,
    value: Option<Value>,
    location: Option<TensorLocation>,
    cache: bool,
    reductionValues: map<RedKey, Value>,
    reductionLocations: map<RedKey, TensorLocation>)

  /** `Step(step_num, cache=cache)`: nothing known about it yet. */
  function NewStep(stepNum: int, cache: bool): Step {
    Step(stepNum, None, None, cache, map[], map[])
  }

  /** The result of a read: what it returned, the step afterwards (a cached
      read stores what it fetched) and how many fetches it made. */
  datatype Read<T> = Read(result: T, step: Step, fetches: nat)

  /** The `Step.value` getter: the value in memory if there is one;
      otherwise the value fetched from the location, stored on the step when
      it caches; `None` when the step has neither. */
  function ReadValue(s: Step, fetch: TensorLocation -> Value): (r: Read<Option<Value>>)
    ensures r.fetches <= 1
    ensures r.result.Some? <==> s.value.Some? || s.location.Some?
    ensures r.result.Some? ==> r.step.value.Some? || r.step.location.Some?
    ensures r.step.location == s.location && r.step.cache == s.cache && r.step.stepNum == s.stepNum
    ensures r.step.reductionValues == s.reductionValues && r.step.reductionLocations == s.reductionLocations
  {
    if s.value.None? then
      if s.location.None? then Read(None, s, 0)
      else
        var v := fetch(s.location.value);
        Read(Some(v), if s.cache then s.(value := Some(v)) else s, 1)
    else Read(s.value, s, 0)
  }

  /** What a read returns: the value in memory, else the one at the
      location; a read fetches exactly when there is no value in memory but
      a location. */
  lemma ReadValueResult(s: Step, fetch: TensorLocation -> Value)
    ensures var r := ReadValue(s, fetch);
            && r.result == (if s.value.Some? then s.value else if s.location.Some? then Some(fetch(s.location.value)) else None)
            && (r.fetches == 1 <==> s.value.None? && s.location.Some?)
  {
  }

  /** With the cache on, the first read of a located step stores the value,
      so the next read returns the same value without fetching. */
  lemma CachedReadFetchesOnce(s: Step, fetch: TensorLocation -> Value)
    requires s.cache
    ensures var r1 := ReadValue(s, fetch);
            var r2 := ReadValue(r1.step, fetch);
            r2.result == r1.result && r2.fetches == 0 && r2.step == r1.step
  {
  }

  /** With the cache off the step never changes, so every read of a step
      with no value in memory fetches again. */
  lemma UncachedReadAlwaysFetches(s: Step, fetch: TensorLocation -> Value)
    requires !s.cache
    ensures var r := ReadValue(s, fetch);
            r.step == s && (s.value.None? && s.location.Some? ==> r.fetches == 1)
  {
  }

  /** The values at every reduction location. */
  function FetchAll(locs: map<RedKey, TensorLocation>, fetch: TensorLocation -> Value): (m: map<RedKey, Value>)
    ensures m.Keys == locs.Keys
    ensures forall k :: k in locs ==> m[k] == fetch(locs[k])
  {
    map k | k in locs :: fetch(locs[k])
  }

  /** `Step.reduction_values`: the reductions in memory when there are any;
      otherwise every saved reduction location is fetched, and the results
      are stored on the step when it caches. */
  function ReadReductions(s: Step, fetch: TensorLocation -> Value): (r: Read<map<RedKey, Value>>)
    ensures s.reductionValues != map[] ==> r == Read(s.reductionValues, s, 0)
    ensures s.reductionValues == map[] ==>
              && r.result.Keys == s.reductionLocations.Keys
              && (forall k :: k in r.result ==> r.result[k] == fetch(s.reductionLocations[k]))
              && r.fetches == |s.reductionLocations|
    ensures r.step == if s.cache && s.reductionValues == map[] then s.(reductionValues := r.result) else s
  {
    if s.reductionValues == map[] then
      var vs := FetchAll(s.reductionLocations, fetch);
      assert |vs| == |vs.Keys| == |s.reductionLocations.Keys| == |s.reductionLocations|;
      Read(vs, if s.cache then s.(reductionValues := vs) else s, |s.reductionLocations|)
    else Read(s.reductionValues, s, 0)
  }

  /** A step has reductions to report exactly when it has some in memory or
      some saved locations. */
  lemma HasReductionsIff(s: Step, fetch: TensorLocation -> Value)
    ensures |ReadReductions(s, fetch).result| > 0 <==> s.reductionValues != map[] || s.reductionLocations != map[]
  {
    var r := ReadReductions(s, fetch);
    if s.reductionValues == map[] {
      assert |r.result| == |r.result.Keys|;
      if s.reductionLocations != map[] {
        var k :| k in s.reductionLocations;
        assert k in r.result;
      }
    } else {
      var k :| k in s.reductionValues;
      assert k in r.result;
    }
  }

  /** `Step.reduction_value`: looks the key up among the reductions in
      memory, or, when there are none, among all the fetched ones. */
  function ReadReduction(s: Step, key: RedKey, fetch: TensorLocation -> Value): (r: Read<Option<Value>>)
    ensures key in s.reductionValues ==> r == Read(Some(s.reductionValues[key]), s, 0)
    ensures s.reductionValues != map[] && key !in s.reductionValues ==> r == Read(None, s, 0)
    ensures s.reductionValues == map[] ==>
              r.result == (if key in s.reductionLocations then Some(fetch(s.reductionLocations[key])) else None)
    ensures r.step.value == s.value && r.step.location == s.location && r.step.cache == s.cache
    ensures r.step.reductionLocations == s.reductionLocations
  {
    var all := if s.reductionValues == map[] then ReadReductions(s, fetch) else Read(s.reductionValues, s, 0);
    Read(if key in all.result then Some(all.result[key]) else None, all.step, all.fetches)
  }

  /** `Step.reduction_location`. */
  function ReductionLocation(s: Step, key: RedKey): (r: Option<TensorLocation>)
    ensures r.Some? <==> key in s.reductionLocations
    ensures r.Some? ==> r.value == s.reductionLocations[key]
  {
    if key in s.reductionLocations then Some(s.reductionLocations[key]) else None
  }

  datatype StepError = NoLocation

  /** The part of `Tensor.reduction_value` that works on the resolved step:
      the reduction in memory (or among the fetched ones when none is in
      memory), else the one at its saved location, else `reduce` applied to
      the step's full value, read through the getter. With no value and no
      location the source passes `None` to `fetch_tensor_value`; that is the
      `NoLocation` error. */
  function StepReduction(s: Step, key: RedKey, fetch: TensorLocation -> Value,
                         reduce: (string, Value, bool) -> Value): (r: Read<Result<Value, StepError>>)
    ensures r.step.location == s.location && r.step.cache == s.cache && r.step.stepNum == s.stepNum
  {
    var rv := ReadReduction(s, key, fetch);
    var s1 := rv.step;
    var rl := ReductionLocation(s1, key);
    if rv.result.Some? then Read(Ok(rv.result.value), s1, rv.fetches)
    else if rl.Some? then Read(Ok(fetch(rl.value)), s1, rv.fetches + 1)
    else
      var g1 := ReadValue(s1, fetch);
      if g1.result.None? then Read(Err(NoLocation), g1.step, rv.fetches + g1.fetches)
      else
        var g2 := ReadValue(g1.step, fetch);
        Read(Ok(reduce(key.name, g2.result.value, key.abs)), g2.step, rv.fetches + g1.fetches + g2.fetches)
  }

  /** The value of the step: what its getter returns. */
  function FullValue(s: Step, fetch: TensorLocation -> Value): Option<Value> {
    if s.value.Some? then s.value else if s.location.Some? then Some(fetch(s.location.value)) else None
  }

  /** The order in which `reduction_value` tries its sources: a reduction in
      memory, then a saved reduction location (all of them fetched at once
      when no reduction is in memory, only the one asked for otherwise), and
      only then the reduction computed from the full value. */
  lemma StepReductionOrder(s: Step, key: RedKey, fetch: TensorLocation -> Value, reduce: (string, Value, bool) -> Value)
    ensures var r := StepReduction(s, key, fetch, reduce);
            && (key in s.reductionValues ==> r.result == Ok(s.reductionValues[key]) && r.fetches == 0)
            && (key !in s.reductionValues && key in s.reductionLocations ==>
                  r.result == Ok(fetch(s.reductionLocations[key])) &&
                  r.fetches == (if s.reductionValues == map[] then |s.reductionLocations| else 1))
            && (key !in s.reductionValues && key !in s.reductionLocations ==>
                  r.result == (if FullValue(s, fetch).Some? then Ok(reduce(key.name, FullValue(s, fetch).value, key.abs)) else Err(NoLocation)))
  {
    var rv := ReadReduction(s, key, fetch);
    if key !in s.reductionValues && key !in s.reductionLocations {
      ReadValueResult(rv.step, fetch);
      var g1 := ReadValue(rv.step, fetch);
      ReadValueResult(g1.step, fetch);
    }
  }

  /** The part of `Tensor.value` that works on the resolved step: its value
      is read through the getter twice (once to test it, once to return
      it); with neither value nor location, the error reports whether the
      step has reductions, which reads them. */
  function StepValue(s: Step, fetch: TensorLocation -> Value): (r: Read<Result<Value, bool>>)
    ensures r.step.location == s.location && r.step.cache == s.cache && r.step.stepNum == s.stepNum
  {
    var g1 := ReadValue(s, fetch);
    if g1.result.Some? then
      var g2 := ReadValue(g1.step, fetch);
      Read(Ok(g2.result.value), g2.step, g1.fetches + g2.fetches)
    else
      var red := ReadReductions(g1.step, fetch);
      Read(Err(|red.result| > 0), red.step, g1.fetches + red.fetches)
  }

  /** `Tensor.value` on a step returns its full value. The number of fetches
      is none for a value in memory, one for a located step that caches, and
      two for one that does not, because the getter is read twice. */
  lemma StepValueFetches(s: Step, fetch: TensorLocation -> Value)
    ensures var r := StepValue(s, fetch);
            && (r.result.Ok? <==> FullValue(s, fetch).Some?)
            && (r.result.Ok? ==> r.result.value == FullValue(s, fetch).value)
            && (s.value.Some? ==> r.fetches == 0 && r.step == s)
            && (s.value.None? && s.location.Some? ==> r.fetches == (if s.cache then 1 else 2))
            && (s.value.None? && s.location.None? ==>
                  r.result == Err(s.reductionValues != map[] || s.reductionLocations != map[]))
  {
    ReadValueResult(s, fetch);
    var g1 := ReadValue(s, fetch);
    ReadValueResult(g1.step, fetch);
    if g1.result.None? {
      HasReductionsIff(g1.step, fetch);
    }
  }

  /** With the cache on, once `Tensor.value` has read a located step, the
      next call returns the same value and fetches nothing. */
  lemma CachedStepValueOnce(s: Step, fetch: TensorLocation -> Value)
    requires s.cache && s.location.Some?
    ensures var r1 := StepValue(s, fetch);
            var r2 := StepValue(r1.step, fetch);
            r2.result == r1.result && r2.fetches == 0
  {
    StepValueFetches(s, fetch);
    var r1 := StepValue(s, fetch);
    assert r1.step.value.Some?;
    StepValueFetches(r1.step, fetch);
  }

  /** `ModeSteps`: the steps of one mode, by step number. */
  datatype ModeSteps = ModeSteps(mode: Mode, cache: bool, steps: map<int, Step>)

  /** `ModeSteps.steps`: every stored step number, once each, ascending. */
  function StepNums(ms: ModeSteps): (r: seq<int>)
    ensures StrictlyIncreasing(r)
    ensures forall x :: x in r <==> x in ms.steps
    ensures |r| == |ms.steps|
  {
    assert |ms.steps.Keys| == |ms.steps|;
    Ascending(ms.steps.Keys)
  }

  /** The step a setter changes: the stored one, or a new one that caches
      as the mode does. */
  function StepOrNew(ms: ModeSteps, k: int): Step {
    if k in ms.steps then ms.steps[k] else NewStep(k, ms.cache)
  }

  /** Only step `k` may differ, and it is there afterwards. */
  ghost predicate OnlyStepChanged(ms: ModeSteps, r: ModeSteps, k: int) {
    && r.mode == ms.mode && r.cache == ms.cache
    && r.steps.Keys == ms.steps.Keys + {k}
    && forall j :: j in ms.steps && j != k ==> r.steps[j] == ms.steps[j]
  }

  /** `set_step_value`: creates the step if it is absent (as a step that
      caches as the mode does: see "Findings" for what line 33 does
      instead) and sets its value; nothing else changes. */
  function SetStepValue(ms: ModeSteps, k: int, v: Option<Value>): (r: ModeSteps)
    ensures OnlyStepChanged(ms, r, k)
    ensures k in ms.steps ==> r.steps[k] == ms.steps[k].(value := v)
    ensures k !in ms.steps ==> r.steps[k] == Step(k, v, None, ms.cache, map[], map[])
  {
    ms.(steps := ms.steps[k := StepOrNew(ms, k).(value := v)])
  }

  /** `set_step_location`: creates the step if it is absent and sets its
      location; nothing else changes. */
  function SetStepLocation(ms: ModeSteps, k: int, loc: TensorLocation): (r: ModeSteps)
    ensures OnlyStepChanged(ms, r, k)
    ensures k in ms.steps ==> r.steps[k] == ms.steps[k].(location := Some(loc))
    ensures k !in ms.steps ==> r.steps[k] == Step(k, None, Some(loc), ms.cache, map[], map[])
  {
    ms.(steps := ms.steps[k := StepOrNew(ms, k).(location := Some(loc))])
  }

  /** `set_step_reduction_value`: creates the step if it is absent and
      records one reduction value; nothing else changes. */
  function SetStepReductionValue(ms: ModeSteps, k: int, key: RedKey, v: Value): (r: ModeSteps)
    ensures OnlyStepChanged(ms, r, k)
    ensures var s := StepOrNew(ms, k);
            r.steps[k] == s.(reductionValues := s.reductionValues[key := v])
  {
    var s := StepOrNew(ms, k);
    ms.(steps := ms.steps[k := s.(reductionValues := s.reductionValues[key := v])])
  }

  /** `set_step_reduction_location`: creates the step if it is absent and
      records one reduction location; nothing else changes. */
  function SetStepReductionLocation(ms: ModeSteps, k: int, key: RedKey, loc: TensorLocation): (r: ModeSteps)
    ensures OnlyStepChanged(ms, r, k)
    ensures var s := StepOrNew(ms, k);
            r.steps[k] == s.(reductionLocations := s.reductionLocations[key := loc])
  {
    var s := StepOrNew(ms, k);
    ms.(steps := ms.steps[k := s.(reductionLocations := s.reductionLocations[key := loc])])
  }

  /** Every step of `ms` caches as `cache` says and is stored under its own
      step number; so does `ms` itself. */
  ghost predicate CachesAs(ms: ModeSteps, cache: bool) {
    && ms.cache == cache
    && forall k :: k in ms.steps ==> ms.steps[k].cache == cache && ms.steps[k].stepNum == k
  }

  /** Changing only step `k`, into a step that caches as the mode does and
      carries its own number, keeps `CachesAs`. */
  lemma ChangedStepKeepsCache(ms: ModeSteps, r: ModeSteps, k: int)
    requires CachesAs(ms, ms.cache) && OnlyStepChanged(ms, r, k)
    requires r.steps[k].cache == ms.cache && r.steps[k].stepNum == k
    ensures CachesAs(r, ms.cache)
  {
    forall j | j in r.steps
      ensures r.steps[j].cache == ms.cache && r.steps[j].stepNum == j
    {
      if j != k {
        assert r.steps[j] == ms.steps[j];
      }
    }
  }

  /** The setters keep every step caching as its mode does. */
  lemma SettersKeepCache(ms: ModeSteps, k: int, v: Option<Value>, key: RedKey, rv: Value, loc: TensorLocation)
    requires CachesAs(ms, ms.cache)
    ensures CachesAs(SetStepValue(ms, k, v), ms.cache)
    ensures CachesAs(SetStepLocation(ms, k, loc), ms.cache)
    ensures CachesAs(SetStepReductionValue(ms, k, key, rv), ms.cache)
    ensures CachesAs(SetStepReductionLocation(ms, k, key, loc), ms.cache)
  {
    ChangedStepKeepsCache(ms, SetStepValue(ms, k, v), k);
    ChangedStepKeepsCache(ms, SetStepLocation(ms, k, loc), k);
    ChangedStepKeepsCache(ms, SetStepReductionValue(ms, k, key, rv), k);
    ChangedStepKeepsCache(ms, SetStepReductionLocation(ms, k, key, loc), k);
  }

  /** What `Step.__init__` receives for `location`: nothing, a location, or
      (as line 33 passes it) a flag. */
  datatype LocationArg = NoLocationArg | LocationOf(loc: TensorLocation) | FlagArg(flag: bool)

  /** The parameters `Step.__init__(step_num, value=None, location=None,
      cache=False)` is bound to. */
  datatype StepBinding = StepBinding(stepNum: int, value: Option<Value>, location: LocationArg, cache: bool)

  /** `Step(step_num, value, self.cache)` as `set_step_value` writes it: the
      third positional parameter is `location`, so the mode's cache flag is
      bound to `location` and `cache` keeps its default, `False`. */
  function NewStepAsWritten(k: int, v: Option<Value>, modeCache: bool): StepBinding {
    StepBinding(k, v, FlagArg(modeCache), false)
  }

  /** The binding the corrected call `Step(step_num, value, cache=self.cache)`
      makes, which is the step `SetStepValue` creates. */
  function NewStepIntended(k: int, v: Option<Value>, modeCache: bool): StepBinding {
    StepBinding(k, v, NoLocationArg, modeCache)
  }

  /** On a mode that caches, the step `set_step_value` creates as written does
      not cache, breaking `CachesAs`, and has a flag for its location; the
      corrected call makes the step `SetStepValue` stores. */
  lemma NewStepAsWrittenDropsCache(ms: ModeSteps, k: int, v: Option<Value>)
    requires ms.cache && k !in ms.steps
    ensures var w := NewStepAsWritten(k, v, ms.cache);
            && w.cache != ms.cache && w.location == FlagArg(true)
            && !CachesAs(ms.(steps := ms.steps[k := Step(k, v, None, w.cache, map[], map[])]), ms.cache)
    ensures var i := NewStepIntended(k, v, ms.cache);
            var s := SetStepValue(ms, k, v).steps[k];
            i.cache == s.cache && i.location == NoLocationArg && s.location.None? && i.value == s.value
  {
    var m := ms.(steps := ms.steps[k := Step(k, v, None, false, map[], map[])]);
    assert m.steps[k].cache != ms.cache;
  }
  /** What a user of a tensor that caches sees: a step made by `add_step`
      and then given a reduction location by `add_reduction_step_lazy`
      fetches that reduction again on every `reduction_values()` call as
      line 33 is written, while the corrected step fetches it once and then
      answers from memory. The flag bound to `location` is left out of the
      as-written step: with the value given, the getter never reads it. */
  lemma AsWrittenStepRefetchesReductions(ms: ModeSteps, k: int, v: Value, key: RedKey, loc: TensorLocation,
                                         fetch: TensorLocation -> Value)
    requires ms.cache && k !in ms.steps
    ensures var w := NewStepAsWritten(k, Some(v), ms.cache);
            var added := ms.(steps := ms.steps[k := Step(k, Some(v), None, w.cache, map[], map[])]);
            var s := SetStepReductionLocation(added, k, key, loc).steps[k];
            var first := ReadReductions(s, fetch);
            first.fetches == 1 && ReadReductions(first.step, fetch).fetches == 1
    ensures var s := SetStepReductionLocation(SetStepValue(ms, k, Some(v)), k, key, loc).steps[k];
            var first := ReadReductions(s, fetch);
            first.fetches == 1 && ReadReductions(first.step, fetch).fetches == 0
  {
    var added := ms.(steps := ms.steps[k := Step(k, Some(v), None, false, map[], map[])]);
    var s := SetStepReductionLocation(added, k, key, loc).steps[k];
    assert s == Step(k, Some(v), None, false, map[], map[key := loc]);
    assert |s.reductionLocations| == 1;
    var c := SetStepReductionLocation(SetStepValue(ms, k, Some(v)), k, key, loc).steps[k];
    assert c == Step(k, Some(v), None, true, map[], map[key := loc]);
    var first := ReadReductions(c, fetch);
    assert key in first.step.reductionValues;
  }

}
