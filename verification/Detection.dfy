/**
 Interference detection: the expression detector (detection/expression.go) and the trimmed
 window of node samples it is fed (healthcheck/rulecheck/rule_check_node.go).

 Time is an integer; the zero time.Time of Go is NIL_TIME.
 */
module Detection {
  import opened Wrappers

  const NIL_TIME: int := 0

  type Params = map<string, real>

  /** What evaluating an expression gives: a boolean, or an error or a value of another type. */
  datatype Evaluation = Truth(value: bool) | NoTruth

  type Expression = Params -> Evaluation

  datatype TimedData = TimedData(ts: int, vals: Params)

  datatype Config = Config(exp: Expression, warningCount: int, warningDuration: int, renew: bool)

  /**
   What a detector remembers: the parameters seen so far, the time of the newest accepted sample, and
   the times of the samples found true since the last one found false.
   */
  datatype Trace = Trace(params: Params, recent: int, run: seq<int>)

  /** The trace after one more sample; a sample that is not newer than the last one is dropped. */
  function Feed(exp: Expression, t: Trace, d: TimedData): Trace {
    if d.ts <= t.recent then t
    else
      var params := t.params + d.vals;
      match exp(params)
      case Truth(true) => Trace(params, d.ts, t.run + [d.ts])
      case Truth(false) => Trace(params, d.ts, [])
      case NoTruth => Trace(params, d.ts, t.run)
  }

  function FeedAll(exp: Expression, t: Trace, data: seq<TimedData>): Trace {
    if data == [] then t
    else Feed(exp, FeedAll(exp, t, data[..|data| - 1]), data[|data| - 1])
  }

  function Start(params: Params): Trace {
    Trace(params, NIL_TIME, [])
  }

  /** The verdict a trace deserves: the run of true samples is long enough, or has lasted long enough. */
  predicate Verdict(cfg: Config, t: Trace) {
    || (cfg.warningCount > 0 && |t.run| >= cfg.warningCount)
    || (cfg.warningDuration != 0 && t.run != [] && t.recent - t.run[0] >= cfg.warningDuration)
  }

  class ExpressionDetector {
    const cfg: Config
    var params: Params
    var recentAddTime: int
    var falseCount: int
    var firstContinueWarning: int
    // times of the true samples the two counters stand for
    ghost var run: seq<int>

    ghost predicate Valid()
      reads this
    {
      && recentAddTime >= NIL_TIME
      && (forall i :: 0 <= i < |run| ==> run[i] > NIL_TIME)
      && falseCount == (if cfg.warningCount > 0 then |run| else 0)
      && firstContinueWarning == (if cfg.warningDuration != 0 && run != [] then run[0] else NIL_TIME)
    }

    ghost function View(): Trace
      reads this
    {
      Trace(params, recentAddTime, run)
    }

    constructor (exp: Expression, warningCount: int, warningDuration: int, renew: bool)
      ensures Valid()
      ensures View() == Start(map[])
      ensures cfg.exp == exp && cfg.renew == renew && cfg.warningDuration == warningDuration
      ensures cfg.warningCount == if warningCount == 0 && warningDuration == 0 then 1 else warningCount
    {
      var count := if warningDuration == 0 && warningCount == 0 then 1 else warningCount;
      cfg := Config(exp, count, warningDuration, renew);
      params, recentAddTime, falseCount, firstContinueWarning, run := map[], NIL_TIME, 0, NIL_TIME, [];
    }

    method Add(d: TimedData)
      requires Valid()
      modifies this
      ensures Valid()
      ensures View() == Feed(cfg.exp, old(View()), d)
    {
      if d.ts <= recentAddTime {
        return;
      }
      recentAddTime := d.ts;
      params := params + d.vals;
      Detect();
    }

    method Detect()
      requires Valid() && recentAddTime > NIL_TIME
      modifies this`falseCount, this`firstContinueWarning, this`run
      ensures Valid()
      ensures run == match cfg.exp(params) {
                       case Truth(true) => old(run) + [recentAddTime]
                       case Truth(false) => []
                       case NoTruth => old(run)
                     }
    {
      match cfg.exp(params)
      case NoTruth =>
      case Truth(r) =>
        if r {
          if cfg.warningCount > 0 {
            falseCount := falseCount + 1;
          }
          if cfg.warningDuration != 0 && firstContinueWarning == NIL_TIME {
            firstContinueWarning := recentAddTime;
          }
          run := run + [recentAddTime];
        } else {
          falseCount := 0;
          firstContinueWarning := NIL_TIME;
          run := [];
        }
    }

    method AddAll(data: seq<TimedData>)
      modifies this
      ensures Valid()
      ensures View() == FeedAll(cfg.exp, Start(old(params)), data)
    {
      recentAddTime, falseCount, firstContinueWarning, run := NIL_TIME, 0, NIL_TIME, [];
      for i := 0 to |data|
        invariant Valid()
        invariant View() == FeedAll(cfg.exp, Start(old(params)), data[..i])
      {
        assert data[..i + 1][..i] == data[..i];
        Add(data[i]);
      }
      assert data[..|data|] == data;
    }

    method IsAnomaly() returns (ret: bool)
      requires Valid()
      modifies this`falseCount, this`firstContinueWarning, this`run
      ensures Valid()
      ensures ret == Verdict(cfg, old(View()))
      ensures run == if cfg.renew then [] else old(run)
    {
      ret := false;
      if cfg.warningCount > 0 && firstContinueWarning != NIL_TIME {
        var warningCountRes := falseCount >= cfg.warningCount;
        var warningDurationRes := recentAddTime - firstContinueWarning >= cfg.warningDuration;
        ret := warningCountRes || warningDurationRes;
      } else if cfg.warningCount > 0 {
        ret := falseCount >= cfg.warningCount;
      } else if firstContinueWarning != NIL_TIME {
        ret := recentAddTime - firstContinueWarning >= cfg.warningDuration;
      }
      if cfg.renew {
        falseCount, firstContinueWarning, run := 0, NIL_TIME, [];
      }
    }
  }

  // ---------------------------------------------------------------- the window of node samples

  /** A metric: the name the expression uses and the name under which a sample holds its value. */
  datatype Metric = Metric(param: string, source: string)

  datatype NodeState = NodeState(ts: int, values: map<string, real>)

  /** The parameters of one sample; a metric without a value counts as zero. */
  function ParamsOf(metrics: seq<Metric>, st: NodeState): Params {
    if metrics == [] then map[]
    else
      var m := metrics[|metrics| - 1];
      var v := if m.source in st.values then st.values[m.source] else 0.0;
      ParamsOf(metrics[..|metrics| - 1], st)[m.param := v]
  }

  function ParamNames(metrics: seq<Metric>): set<string> {
    if metrics == [] then {} else ParamNames(metrics[..|metrics| - 1]) + {metrics[|metrics| - 1].param}
  }

  lemma {:induction false} ParamsOfKeys(metrics: seq<Metric>, st: NodeState)
    ensures ParamsOf(metrics, st).Keys == ParamNames(metrics)
  {
    if metrics != [] {
      ParamsOfKeys(metrics[..|metrics| - 1], st);
    }
  }

  /** No later metric uses the name of metric k. */
  ghost predicate IsLastUse(metrics: seq<Metric>, k: int) {
    0 <= k < |metrics| && forall j :: k < j < |metrics| ==> metrics[j].param != metrics[k].param
  }

  /**
   What the values of a sample mean to an expression: exactly the named metrics have a value, the one
   the sample holds or zero, and of several metrics with one name the last one counts.
   */
  ghost predicate IsReading(metrics: seq<Metric>, values: map<string, real>, r: Params) {
    && (forall name :: name in r <==> exists k :: 0 <= k < |metrics| && metrics[k].param == name)
    && (forall k :: IsLastUse(metrics, k) ==>
          && metrics[k].param in r
          && r[metrics[k].param] == if metrics[k].source in values then values[metrics[k].source] else 0.0)
  }

  lemma {:induction false} ParamNamesMean(metrics: seq<Metric>, name: string)
    ensures name in ParamNames(metrics) <==> exists k :: 0 <= k < |metrics| && metrics[k].param == name
  {
    if metrics != [] {
      var n := |metrics| - 1;
      ParamNamesMean(metrics[..n], name);
      if k :| 0 <= k < |metrics| && metrics[k].param == name {
        assert k < n ==> metrics[..n][k].param == name;
      }
      if k :| 0 <= k < n && metrics[..n][k].param == name {
        assert metrics[k].param == name;
      }
    }
  }

  lemma {:induction false} ParamsOfAt(metrics: seq<Metric>, st: NodeState, k: nat)
    requires IsLastUse(metrics, k)
    ensures var r, m := ParamsOf(metrics, st), metrics[k];
            m.param in r && r[m.param] == if m.source in st.values then st.values[m.source] else 0.0
  {
    var n := |metrics| - 1;
    if k < n {
      assert metrics[n].param != metrics[k].param;
      ParamsOfAt(metrics[..n], st, k);
    }
  }

  lemma ParamsOfIsReading(metrics: seq<Metric>, st: NodeState)
    ensures IsReading(metrics, st.values, ParamsOf(metrics, st))
  {
    ParamsOfKeys(metrics, st);
    forall name
      ensures name in ParamNames(metrics) <==> exists k :: 0 <= k < |metrics| && metrics[k].param == name
    {
      ParamNamesMean(metrics, name);
    }
    forall k | IsLastUse(metrics, k)
      ensures var r, m := ParamsOf(metrics, st), metrics[k];
              m.param in r && r[m.param] == if m.source in st.values then st.values[m.source] else 0.0
    {
      ParamsOfAt(metrics, st, k);
    }
  }

  lemma {:induction false} LastUse(metrics: seq<Metric>, k: nat) returns (l: nat)
    requires k < |metrics|
    ensures IsLastUse(metrics, l) && metrics[l].param == metrics[k].param
    decreases |metrics| - k
  {
    l := k;
    if j :| k < j < |metrics| && metrics[j].param == metrics[k].param {
      l := LastUse(metrics, j);
    }
  }

  lemma ReadingIsUnique(metrics: seq<Metric>, values: map<string, real>, r: Params, r': Params)
    requires IsReading(metrics, values, r) && IsReading(metrics, values, r')
    ensures r == r'
  {
    forall name | name in r
      ensures name in r' && r[name] == r'[name]
    {
      var k :| 0 <= k < |metrics| && metrics[k].param == name;
      var l := LastUse(metrics, k);
    }
    assert forall name :: name in r' ==> name in r;
  }

  function Sample(metrics: seq<Metric>, st: NodeState): TimedData {
    TimedData(st.ts, ParamsOf(metrics, st))
  }

  function Samples(metrics: seq<Metric>, sts: seq<NodeState>): seq<TimedData> {
    if sts == [] then []
    else Samples(metrics, sts[..|sts| - 1]) + [Sample(metrics, sts[|sts| - 1])]
  }

  lemma SamplesSnoc(metrics: seq<Metric>, sts: seq<NodeState>, st: NodeState)
    ensures Samples(metrics, sts + [st]) == Samples(metrics, sts) + [Sample(metrics, st)]
  {
    assert (sts + [st])[..|sts|] == sts;
  }

  lemma {:induction false} SamplesAt(metrics: seq<Metric>, sts: seq<NodeState>)
    ensures |Samples(metrics, sts)| == |sts|
    ensures forall i :: 0 <= i < |sts| ==> Samples(metrics, sts)[i] == Sample(metrics, sts[i])
  {
    if sts != [] {
      SamplesAt(metrics, sts[..|sts| - 1]);
    }
  }

  ghost predicate Increasing(sts: seq<NodeState>) {
    forall i, j :: 0 <= i < j < |sts| ==> sts[i].ts < sts[j].ts
  }

  /** The time the window has to reach back to. */
  function StartTime(sts: seq<NodeState>, duration: int): int
    requires sts != []
  {
    if duration != 0 then sts[|sts| - 1].ts - duration else NIL_TIME
  }

  /** A sample is skipped when both it and its successor are older than the start time. */
  predicate Skipped(sts: seq<NodeState>, startTime: int, i: nat)
    requires i < |sts|
  {
    startTime > sts[i].ts && i + 1 < |sts| && startTime > sts[i + 1].ts
  }

  function FirstIndex(n: nat, samples: int): (i: nat)
    ensures i <= n
    ensures samples > 0 ==> n - i <= samples
    ensures i > 0 ==> samples > 0 && n - i == samples
  {
    if samples > 0 && n > samples then n - samples else 0
  }

  /** The samples from index lo up to hi that are not skipped. */
  function Kept(sts: seq<NodeState>, startTime: int, lo: nat, hi: nat): seq<NodeState>
    requires lo <= hi <= |sts|
  {
    if lo == hi then []
    else if Skipped(sts, startTime, hi - 1) then Kept(sts, startTime, lo, hi - 1)
    else Kept(sts, startTime, lo, hi - 1) + [sts[hi - 1]]
  }

  function Window(sts: seq<NodeState>, samples: int, duration: int): seq<NodeState> {
    if sts == [] then []
    else Kept(sts, StartTime(sts, duration), FirstIndex(|sts|, samples), |sts|)
  }

  method ReadParams(metrics: seq<Metric>, st: NodeState) returns (params: Params)
    ensures params == ParamsOf(metrics, st)
  {
    params := map[];
    for k := 0 to |metrics|
      invariant params == ParamsOf(metrics[..k], st)
    {
      assert metrics[..k + 1][..k] == metrics[..k];
      var m := metrics[k];
      params := params[m.param := if m.source in st.values then st.values[m.source] else 0.0];
    }
    assert metrics[..|metrics|] == metrics;
  }

  /** Each of the data is the reading of its sample. */
  ghost predicate AreReadings(metrics: seq<Metric>, sts: seq<NodeState>, vals: seq<TimedData>) {
    && |vals| == |sts|
    && forall i :: 0 <= i < |sts| ==> vals[i].ts == sts[i].ts && IsReading(metrics, sts[i].values, vals[i].vals)
  }

  lemma SamplesAreReadings(metrics: seq<Metric>, sts: seq<NodeState>)
    ensures AreReadings(metrics, sts, Samples(metrics, sts))
  {
    SamplesAt(metrics, sts);
    forall i | 0 <= i < |sts|
      ensures IsReading(metrics, sts[i].values, ParamsOf(metrics, sts[i]))
    {
      ParamsOfIsReading(metrics, sts[i]);
    }
  }

  lemma KeptStep(metrics: seq<Metric>, sts: seq<NodeState>, startTime: int, lo: nat, i: nat)
    requires lo <= i < |sts|
    ensures Samples(metrics, Kept(sts, startTime, lo, i + 1)) ==
            if Skipped(sts, startTime, i) then Samples(metrics, Kept(sts, startTime, lo, i))
            else Samples(metrics, Kept(sts, startTime, lo, i)) + [Sample(metrics, sts[i])]
  {
    SamplesSnoc(metrics, Kept(sts, startTime, lo, i), sts[i]);
  }

  method NodeMetricsValues(metrics: seq<Metric>, sts: seq<NodeState>, samples: int, duration: int)
      returns (vals: seq<TimedData>)
    ensures vals == Samples(metrics, Window(sts, samples, duration))
    ensures AreReadings(metrics, Window(sts, samples, duration), vals)
  {
    vals := ReadWindow(metrics, sts, samples, duration);
    SamplesAreReadings(metrics, Window(sts, samples, duration));
  }

  method ReadWindow(metrics: seq<Metric>, sts: seq<NodeState>, samples: int, duration: int)
      returns (vals: seq<TimedData>)
    ensures vals == Samples(metrics, Window(sts, samples, duration))
  {
    if |sts| == 0 {
      return [];
    }
    var i := 0;
    if samples > 0 && |sts| > samples {
      i := |sts| - samples;
    }
    var startTime := NIL_TIME;
    if duration != 0 {
      startTime := sts[|sts| - 1].ts - duration;
    }
    vals := ReadFrom(metrics, sts, startTime, i);
  }

  /** Read the samples from place first on that are not skipped. */
  method ReadFrom(metrics: seq<Metric>, sts: seq<NodeState>, startTime: int, first: nat) returns (vals: seq<TimedData>)
    requires first <= |sts|
    ensures vals == Samples(metrics, Kept(sts, startTime, first, |sts|))
  {
    vals := [];
    var i := first;
    ghost var read: seq<TimedData> := [];
    while i != |sts|
      invariant first <= i <= |sts|
      invariant read == Samples(metrics, Kept(sts, startTime, first, i))
      invariant vals == read
      decreases |sts| - i
    {
      var st := sts[i];
      KeptStep(metrics, sts, startTime, first, i);
      read := Samples(metrics, Kept(sts, startTime, first, i + 1));
      i := i + 1;
      if startTime > st.ts && i != |sts| && startTime > sts[i].ts {
        continue;
      }
      var params := ReadParams(metrics, st);
      vals := vals + [TimedData(st.ts, params)];
    }
  }

  // ---------------------------------------------------------------- the trailing run

  /** Given values for these parameters, whatever else is defined, the expression evaluates to a boolean. */
  ghost predicate BooleanValued(exp: Expression, keys: set<string>) {
    forall p: Params :: keys <= p.Keys ==> exp(p).Truth?
  }

  /** The detector accepts this sample of an increasing history and finds it true. */
  predicate Hot(exp: Expression, params: Params, d: TimedData) {
    d.ts > NIL_TIME && exp(params + d.vals) == Truth(true)
  }

  /** The times of the longest suffix of hot samples. */
  function TrailingRun(exp: Expression, params: Params, data: seq<TimedData>): seq<int> {
    if data == [] || !Hot(exp, params, data[|data| - 1]) then []
    else TrailingRun(exp, params, data[..|data| - 1]) + [data[|data| - 1].ts]
  }

  lemma {:induction false} TrailingRunIsLongestHotSuffix(exp: Expression, params: Params, data: seq<TimedData>)
    ensures var run := TrailingRun(exp, params, data);
            && |run| <= |data|
            && (forall i :: |data| - |run| <= i < |data| ==>
                              run[i - (|data| - |run|)] == data[i].ts && Hot(exp, params, data[i]))
            && (|run| < |data| ==> !Hot(exp, params, data[|data| - |run| - 1]))
  {
    if data != [] && Hot(exp, params, data[|data| - 1]) {
      TrailingRunIsLongestHotSuffix(exp, params, data[..|data| - 1]);
    }
  }

  ghost predicate UniformAndIncreasing(keys: set<string>, data: seq<TimedData>) {
    && (forall i :: 0 <= i < |data| ==> data[i].vals.Keys == keys)
    && (forall i, j :: 0 <= i < j < |data| ==> data[i].ts < data[j].ts)
  }

  lemma OverlayHidesKeys(a: Params, b: Params, v: Params)
    requires a - v.Keys == b - v.Keys
    ensures a + v == b + v
    ensures (a + v) - v.Keys == a - v.Keys
  {
    assert forall k :: k in a && k !in v ==> k in (a - v.Keys) && (a - v.Keys)[k] == a[k];
    assert forall k :: k in b && k !in v ==> k in (b - v.Keys) && (b - v.Keys)[k] == b[k];
  }

  /** One accepted sample of a boolean expression, seen from parameters that differ only in its own keys. */
  lemma FeedOne(exp: Expression, params: Params, t: Trace, d: TimedData)
    requires exp(params + d.vals).Truth?
    requires t.params - d.vals.Keys == params - d.vals.Keys
    requires t.recent < d.ts && t.recent >= NIL_TIME
    ensures var u := Feed(exp, t, d);
            && u.params - d.vals.Keys == params - d.vals.Keys
            && u.recent == d.ts
            && u.run == if Hot(exp, params, d) then t.run + [d.ts] else []
  {
    OverlayHidesKeys(t.params, params, d.vals);
  }

  /** The state of the detector is exactly the trailing run of true samples. */
  lemma {:induction false} TraceIsTrailingRun(exp: Expression, params: Params, keys: set<string>, data: seq<TimedData>)
    requires BooleanValued(exp, keys) && UniformAndIncreasing(keys, data)
    ensures var t := FeedAll(exp, Start(params), data);
            && t.run == TrailingRun(exp, params, data)
            && t.recent == (if data == [] then NIL_TIME else Max(NIL_TIME, data[|data| - 1].ts))
            && t.params - keys == params - keys
  {
    if data != [] {
      var init, last := data[..|data| - 1], data[|data| - 1];
      TraceIsTrailingRun(exp, params, keys, init);
      var t := FeedAll(exp, Start(params), init);
      assert init != [] ==> init[|init| - 1].ts < last.ts;
      if t.recent < last.ts {
        assert exp(params + last.vals).Truth?;
        FeedOne(exp, params, t, last);
      } else {
        assert t.run == [];
      }
    }
  }

  /** The sample is found true and none after it is found false. */
  ghost predicate TrueSinceFalse(exp: Expression, params: Params, data: seq<TimedData>, i: int) {
    && 0 <= i < |data| && Hot(exp, params, data[i])
    && forall j :: i < j < |data| ==> exp(params + data[j].vals) != Truth(false)
  }

  /**
   For an expression that need not evaluate to a boolean, the run holds the samples found true since the
   last one found false; evaluations without a boolean neither extend nor end it.
   */
  lemma {:induction false} RunIsTrueSinceFalse(exp: Expression, params: Params, keys: set<string>,
                                               data: seq<TimedData>, ts: int)
    requires UniformAndIncreasing(keys, data)
    ensures ts in FeedAll(exp, Start(params), data).run <==> FoundTrueAt(exp, params, data, ts)
  {
    if data != [] {
      var n := |data| - 1;
      var init, last := data[..n], data[n];
      RunIsTrueSinceFalse(exp, params, keys, init, ts);
      TraceKeepsParams(exp, params, keys, init);
      var t := FeedAll(exp, Start(params), init);
      if t.recent < last.ts {
        FeedAny(exp, params, t, last);
      }
      RunGrows(exp, params, init, last, t, Feed(exp, t, last), ts);
      assert init + [last] == data;
    }
  }

  /** A sample of this time was found true, and none after it false. */
  ghost predicate FoundTrueAt(exp: Expression, params: Params, data: seq<TimedData>, ts: int) {
    exists i :: TrueSinceFalse(exp, params, data, i) && data[i].ts == ts
  }

  lemma {:induction false} TraceKeepsParams(exp: Expression, params: Params, keys: set<string>, data: seq<TimedData>)
    requires UniformAndIncreasing(keys, data)
    ensures var t := FeedAll(exp, Start(params), data);
            && t.params - keys == params - keys
            && t.recent == (if data == [] then NIL_TIME else Max(NIL_TIME, data[|data| - 1].ts))
  {
    if data != [] {
      var init, last := data[..|data| - 1], data[|data| - 1];
      TraceKeepsParams(exp, params, keys, init);
      var t := FeedAll(exp, Start(params), init);
      assert init != [] ==> init[|init| - 1].ts < last.ts;
      if t.recent < last.ts {
        FeedAny(exp, params, t, last);
      }
    }
  }

  /** One accepted sample of any expression. */
  lemma FeedAny(exp: Expression, params: Params, t: Trace, d: TimedData)
    requires t.params - d.vals.Keys == params - d.vals.Keys && t.recent < d.ts
    ensures var u := Feed(exp, t, d);
            && u.params - d.vals.Keys == params - d.vals.Keys && u.recent == d.ts
            && u.run == match exp(params + d.vals) {
                          case Truth(true) => t.run + [d.ts]
                          case Truth(false) => []
                          case NoTruth => t.run
                        }
  {
    OverlayHidesKeys(t.params, params, d.vals);
  }

  lemma RunGrows(exp: Expression, params: Params, init: seq<TimedData>, last: TimedData, t: Trace, u: Trace, ts: int)
    requires forall i :: 0 <= i < |init| ==> init[i].ts < last.ts
    requires t.recent == if init == [] then NIL_TIME else Max(NIL_TIME, init[|init| - 1].ts)
    requires ts in t.run <==> FoundTrueAt(exp, params, init, ts)
    requires last.ts <= t.recent ==> u.run == t.run
    requires last.ts > t.recent ==>
               u.run == match exp(params + last.vals) {
                          case Truth(true) => t.run + [last.ts]
                          case Truth(false) => []
                          case NoTruth => t.run
                        }
    ensures ts in u.run <==> FoundTrueAt(exp, params, init + [last], ts)
  {
    var data, n := init + [last], |init|;
    forall i | 0 <= i < n
      ensures TrueSinceFalse(exp, params, data, i) <==>
              TrueSinceFalse(exp, params, init, i) && exp(params + last.vals) != Truth(false)
    {
      if TrueSinceFalse(exp, params, data, i) {
        assert data[n] == last;
        forall j | i < j < n
          ensures exp(params + init[j].vals) != Truth(false)
        {
          assert data[j] == init[j];
        }
      }
    }
    assert TrueSinceFalse(exp, params, data, n) <==> Hot(exp, params, last);
    if i :| TrueSinceFalse(exp, params, init, i) && init[i].ts == ts {
      assert data[i].ts == ts;
    }
    if i :| TrueSinceFalse(exp, params, data, i) && data[i].ts == ts {
      assert i < n ==> init[i].ts == ts;
    }
  }

  lemma {:induction false} TrailingRunOfSuffix(exp: Expression, params: Params, data: seq<TimedData>, s: nat)
    requires s <= |data|
    ensures var run := TrailingRun(exp, params, data);
            && |TrailingRun(exp, params, data[s..])| == (if |run| <= |data| - s then |run| else |data| - s)
            && (|run| <= |data| - s ==> TrailingRun(exp, params, data[s..]) == run)
    decreases |data|
  {
    TrailingRunIsLongestHotSuffix(exp, params, data);
    if s < |data| {
      var init := data[..|data| - 1];
      assert data[s..][..|data| - s - 1] == init[s..];
      TrailingRunOfSuffix(exp, params, init, s);
    }
  }

  lemma SkippedBefore(sts: seq<NodeState>, startTime: int, i: nat, j: nat)
    requires Increasing(sts) && i <= j < |sts| && Skipped(sts, startTime, j)
    ensures Skipped(sts, startTime, i)
  {
    assert sts[i].ts <= sts[j].ts && sts[i + 1].ts <= sts[j + 1].ts;
  }

  /** On increasing samples whatever is kept is a suffix, cut off at the start time. */
  lemma {:induction false} KeptIsSuffix(sts: seq<NodeState>, startTime: int, lo: nat, hi: nat) returns (s: nat)
    requires Increasing(sts) && lo <= hi <= |sts|
    ensures lo <= s <= hi && Kept(sts, startTime, lo, hi) == sts[s..hi]
    ensures s == lo || (s < |sts| && sts[s].ts < startTime)
    ensures s < hi ==> !Skipped(sts, startTime, s)
  {
    if lo == hi {
      return lo;
    }
    s := KeptIsSuffix(sts, startTime, lo, hi - 1);
    if Skipped(sts, startTime, hi - 1) {
      SkippedBefore(sts, startTime, s, hi - 1);
      s := hi;
    } else {
      assert sts[s..hi - 1] + [sts[hi - 1]] == sts[s..hi];
    }
  }

  /**
   The window is a suffix: it holds no more than the asked samples and at most one sample from before
   the asked duration, and it is no shorter than these two demand.
   */
  lemma WindowIsSuffix(sts: seq<NodeState>, samples: int, duration: int) returns (s: nat)
    requires Increasing(sts) && sts != []
    ensures s < |sts| && Window(sts, samples, duration) == sts[s..]
    ensures samples > 0 ==> |sts| - s <= samples
    ensures var start := if duration == 0 then NIL_TIME else sts[|sts| - 1].ts - duration;
            && (s + 1 < |sts| ==> sts[s + 1].ts >= start)
            && (s == 0 || (samples > 0 && |sts| - s == samples) || sts[s].ts < start)
  {
    s := KeptIsSuffix(sts, StartTime(sts, duration), FirstIndex(|sts|, samples), |sts|);
    assert s + 1 < |sts| ==> sts[s].ts < sts[s + 1].ts;
  }

  /**
   The short window decides exactly what the whole history would, for every warning count and
   duration, every expression that always evaluates to a boolean and whatever parameters the
   detector still holds.
   */
  lemma WindowDecidesLikeHistory(cfg: Config, params: Params, metrics: seq<Metric>, sts: seq<NodeState>)
    requires BooleanValued(cfg.exp, ParamNames(metrics)) && Increasing(sts)
    ensures var window := Window(sts, cfg.warningCount, cfg.warningDuration);
            Verdict(cfg, FeedAll(cfg.exp, Start(params), Samples(metrics, window)))
            == Verdict(cfg, FeedAll(cfg.exp, Start(params), Samples(metrics, sts)))
  {
    if sts != [] {
      var s := WindowIsSuffix(sts, cfg.warningCount, cfg.warningDuration);
      var keys := ParamNames(metrics);
      SamplesAreUniform(metrics, sts);
      SamplesOfSuffix(metrics, sts, s);
      SuffixDecidesLikeHistory(cfg, params, keys, Samples(metrics, sts), s);
    }
  }

  lemma SamplesAreUniform(metrics: seq<Metric>, sts: seq<NodeState>)
    requires Increasing(sts)
    ensures |Samples(metrics, sts)| == |sts|
    ensures forall i :: 0 <= i < |sts| ==> Samples(metrics, sts)[i].ts == sts[i].ts
    ensures UniformAndIncreasing(ParamNames(metrics), Samples(metrics, sts))
  {
    SamplesAt(metrics, sts);
    forall st | st in sts
      ensures ParamsOf(metrics, st).Keys == ParamNames(metrics)
    {
      ParamsOfKeys(metrics, st);
    }
  }

  lemma SamplesOfSuffix(metrics: seq<Metric>, sts: seq<NodeState>, s: nat)
    requires s <= |sts|
    ensures |Samples(metrics, sts)| == |sts|
    ensures Samples(metrics, sts[s..]) == Samples(metrics, sts)[s..]
  {
    SamplesAt(metrics, sts);
    SamplesAt(metrics, sts[s..]);
  }

  /** Nothing in front of sample s is needed: it is the first, or count or duration reach back to it. */
  predicate ReachesBack(cfg: Config, all: seq<TimedData>, s: nat)
    requires s < |all|
  {
    var startTime := if cfg.warningDuration != 0 then all[|all| - 1].ts - cfg.warningDuration else NIL_TIME;
    || s == 0
    || (cfg.warningCount > 0 && |all| - s == cfg.warningCount)
    || all[s].ts < startTime
  }

  /** The trace is what the trailing run of the data says it is. */
  ghost predicate Shows(t: Trace, exp: Expression, params: Params, data: seq<TimedData>) {
    && t.run == TrailingRun(exp, params, data)
    && t.recent == if data == [] then NIL_TIME else Max(NIL_TIME, data[|data| - 1].ts)
  }

  lemma TraceShows(exp: Expression, params: Params, keys: set<string>, data: seq<TimedData>)
    requires BooleanValued(exp, keys) && UniformAndIncreasing(keys, data)
    ensures Shows(FeedAll(exp, Start(params), data), exp, params, data)
  {
    TraceIsTrailingRun(exp, params, keys, data);
  }

  lemma SuffixIsUniform(keys: set<string>, all: seq<TimedData>, s: nat)
    requires UniformAndIncreasing(keys, all) && s <= |all|
    ensures UniformAndIncreasing(keys, all[s..])
  {
  }

  lemma SuffixDecidesLikeHistory(cfg: Config, params: Params, keys: set<string>, all: seq<TimedData>, s: nat)
    requires BooleanValued(cfg.exp, keys) && UniformAndIncreasing(keys, all)
    requires s < |all| && ReachesBack(cfg, all, s)
    ensures Verdict(cfg, FeedAll(cfg.exp, Start(params), all[s..]))
            == Verdict(cfg, FeedAll(cfg.exp, Start(params), all))
  {
    SuffixIsUniform(keys, all, s);
    TraceShows(cfg.exp, params, keys, all);
    TraceShows(cfg.exp, params, keys, all[s..]);
    VerdictsAgree(cfg, params, all, s,
                  FeedAll(cfg.exp, Start(params), all), FeedAll(cfg.exp, Start(params), all[s..]));
  }

  lemma VerdictsAgree(cfg: Config, params: Params, all: seq<TimedData>, s: nat, t: Trace, u: Trace)
    requires forall i, j :: 0 <= i < j < |all| ==> all[i].ts < all[j].ts
    requires s < |all| && ReachesBack(cfg, all, s)
    requires Shows(t, cfg.exp, params, all) && Shows(u, cfg.exp, params, all[s..])
    ensures Verdict(cfg, t) == Verdict(cfg, u)
  {
    TrailingRunOfSuffix(cfg.exp, params, all, s);
    if |t.run| > |all| - s {
      CutRunIsWarningEnough(cfg, params, all, s);
    }
  }

  /** A run that the window cuts off was already long enough when it was cut. */
  lemma CutRunIsWarningEnough(cfg: Config, params: Params, all: seq<TimedData>, s: nat)
    requires forall i, j :: 0 <= i < j < |all| ==> all[i].ts < all[j].ts
    requires s < |all| && ReachesBack(cfg, all, s)
    requires |TrailingRun(cfg.exp, params, all)| > |all| - s
    requires |TrailingRun(cfg.exp, params, all[s..])| == |all| - s
    ensures var last := Max(NIL_TIME, all[|all| - 1].ts);
            && Verdict(cfg, Trace(params, last, TrailingRun(cfg.exp, params, all)))
            && Verdict(cfg, Trace(params, last, TrailingRun(cfg.exp, params, all[s..])))
  {
    var run := TrailingRun(cfg.exp, params, all);
    TrailingRunIsLongestHotSuffix(cfg.exp, params, all);
    TrailingRunIsLongestHotSuffix(cfg.exp, params, all[s..]);
    assert Hot(cfg.exp, params, all[s]) && Hot(cfg.exp, params, all[|all| - 1]);
    assert run[|run| - 1] == all[|all| - 1].ts;
    assert run[|run| - (|all| - s)] == all[s].ts;
    assert run[0] == all[|all| - |run|].ts < all[s].ts;
    assert TrailingRun(cfg.exp, params, all[s..])[0] == all[s].ts;
  }

  /** From sample s on every reading makes the expression true. */
  ghost predicate AllTrueFrom(exp: Expression, params: Params, metrics: seq<Metric>, sts: seq<NodeState>, s: int) {
    && 0 <= s < |sts|
    && forall i :: s <= i < |sts| ==> sts[i].ts > NIL_TIME && IsTrueAt(exp, params, metrics, sts[i])
  }

  ghost predicate IsTrueAt(exp: Expression, params: Params, metrics: seq<Metric>, st: NodeState) {
    forall r :: IsReading(metrics, st.values, r) ==> exp(params + r) == Truth(true)
  }

  /** The samples from s on are enough in number or last long enough. */
  predicate LongEnough(cfg: Config, sts: seq<NodeState>, s: int)
    requires 0 <= s < |sts|
  {
    || (cfg.warningCount > 0 && |sts| - s >= cfg.warningCount)
    || (cfg.warningDuration != 0 && sts[|sts| - 1].ts - sts[s].ts >= cfg.warningDuration)
  }

  /** The samples from which on every reading makes the expression true. */
  ghost function TrueStarts(exp: Expression, params: Params, metrics: seq<Metric>, sts: seq<NodeState>): set<int> {
    set s | 0 <= s < |sts| && AllTrueFrom(exp, params, metrics, sts, s)
  }

  ghost predicate SomeLongEnough(cfg: Config, sts: seq<NodeState>, starts: set<int>) {
    exists s :: s in starts && 0 <= s < |sts| && LongEnough(cfg, sts, s)
  }

  /** The latest samples make the expression true, and they are enough in number or last long enough. */
  ghost predicate FiresOn(cfg: Config, params: Params, metrics: seq<Metric>, sts: seq<NodeState>) {
    SomeLongEnough(cfg, sts, TrueStarts(cfg.exp, params, metrics, sts))
  }

  lemma HotIsTrue(exp: Expression, params: Params, metrics: seq<Metric>, st: NodeState)
    ensures Hot(exp, params, Sample(metrics, st)) <==> st.ts > NIL_TIME && IsTrueAt(exp, params, metrics, st)
  {
    ParamsOfIsReading(metrics, st);
    if exp(params + ParamsOf(metrics, st)) == Truth(true) {
      forall r | IsReading(metrics, st.values, r)
        ensures exp(params + r) == Truth(true)
      {
        ReadingIsUnique(metrics, st.values, r, ParamsOf(metrics, st));
      }
    }
  }

  /** What the verdict on a whole history means, in terms of its samples. */
  lemma VerdictMeans(cfg: Config, params: Params, metrics: seq<Metric>, sts: seq<NodeState>)
    requires BooleanValued(cfg.exp, ParamNames(metrics)) && Increasing(sts)
    ensures Verdict(cfg, FeedAll(cfg.exp, Start(params), Samples(metrics, sts))) <==> FiresOn(cfg, params, metrics, sts)
  {
    var t := FeedAll(cfg.exp, Start(params), Samples(metrics, sts));
    SamplesAreUniform(metrics, sts);
    TraceShows(cfg.exp, params, ParamNames(metrics), Samples(metrics, sts));
    RunIsEarliestStart(cfg, params, metrics, sts, t);
    RunDecides(cfg, sts, t, TrueStarts(cfg.exp, params, metrics, sts));
  }

  /** The run of the trace is that of the earliest start. */
  ghost predicate IsEarliest(sts: seq<NodeState>, t: Trace, starts: set<int>) {
    && |t.run| <= |sts|
    && (t.run != [] ==>
          var s := |sts| - |t.run|;
          s in starts && t.run[0] == sts[s].ts && t.recent == sts[|sts| - 1].ts)
    && forall s :: s in starts ==> |sts| - |t.run| <= s < |sts|
  }

  lemma RunIsEarliestStart(cfg: Config, params: Params, metrics: seq<Metric>, sts: seq<NodeState>, t: Trace)
    requires Shows(t, cfg.exp, params, Samples(metrics, sts))
    ensures IsEarliest(sts, t, TrueStarts(cfg.exp, params, metrics, sts))
  {
    RunStart(cfg, params, metrics, sts, t);
    forall s | s in TrueStarts(cfg.exp, params, metrics, sts)
      ensures s >= |sts| - |t.run|
    {
      TrueWithinRun(cfg, params, metrics, sts, t, s);
    }
  }

  /** The run of the trace begins with a sample from which on all are true. */
  lemma RunStart(cfg: Config, params: Params, metrics: seq<Metric>, sts: seq<NodeState>, t: Trace)
    requires Shows(t, cfg.exp, params, Samples(metrics, sts))
    ensures |t.run| <= |sts|
    ensures t.run != [] ==>
              var s := |sts| - |t.run|;
              && AllTrueFrom(cfg.exp, params, metrics, sts, s)
              && t.run[0] == sts[s].ts && t.recent == sts[|sts| - 1].ts
  {
    var data := Samples(metrics, sts);
    SamplesAt(metrics, sts);
    TrailingRunIsLongestHotSuffix(cfg.exp, params, data);
    forall i | |sts| - |t.run| <= i < |sts|
      ensures sts[i].ts > NIL_TIME && IsTrueAt(cfg.exp, params, metrics, sts[i])
    {
      assert Hot(cfg.exp, params, data[i]);
      HotIsTrue(cfg.exp, params, metrics, sts[i]);
    }
  }

  lemma AllTrueAreHot(exp: Expression, params: Params, metrics: seq<Metric>, sts: seq<NodeState>, s: int, i: int)
    requires AllTrueFrom(exp, params, metrics, sts, s) && s <= i < |sts|
    ensures Hot(exp, params, Sample(metrics, sts[i]))
  {
    HotIsTrue(exp, params, metrics, sts[i]);
  }

  /** The sample before the run is not hot. */
  lemma ColdBeforeRun(exp: Expression, params: Params, metrics: seq<Metric>, sts: seq<NodeState>, t: Trace)
    requires Shows(t, exp, params, Samples(metrics, sts))
    ensures |t.run| < |sts| ==> !Hot(exp, params, Sample(metrics, sts[|sts| - |t.run| - 1]))
  {
    SamplesAt(metrics, sts);
    TrailingRunIsLongestHotSuffix(exp, params, Samples(metrics, sts));
  }

  lemma TrueWithinRun(cfg: Config, params: Params, metrics: seq<Metric>, sts: seq<NodeState>, t: Trace, s: int)
    requires Shows(t, cfg.exp, params, Samples(metrics, sts)) && AllTrueFrom(cfg.exp, params, metrics, sts, s)
    ensures s >= |sts| - |t.run|
  {
    if s < |sts| - |t.run| {
      ColdBeforeRun(cfg.exp, params, metrics, sts, t);
      AllTrueAreHot(cfg.exp, params, metrics, sts, s, |sts| - |t.run| - 1);
      assert false;
    }
  }

  /** The verdict looks at the earliest start only, which is as good as any. */
  lemma RunDecides(cfg: Config, sts: seq<NodeState>, t: Trace, starts: set<int>)
    requires Increasing(sts) && IsEarliest(sts, t, starts)
    ensures Verdict(cfg, t) <==> SomeLongEnough(cfg, sts, starts)
  {
    var first := |sts| - |t.run|;
    if Verdict(cfg, t) {
      assert first in starts && LongEnough(cfg, sts, first);
    }
    if s :| s in starts && 0 <= s < |sts| && LongEnough(cfg, sts, s) {
      assert first < s ==> sts[first].ts < sts[s].ts;
    }
  }

  /** A detector of a rule with the metrics its expression names. */
  datatype Probe = Probe(detector: ExpressionDetector, metrics: seq<Metric>)

  ghost predicate Condemns(p: Probe, params: Params, sts: seq<NodeState>) {
    Verdict(p.detector.cfg, FeedAll(p.detector.cfg.exp, Start(params), Samples(p.metrics, sts)))
  }

  /** One detector's pass: it is fed the window and gives the verdict of the whole history. */
  method DetectOne(d: ExpressionDetector, metrics: seq<Metric>, sts: seq<NodeState>) returns (anomaly: bool)
    requires BooleanValued(d.cfg.exp, ParamNames(metrics)) && Increasing(sts)
    modifies d
    ensures anomaly == Condemns(Probe(d, metrics), old(d.params), sts)
  {
    var vals := NodeMetricsValues(metrics, sts, d.cfg.warningCount, d.cfg.warningDuration);
    WindowDecidesLikeHistory(d.cfg, d.params, metrics, sts);
    d.AddAll(vals);
    anomaly := d.IsAnomaly();
  }

  /** So it fires exactly when the latest samples of the history say so. */
  method DetectNode(d: ExpressionDetector, metrics: seq<Metric>, sts: seq<NodeState>) returns (anomaly: bool)
    requires BooleanValued(d.cfg.exp, ParamNames(metrics)) && Increasing(sts)
    modifies d
    ensures anomaly <==> FiresOn(d.cfg, old(d.params), metrics, sts)
  {
    VerdictMeans(d.cfg, d.params, metrics, sts);
    anomaly := DetectOne(d, metrics, sts);
  }

  /** The detectors are asked one after the other until one of them condemns the history. */
  method DetectFirst(probes: seq<Probe>, sts: seq<NodeState>) returns (anomaly: bool)
    requires Increasing(sts)
    requires forall i, j :: 0 <= i < j < |probes| ==> probes[i].detector != probes[j].detector
    requires forall i :: 0 <= i < |probes| ==> BooleanValued(probes[i].detector.cfg.exp, ParamNames(probes[i].metrics))
    modifies set i | 0 <= i < |probes| :: probes[i].detector
    ensures anomaly <==> exists i :: 0 <= i < |probes| && Condemns(probes[i], old(probes[i].detector.params), sts)
  {
    for i := 0 to |probes|
      invariant forall j :: 0 <= j < i ==> !Condemns(probes[j], old(probes[j].detector.params), sts)
      invariant forall j :: i <= j < |probes| ==> probes[j].detector.params == old(probes[j].detector.params)
    {
      anomaly := DetectOne(probes[i].detector, probes[i].metrics, sts);
      assert probes[i] == Probe(probes[i].detector, probes[i].metrics);
      if anomaly {
        return;
      }
    }
    anomaly := false;
  }

  /** The latest samples of the history make the detector fire, given the parameters it still holds. */
  ghost predicate Fires(p: Probe, params: Params, sts: seq<NodeState>) {
    FiresOn(p.detector.cfg, params, p.metrics, sts)
  }

  lemma CondemnsMeans(p: Probe, params: Params, sts: seq<NodeState>)
    requires BooleanValued(p.detector.cfg.exp, ParamNames(p.metrics)) && Increasing(sts)
    ensures Condemns(p, params, sts) <==> Fires(p, params, sts)
  {
    VerdictMeans(p.detector.cfg, params, p.metrics, sts);
  }

  /** detect (rulecheck/common.go:362-386): the rule fires with the first of its detectors that does. */
  method DetectRule(probes: seq<Probe>, sts: seq<NodeState>) returns (anomaly: bool)
    requires Increasing(sts)
    requires forall i, j :: 0 <= i < j < |probes| ==> probes[i].detector != probes[j].detector
    requires forall i :: 0 <= i < |probes| ==> BooleanValued(probes[i].detector.cfg.exp, ParamNames(probes[i].metrics))
    modifies set i | 0 <= i < |probes| :: probes[i].detector
    ensures anomaly <==> exists i :: 0 <= i < |probes| && Fires(probes[i], old(probes[i].detector.params), sts)
  {
    anomaly := DetectFirst(probes, sts);
    forall i | 0 <= i < |probes|
      ensures Condemns(probes[i], old(probes[i].detector.params), sts)
              <==> Fires(probes[i], old(probes[i].detector.params), sts)
    {
      CondemnsMeans(probes[i], old(probes[i].detector.params), sts);
    }
  }
}
