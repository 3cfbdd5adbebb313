/**
 Pacing of the rule checker (checkRule, healthcheck/rulecheck/common.go): when an anomaly is handled,
 when recovery is attempted, and which actions are issued as conflicting.
 */
module RuleCheck {
  import opened Wrappers

  // ---------------------------------------------------------------- pacing

  datatype Intervals = Intervals(handle: int, recover: int)

  datatype Pacing = Pacing(lastHandle: Option<int>, lastRecover: Option<int>, lastAbnormal: Option<int>)

  /** Handle an anomaly, hold it back, attempt recovery, or hold recovery back. */
  datatype Decision = Handle | HoldHandle | Recover | HoldRecover

  datatype Tick = Tick(anomaly: bool, now: int)

  predicate Elapsed(last: Option<int>, interval: int, now: int) {
    last.Some? ==> last.value + interval < now
  }

  /** The later of the last recovery and the last abnormal observation. */
  function RecoverBase(p: Pacing): Option<int> {
    if p.lastAbnormal.Some? && (p.lastRecover.None? || p.lastRecover.value < p.lastAbnormal.value)
    then p.lastAbnormal else p.lastRecover
  }

  function Decide(iv: Intervals, p: Pacing, t: Tick): (Pacing, Decision) {
    if t.anomaly then
      var q := p.(lastAbnormal := Some(t.now));
      if Elapsed(p.lastHandle, iv.handle, t.now) then (q.(lastHandle := Some(t.now)), Handle) else (q, HoldHandle)
    else if Elapsed(RecoverBase(p), iv.recover, t.now) then (p.(lastRecover := Some(t.now)), Recover)
    else (p.(lastRecover := RecoverBase(p)), HoldRecover)
  }

  function PacingAfter(iv: Intervals, ticks: seq<Tick>): Pacing {
    if ticks == [] then Pacing(None, None, None)
    else Decide(iv, PacingAfter(iv, ticks[..|ticks| - 1]), ticks[|ticks| - 1]).0
  }

  function Decisions(iv: Intervals, ticks: seq<Tick>): (ds: seq<Decision>)
    ensures |ds| == |ticks|
  {
    if ticks == [] then []
    else
      var init, last := ticks[..|ticks| - 1], ticks[|ticks| - 1];
      Decisions(iv, init) + [Decide(iv, PacingAfter(iv, init), last).1]
  }

  // ---------------------------------------------------------------- what the history allows

  /** Every earlier handled anomaly is more than the handle interval away. */
  ghost predicate MayHandle(iv: Intervals, ticks: seq<Tick>, ds: seq<Decision>, j: nat)
    requires |ds| == |ticks| && j < |ticks|
  {
    forall i :: 0 <= i < j && ds[i] == Handle ==> ticks[j].now - ticks[i].now > iv.handle
  }

  /** Every earlier abnormal observation and every earlier recovery is more than the recover interval away. */
  ghost predicate MayRecover(iv: Intervals, ticks: seq<Tick>, ds: seq<Decision>, j: nat)
    requires |ds| == |ticks| && j < |ticks|
  {
    forall i :: 0 <= i < j && (ticks[i].anomaly || ds[i] == Recover) ==> ticks[j].now - ticks[i].now > iv.recover
  }

  ghost predicate DecidedByHistory(iv: Intervals, ticks: seq<Tick>, ds: seq<Decision>, j: nat)
    requires |ds| == |ticks| && j < |ticks|
  {
    ds[j] == if ticks[j].anomaly then (if MayHandle(iv, ticks, ds, j) then Handle else HoldHandle)
             else (if MayRecover(iv, ticks, ds, j) then Recover else HoldRecover)
  }

  ghost predicate Monotone(ticks: seq<Tick>) {
    forall i, j :: 0 <= i < j < |ticks| ==> ticks[i].now <= ticks[j].now
  }

  /** t is the greatest clock reading among the ticks for which the mark holds. */
  ghost predicate Latest(t: Option<int>, ticks: seq<Tick>, mark: seq<bool>)
    requires |mark| == |ticks|
  {
    && (forall i :: 0 <= i < |ticks| && mark[i] ==> t.Some? && ticks[i].now <= t.value)
    && (t.Some? ==> exists i :: 0 <= i < |ticks| && mark[i] && ticks[i].now == t.value)
  }

  ghost function Handled(ds: seq<Decision>): (mark: seq<bool>)
    ensures |mark| == |ds| && forall i :: 0 <= i < |ds| ==> mark[i] == (ds[i] == Handle)
  {
    seq(|ds|, i requires 0 <= i < |ds| => ds[i] == Handle)
  }

  ghost function BlocksRecovery(ticks: seq<Tick>, ds: seq<Decision>): (mark: seq<bool>)
    requires |ds| == |ticks|
    ensures |mark| == |ds| && forall i :: 0 <= i < |ds| ==> mark[i] == (ticks[i].anomaly || ds[i] == Recover)
  {
    seq(|ds|, i requires 0 <= i < |ds| => ticks[i].anomaly || ds[i] == Recover)
  }

  /** Adding a tick that is no earlier than the others makes it the latest, if it is marked at all. */
  lemma LatestSnoc(t: Option<int>, ticks: seq<Tick>, mark: seq<bool>)
    requires |mark| == |ticks| && ticks != [] && Monotone(ticks)
    requires Latest(t, ticks[..|ticks| - 1], mark[..|ticks| - 1])
    ensures Latest(if mark[|ticks| - 1] then Some(ticks[|ticks| - 1].now) else t, ticks, mark)
  {
    var n := |ticks| - 1;
    if !mark[n] && t.Some? {
      var i :| 0 <= i < n && mark[..n][i] && ticks[..n][i].now == t.value;
      assert mark[i] && ticks[i].now == t.value;
    }
    forall i | 0 <= i < n && mark[i]
      ensures t.Some? && ticks[i].now <= t.value
    {
      assert mark[..n][i] && ticks[..n][i] == ticks[i];
    }
  }

  lemma {:induction false} LastHandleIsLatest(iv: Intervals, ticks: seq<Tick>)
    requires Monotone(ticks)
    ensures Latest(PacingAfter(iv, ticks).lastHandle, ticks, Handled(Decisions(iv, ticks)))
  {
    if ticks != [] {
      var init := ticks[..|ticks| - 1];
      LastHandleIsLatest(iv, init);
      var ds := Decisions(iv, ticks);
      assert ds[..|init|] == Decisions(iv, init);
      assert Handled(ds)[..|init|] == Handled(ds[..|init|]);
      LatestSnoc(PacingAfter(iv, init).lastHandle, ticks, Handled(ds));
    }
  }

  lemma {:induction false} RecoverBaseIsLatest(iv: Intervals, ticks: seq<Tick>)
    requires Monotone(ticks)
    ensures Latest(RecoverBase(PacingAfter(iv, ticks)), ticks, BlocksRecovery(ticks, Decisions(iv, ticks)))
  {
    if ticks != [] {
      var init := ticks[..|ticks| - 1];
      RecoverBaseIsLatest(iv, init);
      var ds := Decisions(iv, ticks);
      assert ds[..|init|] == Decisions(iv, init);
      assert BlocksRecovery(ticks, ds)[..|init|] == BlocksRecovery(init, ds[..|init|]);
      LatestSnoc(RecoverBase(PacingAfter(iv, init)), ticks, BlocksRecovery(ticks, ds));
      RecoverBaseStep(iv, PacingAfter(iv, init), ticks[|init|]);
    }
  }

  lemma RecoverBaseStep(iv: Intervals, p: Pacing, t: Tick)
    requires RecoverBase(p).Some? ==> RecoverBase(p).value <= t.now
    ensures var (q, d) := Decide(iv, p, t);
            RecoverBase(q) == if t.anomaly || d == Recover then Some(t.now) else RecoverBase(p)
  {
  }

  /** Being elapsed since the latest marked tick is being elapsed since every marked tick. */
  lemma ElapsedSinceAll(t: Option<int>, ticks: seq<Tick>, mark: seq<bool>, interval: int, now: int)
    requires |mark| == |ticks| && Latest(t, ticks, mark)
    ensures Elapsed(t, interval, now) <==>
            forall i :: 0 <= i < |ticks| && mark[i] ==> now - ticks[i].now > interval
  {
  }

  lemma LastIsDecidedByHistory(iv: Intervals, ticks: seq<Tick>)
    requires Monotone(ticks) && ticks != []
    ensures DecidedByHistory(iv, ticks, Decisions(iv, ticks), |ticks| - 1)
  {
    var init, last := ticks[..|ticks| - 1], ticks[|ticks| - 1];
    var p, ds := PacingAfter(iv, init), Decisions(iv, init);
    if last.anomaly {
      LastHandleIsLatest(iv, init);
      ElapsedSinceAll(p.lastHandle, init, Handled(ds), iv.handle, last.now);
    } else {
      RecoverBaseIsLatest(iv, init);
      ElapsedSinceAll(RecoverBase(p), init, BlocksRecovery(init, ds), iv.recover, last.now);
    }
  }

  /**
   Over every run with a non-decreasing clock, an anomaly is handled exactly when every earlier handled
   anomaly is more than the handle interval away, and a recovery pass is made exactly when every
   earlier abnormal observation and recovery pass is more than the recover interval away.
   */
  lemma {:induction false} PacingIsExact(iv: Intervals, ticks: seq<Tick>)
    requires Monotone(ticks)
    ensures forall j :: 0 <= j < |ticks| ==> DecidedByHistory(iv, ticks, Decisions(iv, ticks), j)
  {
    if ticks != [] {
      var init := ticks[..|ticks| - 1];
      PacingIsExact(iv, init);
      LastIsDecidedByHistory(iv, ticks);
      var ds := Decisions(iv, ticks);
      assert ds[..|init|] == Decisions(iv, init);
      forall j | 0 <= j < |init|
        ensures DecidedByHistory(iv, ticks, ds, j)
      {
        assert DecidedByHistory(iv, init, Decisions(iv, init), j);
      }
    }
  }

  // ---------------------------------------------------------------- the actions issued

  /** A rule: what its detectors said (None when they failed) and the names of its actions. */
  datatype Rule = Rule(verdict: Option<bool>, actions: seq<string>)

  /** An action with the flag it is called with. */
  datatype Issue = Issue(action: string, conflicting: bool)

  function Flag(actions: seq<string>, conflicting: bool): (r: seq<Issue>)
    ensures |r| == |actions| && forall i :: 0 <= i < |r| ==> r[i] == Issue(actions[i], conflicting)
  {
    if actions == [] then []
    else Flag(actions[..|actions| - 1], conflicting) + [Issue(actions[|actions| - 1], conflicting)]
  }

  /** Every rule that could be checked hands in its actions, each flagged with its own verdict. */
  function IssuesOf(rules: seq<Rule>): seq<Issue> {
    if rules == [] then []
    else
      var init, last := IssuesOf(rules[..|rules| - 1]), rules[|rules| - 1];
      if last.verdict.None? then init else init + Flag(last.actions, last.verdict.value)
  }

  /** Only recover rules that match hand in their actions, never as conflicting. */
  function RecoverIssuesOf(rules: seq<Rule>): seq<Issue> {
    if rules == [] then []
    else
      var init, last := RecoverIssuesOf(rules[..|rules| - 1]), rules[|rules| - 1];
      if last.verdict == Some(true) then init + Flag(last.actions, false) else init
  }

  predicate Matches(rules: seq<Rule>) {
    exists i :: 0 <= i < |rules| && rules[i].verdict == Some(true)
  }

  function Issued(d: Decision, rules: seq<Rule>, recoverRules: seq<Rule>): seq<Issue> {
    match d
    case Handle => IssuesOf(rules)
    case HoldHandle => []
    case HoldRecover => []
    case Recover => if recoverRules == [] then IssuesOf(rules) else RecoverIssuesOf(recoverRules)
  }

  class RuleCheckEntry {
    const iv: Intervals
    var lastHandle: Option<int>
    var lastRecover: Option<int>
    var lastAbnormal: Option<int>

    constructor (iv: Intervals)
      ensures this.iv == iv && View() == PacingAfter(iv, [])
    {
      this.iv := iv;
      lastHandle, lastRecover, lastAbnormal := None, None, None;
    }

    ghost function View(): Pacing
      reads this
    {
      Pacing(lastHandle, lastRecover, lastAbnormal)
    }

    method CheckRule(rules: seq<Rule>, recoverRules: seq<Rule>, now: int)
        returns (issues: seq<Issue>, anomaly: bool, noNeedHandle: bool, noNeedRecover: bool)
      modifies this
      ensures anomaly == Matches(rules)
      ensures noNeedHandle <==> Decide(iv, old(View()), Tick(anomaly, now)).1 == HoldHandle
      ensures noNeedRecover <==> Decide(iv, old(View()), Tick(anomaly, now)).1 == HoldRecover
      ensures View() == Decide(iv, old(View()), Tick(anomaly, now)).0
      ensures issues == Issued(Decide(iv, old(View()), Tick(anomaly, now)).1, rules, recoverRules)
    {
      anomaly, noNeedHandle, noNeedRecover, issues := false, false, false, [];
      for i := 0 to |rules|
        invariant anomaly == Matches(rules[..i])
        invariant issues == IssuesOf(rules[..i])
      {
        assert rules[..i + 1][..i] == rules[..i];
        if rules[i].verdict.None? {
          assert Matches(rules[..i + 1]) == Matches(rules[..i]);
          continue;
        }
        assert Matches(rules[..i + 1]) == (Matches(rules[..i]) || rules[..i + 1][i].verdict.value);
        if rules[i].verdict.value {
          anomaly := true;
        }
        issues := issues + Flag(rules[i].actions, rules[i].verdict.value);
      }
      assert rules[..|rules|] == rules;
      if anomaly {
        lastAbnormal := Some(now);
        if lastHandle.Some? && !(lastHandle.value + iv.handle < now) {
          return [], true, true, false;
        }
        lastHandle := Some(now);
      } else {
        if lastAbnormal.Some? && (lastRecover.None? || lastRecover.value < lastAbnormal.value) {
          lastRecover := lastAbnormal;
        }
        if lastRecover.Some? && !(lastRecover.value + iv.recover < now) {
          return [], false, false, true;
        }
        lastRecover := Some(now);
        var matched, recoverIssues := HandleRecover(recoverRules);
        if matched {
          issues := recoverIssues;
        } else if |recoverRules| > 0 {
          issues := [];
        }
      }
    }

    method HandleRecover(recoverRules: seq<Rule>) returns (matched: bool, issues: seq<Issue>)
      ensures matched == Matches(recoverRules)
      ensures issues == RecoverIssuesOf(recoverRules)
      ensures !matched ==> issues == []
    {
      matched, issues := false, [];
      for i := 0 to |recoverRules|
        invariant matched == Matches(recoverRules[..i])
        invariant issues == RecoverIssuesOf(recoverRules[..i])
        invariant !matched ==> issues == []
      {
        assert recoverRules[..i + 1][..i] == recoverRules[..i];
        assert Matches(recoverRules[..i + 1])
            == (Matches(recoverRules[..i]) || recoverRules[..i + 1][i].verdict == Some(true));
        if recoverRules[i].verdict == Some(true) {
          matched := true;
          issues := issues + Flag(recoverRules[i].actions, false);
        }
      }
      assert recoverRules[..|recoverRules|] == recoverRules;
    }
  }

  lemma {:induction false} IssuesCarryVerdicts(rules: seq<Rule>)
    ensures forall s :: s in IssuesOf(rules) <==>
                        exists r :: r in rules && r.verdict == Some(s.conflicting) && s.action in r.actions
  {
    if rules != [] {
      var init, last := rules[..|rules| - 1], rules[|rules| - 1];
      IssuesCarryVerdicts(init);
      assert rules == init + [last];
    }
  }

  lemma {:induction false} RecoverIssuesNeverConflict(rules: seq<Rule>)
    ensures forall s :: s in RecoverIssuesOf(rules) ==> !s.conflicting
  {
    if rules != [] {
      RecoverIssuesNeverConflict(rules[..|rules| - 1]);
    }
  }

  lemma {:induction false} RecoverIssuesMean(rules: seq<Rule>)
    ensures forall s :: s in RecoverIssuesOf(rules) <==>
                        !s.conflicting && exists r :: r in rules && r.verdict == Some(true) && s.action in r.actions
  {
    if rules != [] {
      var n := |rules| - 1;
      var init, last := rules[..n], rules[n];
      RecoverIssuesMean(init);
      assert forall r :: r in rules <==> r in init || r == last;
      assert forall s :: s in Flag(last.actions, false) <==> !s.conflicting && s.action in last.actions;
    }
  }

  /**
   Which actions a pass issues: a handled anomaly those of all rules that could be checked, each with its
   rule's verdict; a recovery the same when there are no recover rules, and otherwise those of the recover
   rules that match, as not conflicting; a pass that is held back none.
   */
  lemma IssuedMeans(d: Decision, rules: seq<Rule>, recoverRules: seq<Rule>, s: Issue)
    ensures s in Issued(d, rules, recoverRules) <==>
            || ((d == Handle || (d == Recover && recoverRules == []))
                && exists r :: r in rules && r.verdict == Some(s.conflicting) && s.action in r.actions)
            || (d == Recover && recoverRules != [] && !s.conflicting
                && exists r :: r in recoverRules && r.verdict == Some(true) && s.action in r.actions)
  {
    IssuesCarryVerdicts(rules);
    RecoverIssuesMean(recoverRules);
  }

  /**
   A conflicting action is issued exactly when an anomaly is handled and a rule that found it has an
   action; so with PacingIsExact, two ticks that issue conflicting actions are more than the handle
   interval apart.
   */
  lemma ConflictsOnlyWhenHandled(iv: Intervals, p: Pacing, rules: seq<Rule>, recoverRules: seq<Rule>, now: int)
    ensures var d := Decide(iv, p, Tick(Matches(rules), now)).1;
            (exists s :: s in Issued(d, rules, recoverRules) && s.conflicting) <==>
            d == Handle && exists r :: r in rules && r.verdict == Some(true) && r.actions != []
  {
    IssuesCarryVerdicts(rules);
    RecoverIssuesNeverConflict(recoverRules);
    var d := Decide(iv, p, Tick(Matches(rules), now)).1;
    if d == Handle && exists r :: r in rules && r.verdict == Some(true) && r.actions != [] {
      var r :| r in rules && r.verdict == Some(true) && r.actions != [];
      assert Issue(r.actions[0], true) in IssuesOf(rules);
    }
  }
}
