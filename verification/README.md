# Caelus: a verified model of the node agent's decision logic

Caelus is a node agent that lends the idle resources of a machine to batch ("offline") jobs and takes
them back when latency-sensitive ("online") jobs suffer. This project models the stateful decisions it
makes in between, and proves what they guarantee over every input, every map iteration order and every run.
`dafny verify dfyconfig.toml` checks the whole project.

| module | part of the agent |
|---|---|
| `Detection` | the expression detector and the trimmed window of node samples it is fed |
| `PressureNotifier` | the event machine behind `memory.pressure_level` |
| `RuleCheck` | when a detected anomaly is handled and when recovery is tried |
| `Action`, `AdjustAction` | what checkers ask for, how parallel results are merged, the shape of one request |
| `Conflict` | the store of resources in conflict and its effect on the predicted resources |
| `CpuTournament`, `CpuSet`, `Topology` | choice of the CPU policy, core allocation and the memoised cpuset manager |
| `VictimSelection`, `YarnAdapter` | which YARN containers to kill, and the chain that shapes the NodeManager's capacity |
| `TimeSeries` | a sorted timeline beside a map of points |
| `Mountpoint` | the main mount of a filesystem |
| `ProjectFile`, `Text` | the two project files as printer and parser |
| `ProjectQuota`, `ProjectQuotaManager` | the four indices of the project-quota manager and its id allocator |
| `Wrappers`, `Folds`, `Sorting` | options, lookups and bounds, folds of commutative operations, sorting and duplicate-free sequences |

Code that updates fields is a class, code that loops is a method; each is tied to a function of its inputs or
of the old state, and the theorems are proved about that function. Choices the Go runtime makes (the order in
which a map is iterated or goroutines finish) are arbitrary choices in the model, so what is proved holds for
every outcome. System calls are answers passed in, which may report failure. Quantities are unbounded integers
in milli-units, sums of measurements are `real`, time is an integer.

## Properties that do not hold as one would expect

Where a property fails, its condition is proved to be necessary and sufficient.

- Clearing the quota of one path keeps the indices consistent if and only if that path is the only user of the
  id that is cleared (`ProjectQuota.ClearKeepsInvIff`); `ProjectQuota.ClearCanCutOffAnother` shows a path that is not
  even recorded cutting off another one.
- A cleaning pass over any recorded paths keeps them consistent if and only if of every id none or all paths are cleared
  (`ProjectQuota.ClearEachKeepsInvIff`); for all paths of one group, if and only if all the clears succeed or all fail
  (`ProjectQuota.ClearTogetherKeepsInvIff`). Each clear looks for the backing device of its own path, and the paths
  cleared are those that no longer exist, so some can fail; `ProjectQuota.HalfClearedGroupDisagrees` is such a group.
- A quota limit is written once, with the set that introduces the id: if that write fails, the error is returned
  but the path stays recorded, and no later set writes it (`ProjectQuota.FirstWriteDecidesLimit`).
- A share lowered by `step_percent` returns to 100 % if and only if it is 100 % already or `2hp >= 1 - p`, for a share of
  `h` hundredths and a step percent `p` (`AdjustAction.ShareComesBackIff`): the share is rounded to two decimals at
  every step. With `p = 0.9` three conflicts lose it for good.
- An update gives a result independent of the order of its formulas if and only if it does not carry both a positive
  step and a negative total (`Conflict.UpdateOrderMattersIff`).
- Repeating a subtraction repeats the flags if and only if something was predicted or nothing was flagged
  (`Conflict.SubtractAgain`).
- The sibling map is symmetric if and only if no core key has more than two processors (`Topology.SymmetricIffAtMostTwo`).
  Keys are socket and core ids put together, so it pairs only processors of one core if and only if processors with
  equal keys have equally long socket ids (`Topology.SiblingsShareCoreIff`).
- What the project files give back is what was written if and only if no path or name holds a colon, a line break or
  outer blanks and no id has an empty list of paths (`ProjectFile.PathsSurviveIff`, `ProjectFile.NamesSurviveIff`).
- The comparison of cgroup lists accepts only lists of the same cgroups if and only if the remembered list has no
  repetition (`CpuSet.ComparisonIsSoundIff`).
- A write that fails for one cgroup makes the writes for all cgroups listed after it fail, because the cores are
  handed on in a form that cpuset files do not take: a listed cgroup goes without if and only if it or one before it
  fails (`CpuSet.UnwrittenIff`).
- The cpuset manager's memory agrees with the files after a call if and only if no failed offline write leaves an old
  core count that what was written contradicts (`CpuSet.MemoryStaysSoundIff`, over runs `CpuSet.RunsSoundIff`).
  Otherwise the remembered call is skipped although it is not what the files hold (`CpuSet.FailedWriteIsForgotten`,
  for two cgroups `CpuSet.ForgottenForTwoCgroups`).
- A skipped call would have changed nothing, except exactly when a failure would have left a cgroup listed on both
  sides written for the offline side only (`CpuSet.SkippingIsHarmlessIff`).

## Model

| member | source | states |
|---|---|---|
| `Detection.ExpressionDetector.constructor` | pkg/caelus/detection/expression.go:46-60 | a new detector has seen nothing; with neither count nor duration one true sample is enough |
| `Detection.ExpressionDetector.Add` | pkg/caelus/detection/expression.go:72-81 | the two counters keep standing for the run of true sample times, extended, emptied or untouched by the new sample; a sample that is not newer changes nothing |
| `Detection.ExpressionDetector.Detect` | pkg/caelus/detection/expression.go:83-103 | true extends the run, false empties it, an evaluation without a boolean leaves it |
| `Detection.ExpressionDetector.AddAll` | pkg/caelus/detection/expression.go:106-113 | the detector forgets its run but not its parameters and ends in the state of feeding the samples one by one |
| `Detection.ExpressionDetector.IsAnomaly` | pkg/caelus/detection/expression.go:116-142 | anomalous exactly when the run is long enough or has lasted long enough; a renewing detector then starts over |
| `Detection.NodeMetricsValues` | pkg/caelus/healthcheck/rulecheck/rule_check_node.go:227-281 | the index walk returns, for exactly the samples of the window, the time and a reading: every named metric has the value the sample holds, or zero, the last metric of a name counting |
| `Detection.ParamsOfAt` | pkg/caelus/healthcheck/rulecheck/rule_check_node.go:266-276 | the parameter of a metric whose name no later one reuses is the value in the sample under its source name, or zero |
| `Detection.ReadingIsUnique` | pkg/caelus/healthcheck/rulecheck/rule_check_node.go:266-276 | a sample has only one reading |
| `Detection.TrailingRunIsLongestHotSuffix` | pkg/caelus/detection/expression.go:83-103 | the reference run is the longest suffix of samples that evaluate to true |
| `Detection.TraceIsTrailingRun` | pkg/caelus/detection/expression.go:72-113 | for every history with increasing times and an expression that is boolean once its metrics have values, the detector's state is exactly the trailing run of true samples |
| `Detection.RunIsTrueSinceFalse` | pkg/caelus/detection/expression.go:83-103 | for any expression the run holds exactly the samples found true since the last one found false, evaluations without a boolean neither extending nor ending it |
| `Detection.WindowIsSuffix` | pkg/caelus/healthcheck/rulecheck/rule_check_node.go:227-281 | the window is the suffix of the history that holds no more than the asked samples and at most one sample from before the duration, and is no shorter than these two demand |
| `Detection.WindowDecidesLikeHistory` | pkg/caelus/healthcheck/rulecheck/rule_check_node.go:227-281 | for every history, count, duration, leftover parameters and expression that is boolean once its metrics have values, the window gives the verdict the whole history would |
| `Detection.VerdictMeans` | pkg/caelus/detection/expression.go:116-142 | the verdict on a history is anomalous if and only if from some sample on every reading makes the expression true, and these samples are enough in number or last long enough |
| `Detection.DetectNode` | pkg/caelus/healthcheck/rulecheck/common.go:362-386 | one detector fed the window fires if and only if the latest samples of the whole history make its expression true often or long enough |
| `Detection.DetectRule` | pkg/caelus/healthcheck/rulecheck/common.go:362-386 | a rule fires if and only if the whole history makes one of its detectors fire, although the pass stops at the first and each sees only its window |
| `PressureNotifier.HandleEvents` | pkg/caelus/healthcheck/cgroupnotify/notify_memory.go:213-249 | the loop with counter and last tick kills at an event if and only if that event ends, in time, a window with enough events, the windows being laid end to end from the first event on |
| `PressureNotifier.KillsExactly` | pkg/caelus/healthcheck/cgroupnotify/notify_memory.go:213-249 | the kills are exactly the windows, opened one after the other, that the first event at least one duration later ends within two durations with the configured count |
| `PressureNotifier.KillsAreJustified` | pkg/caelus/healthcheck/cgroupnotify/notify_memory.go:213-249 | every kill ends a window lasting between one and two durations that holds at least the configured count of events |
| `PressureNotifier.KillsAreDisjoint` | pkg/caelus/healthcheck/cgroupnotify/notify_memory.go:213-249 | the windows of two different kills share no event |
| `PressureNotifier.KillsConsumeEvents` | pkg/caelus/healthcheck/cgroupnotify/notify_memory.go:213-249 | kills times count never exceeds the events received |
| `RuleCheck.RuleCheckEntry.CheckRule` | pkg/caelus/healthcheck/rulecheck/common.go:236-308 | the verdict, the three remembered times, the issued actions with their conflict flags and the two hold flags, for a handled, held, recovering or waiting pass |
| `RuleCheck.RuleCheckEntry.HandleRecover` | pkg/caelus/healthcheck/rulecheck/common.go:310-336 | the recover rules that match issue their actions as not conflicting; none match, none issued |
| `Action.MergeActions` | pkg/caelus/healthcheck/rulecheck/common.go:339-360 | the result of a check is the fold of the results of its actions that did not fail |
| `RuleCheck.PacingIsExact` | pkg/caelus/healthcheck/rulecheck/common.go:236-308 | over every run with a non-decreasing clock, an anomaly is handled if and only if it is more than the handle interval after every handled one before, and recovery is tried if and only if it is more than the recover interval after every abnormal observation and every recovery before |
| `RuleCheck.IssuesCarryVerdicts` | pkg/caelus/healthcheck/rulecheck/common.go:244-264 | an action is issued with a flag if and only if some rule lists it and gave that verdict |
| `RuleCheck.IssuedMeans` | pkg/caelus/healthcheck/rulecheck/common.go:281-308 | exactly which actions a handled, recovering or held pass issues, and with which flag |
| `RuleCheck.ConflictsOnlyWhenHandled` | pkg/caelus/healthcheck/rulecheck/common.go:236-308 | a conflicting action is issued if and only if the anomaly is handled and a matching rule has an action |
| `CpuTournament.CpuAdaptive.Tick` | pkg/caelus/qos/manager/manage_cpu.go:87-163 | every timer event keeps the state in agreement with the log of readings; the policy is final if and only if one was the leftmost minimum of the last 5 rounds, and it is the one in charge |
| `CpuTournament.CpuAdaptive.TakeReading` | pkg/caelus/qos/manager/manage_cpu.go:123-126 | the reading enters the current round, or completes it |
| `CpuTournament.CpuAdaptive.CloseRound` | pkg/caelus/qos/manager/manage_cpu.go:127-153 | the completed round is recorded whole and the next one starts with its winner |
| `CpuTournament.FindMin` | pkg/caelus/qos/manager/manage_cpu.go:129-136 | the scan finds the leftmost minimum |
| `CpuTournament.ReadingTaken` | pkg/caelus/qos/manager/manage_cpu.go:123-126 | the round is complete exactly when the next candidate is the starter; then each candidate was read exactly once in it, so only readings of this round are compared |
| `CpuTournament.ReadingIsFiled` | pkg/caelus/qos/manager/manage_cpu.go:123-127 | a reading joins the round under way, and the last of n completes it with the readings of all candidates in turn, from the winner of the round before on |
| `CpuTournament.RoundClosed` | pkg/caelus/qos/manager/manage_cpu.go:127-153 | counting wins keeps the win counter equal to the streak of the recorded rounds |
| `CpuTournament.StreakIsConsecutiveWins` | pkg/caelus/qos/manager/manage_cpu.go:137-149 | the streak is at least k if and only if one policy was the leftmost minimum in the last k rounds |
| `CpuTournament.FinalIsFiveWins` | pkg/caelus/qos/manager/manage_cpu.go:137-144 | the threshold is met if and only if one policy won the last five rounds, and it is the last winner |
| `Action.MergeByLittleLaws` | pkg/caelus/healthcheck/action/action.go:64-88 | taking the lesser quantities is idempotent, commutative and associative on requests of one name |
| `Action.PodKeyInjective` | pkg/caelus/healthcheck/action/action.go:185-199 | the key by which evicted pods are compared identifies a pod |
| `Action.JoinCommutative` | pkg/caelus/healthcheck/action/action.go:157-211 | merging two results is commutative and idempotent and keeps one name per key |
| `Action.JoinAssociative` | pkg/caelus/healthcheck/action/action.go:157-211 | merging three results is associative |
| `Action.ActionResult.Merge` | pkg/caelus/healthcheck/action/action.go:157-211 | the receiver ends with the join of flags, unschedule map, adjustments, messages and pods, and only appends to its lists |
| `Action.AppendNew` | pkg/caelus/healthcheck/action/action.go:160-172 | the union of the messages, the old ones first, the new ones without repetition |
| `Action.MergeUnschedule` | pkg/caelus/healthcheck/action/action.go:174-183 | for every iteration order the pointwise disjunction of the two maps |
| `Action.MergeAdjust` | pkg/caelus/healthcheck/action/action.go:201-210 | for every iteration order the pointwise merge of the two maps |
| `Action.RunRound` | pkg/caelus/healthcheck/rulecheck/rule_check.go:82-100 | merging the finished checkers into the shared result is the fold of their results |
| `Action.RoundOrderIrrelevant` | pkg/caelus/healthcheck/rulecheck/rule_check.go:82-100 | the result of a round is the same for every order in which the checkers finish |
| `Action.RoundMeans` | pkg/caelus/healthcheck/action/action.go:157-172 | a round wants a sync if and only if some result does, and has exactly the messages and pods that some result has |
| `Action.RoundUnschedules` | pkg/caelus/healthcheck/action/action.go:174-183 | a round stops scheduling for a key if and only if some result does |
| `Action.RoundAdjusts` | pkg/caelus/healthcheck/action/action.go:201-210 | a resource is adjusted if and only if some result adjusts it, and in conflict if and only if some result says so |
| `Action.RoundAsksLeast` | pkg/caelus/healthcheck/action/action.go:64-88 | per resource and formula a round asks for at most q if and only if some result does, so for the least |
| `AdjustAction.AdjustResource.Generate` | pkg/caelus/healthcheck/action/action_adjust.go:163-198 | for every step percent but 1, the sign, formula and size of the request and the new share, for step, step percent, neither, and a self-defined handler; with a percent in [0, 1) the share stays in range and the request has at most one formula, positive only as a recovering step |
| `AdjustAction.MemoryConflict` | pkg/caelus/healthcheck/rulecheck/rule_check_node.go:193-224 | a request is made exactly in conflict when the available memory is known and below the reserve, as a negative total of exactly what is missing |
| `AdjustAction.RatioIsNearest` | pkg/caelus/healthcheck/action/action_adjust.go:183-191 | a conflict leaves 1 - p of the share and a recovery divides it by that, up to full, each to the nearest hundredth |
| `AdjustAction.GrowsIffStepSurvives` | pkg/caelus/healthcheck/action/action_adjust.go:183-191 | a recovery step raises the rounded share if and only if `2hp >= 1 - p` |
| `AdjustAction.ShareComesBackIff` | pkg/caelus/healthcheck/action/action_adjust.go:183-191 | some number of recovery steps restores the full share if and only if it is full or `2hp >= 1 - p` |
| `AdjustAction.ShareLostForGood` | pkg/caelus/healthcheck/action/action_evict.go:38-40 | with a step percent of 0.9, three conflicts bring the share to a zero that no number of recoveries leaves |
| `Conflict.Manager.UpdateConflictList` | pkg/caelus/healthcheck/conflict/conflict.go:51-128 | for every iteration order each stored entry follows from the old one and the update, and a change is reported if and only if some key reports one |
| `Conflict.InOrderUpdates` | pkg/caelus/healthcheck/conflict/conflict.go:51-128 | whatever the visiting order was, the outcome is one that the runs below allow |
| `Conflict.UnreportedChangesNothing` | pkg/caelus/healthcheck/conflict/conflict.go:59-117 | a key without a report keeps every quantity that takes something away |
| `Conflict.ReportedIsChangedIff` | pkg/caelus/healthcheck/conflict/conflict.go:68-117 | for generated requests a report on a stored entry means that such a quantity changed, except exactly for a zero share where none is stored and a recovery that meets only a total of zero |
| `Conflict.UpdateQuantities` | pkg/caelus/healthcheck/conflict/conflict.go:68-117 | the three formulas applied in either order give the closed form of the new quantities and of the report |
| `Conflict.UpdateMeans` | pkg/caelus/healthcheck/conflict/conflict.go:68-117 | formula by formula, which quantity is stored after an update: the sum of the steps, the replaced total or percent, the relieved total, each only while negative |
| `Conflict.EntryMeans` | pkg/caelus/healthcheck/conflict/conflict.go:57-66 | a key enters the store if and only if it is in conflict or takes something away, and leaves it with its last quantity |
| `Conflict.ConflictsAccumulate` | pkg/caelus/healthcheck/conflict/conflict.go:68-117 | over every run of updates, n conflicts of size q take n times q more |
| `Conflict.ApplyStep` | pkg/caelus/healthcheck/conflict/conflict.go:71-98 | a step accumulates, a positive one also relieves the total, and what is no longer negative is dropped |
| `Conflict.ApplyReplace` | pkg/caelus/healthcheck/conflict/conflict.go:99-110 | a total or percent replaces the stored one, or removes it when not negative, and touches no other |
| `Conflict.UpdateOrderMattersIff` | pkg/caelus/healthcheck/conflict/conflict.go:68-117 | the two orders of step and total differ if and only if the update has both a positive step and a negative total |
| `Conflict.Manager.MergeConflictResource` | pkg/caelus/healthcheck/conflict/conflict.go:149-225 | for every iteration order the merged amount of each resource is the least effective quantity aimed at it, present only when negative; its flag is set exactly when a conflicting entry takes something; stored quantities are clamped to the prediction |
| `Conflict.MergeQuantities` | pkg/caelus/healthcheck/conflict/conflict.go:170-201 | for every order of the formulas, the least of zero and the effective step, total and percent, and the clamped quantities |
| `Conflict.TakesIsEffective` | pkg/caelus/healthcheck/conflict/conflict.go:175-200 | a share v of prediction P takes t with 1000t <= -Pv < 1000t + 1000, a step or total what it is below zero |
| `Conflict.Manager.CheckAndSubConflictResource` | pkg/caelus/healthcheck/conflict/conflict.go:131-147 | each predicted amount P becomes max(0, P - t) for the most t that any stored quantity aimed at the resource takes from it, and is flagged if and only if t is not zero, as a conflict if and only if an entry in conflict takes something |
| `Conflict.SubtractionMeans` | pkg/caelus/healthcheck/conflict/conflict.go:131-225 | whatever the iteration order, the resource loses the most that a stored quantity aimed at it takes |
| `Conflict.HalfIsTaken` | pkg/caelus/healthcheck/conflict/conflict.go:193-200 | a share of -500 aimed at a resource predicted at 10000 leaves 5000 and flags a conflict |
| `Conflict.AdjustedIsDetermined` | pkg/caelus/healthcheck/conflict/conflict.go:131-225 | so the adjusted amount is max(0, P + m) whatever the iteration order was |
| `Conflict.SubtractAgain` | pkg/caelus/healthcheck/conflict/conflict.go:177-193 | a repeated call on the same prediction gives the same amount although the stored quantities were clamped, and the same flag if and only if something was predicted or nothing was flagged |
| `Conflict.UpdateKeepsNonPositiveIff` | pkg/caelus/healthcheck/conflict/conflict.go:51-128 | an update keeps all stored quantities non-positive if and only if no new negative entry carries a positive quantity |
| `Conflict.RunsStayNonPositive` | pkg/caelus/healthcheck/conflict/conflict.go:51-225 | in every run of updates with generated requests and subtractions, from the empty store, no stored quantity is ever positive |
| `Conflict.RecoveryCancels` | pkg/caelus/healthcheck/conflict/conflict.go:177-193 | after a subtraction against P, n recovery steps of size q, interleaved with further subtractions and updates of other keys, leave at most max(0, P - nq) taken by step and total, so ceil(P/q) of them cancel both |
| `Topology.GenerateThreadSiblings` | pkg/caelus/util/cgroup/topology.go:31-55 | for distinct processors the map pairs the first and the last processor of every core key, and the ones in between with the first; for any list it names only listed processors |
| `Topology.KeyTellsCoresApartIff` | pkg/caelus/util/cgroup/topology.go:31-55 | processors with equal keys are on one core if and only if their socket ids are equally long |
| `Topology.KeysCanClash` | pkg/caelus/util/cgroup/topology.go:31-55 | the keys of core 11 of socket 1 and core 1 of socket 11 are equal |
| `Topology.SiblingsShareCoreIff` | pkg/caelus/util/cgroup/topology.go:31-55 | the sibling map pairs only processors of one core if and only if processors with equal keys have equally long socket ids |
| `Topology.SymmetricIffAtMostTwo` | pkg/caelus/util/cgroup/topology.go:31-55 | that map is symmetric if and only if no core key has three processors |
| `Topology.SiblingsMean` | pkg/caelus/util/cgroup/topology.go:31-55 | a processor has a sibling if and only if another one has its ids put together, and two that are alone with theirs are each other's |
| `Topology.ChooseNumaCores` | pkg/caelus/util/cgroup/topology.go:58-110 | the descending loop returns the first n cores of one pick order and the others in ascending order, and leaves its argument sorted unless n is zero |
| `Topology.PickUpTo` | pkg/caelus/util/cgroup/topology.go:75-101 | stopping at n picks gives the first n of the full pick order |
| `Topology.ChoiceIsPartition` | pkg/caelus/util/cgroup/topology.go:58-110 | chosen and left partition the cores, with exactly min(n, total) chosen |
| `Topology.ChoiceGrows` | pkg/caelus/util/cgroup/topology.go:58-110 | the choice for n is a prefix of the choice for n + 1 |
| `Topology.HighestFirst` | pkg/caelus/util/cgroup/topology.go:67-101 | a chosen core is higher than every core left, or it is the sibling of a chosen one that is; the cores left are in ascending order |
| `Topology.AtMostOnePairParted` | pkg/caelus/util/cgroup/topology.go:75-101 | with a symmetric map at most one sibling pair is split between chosen and left |
| `CpuSet.QosCpuSet.Manage` | pkg/caelus/qos/manager/manage_cpu.go:370-447 | whichever writes fail, the files, the memory and the result after a call; the memory stays sound exactly unless a failed offline write leaves an old core count that the files contradict; with a sound memory the cgroups end as with a manager that always writes; after a successful call for n > 0 cores without failing writes every offline cgroup holds min(n, unreserved) unreserved cores and, when isolating, every online cgroup exactly all the other root cores and the reserved ones |
| `CpuSet.QosCpuSet.Write` | pkg/caelus/qos/manager/manage_cpu.go:412-446 | whichever writes fail, both shares are in the files of the cgroups listed before the first failing one, the memory follows, and it fails exactly when isolation leaves online jobs no core |
| `CpuSet.ManageRun` | pkg/caelus/qos/manager/manage_cpu.go:370-447 | over every run of calls whose offline writes succeed the cgroups end as in a run of the always-writing manager |
| `CpuSet.SkippingIsHarmlessIff` | pkg/caelus/qos/manager/manage_cpu.go:377-385 | when the memo says skip, writing would change nothing whichever writes would fail, except exactly when a failure would leave a cgroup that is listed on both sides written for the offline side only |
| `CpuSet.MemoryStaysSoundIff` | pkg/caelus/qos/manager/manage_cpu.go:370-447 | whichever writes fail, with and without isolation, the memory agrees with the files after a call if and only if the call does not keep an old core count after a failed offline write, or what it wrote agrees with that count |
| `CpuSet.FailedWriteIsForgotten` | pkg/caelus/qos/manager/manage_cpu.go:377-446 | otherwise repeating the remembered call is skipped although writing it would change the files |
| `CpuSet.SoundIffRepeatingIsHarmless` | pkg/caelus/qos/manager/manage_cpu.go:377-385 | the remembered call is always skipped, and the memory is sound if and only if writing that call would change nothing |
| `CpuSet.RunsSoundIff` | pkg/caelus/qos/manager/manage_cpu.go:370-447 | over every run of calls with duplicate-free lists and a fixed root, whichever writes fail, the memory is sound all along if and only if no step leaves an old core count that the files contradict |
| `CpuSet.ForgottenForTwoCgroups` | pkg/caelus/qos/manager/manage_cpu.go:412-424 | two cgroups and two cores: after a failed write for one cgroup, going back to one core is skipped and the other keeps both |
| `CpuSet.SkippedIsIsolated` | pkg/caelus/qos/manager/manage_cpu.go:377-385 | a skipped call finds its cgroups isolated |
| `CpuSet.EqualPathsIsSetEquality` | pkg/caelus/qos/manager/manage_cpu.go:564-581 | against a remembered list without repetitions the comparison accepts only lists of the same cgroups |
| `CpuSet.RepetitionFoolsEqualPaths` | pkg/caelus/qos/manager/manage_cpu.go:564-581 | for every list with a repeated entry there is a list of other cgroups that the comparison accepts |
| `CpuSet.ComparisonIsSoundIff` | pkg/caelus/qos/manager/manage_cpu.go:564-581 | the comparison accepts only lists of the same cgroups if and only if the remembered list has no repetition |
| `CpuSet.SharesAreDisjoint` | pkg/caelus/qos/manager/manage_cpu.go:394-432 | the offline share meets neither the reserved cores nor the online share |
| `CpuSet.SharesDivide` | pkg/caelus/qos/manager/manage_cpu.go:388-432 | of n > 0 cores asked for, offline jobs get min(n, unreserved root cores) unreserved root cores, and online jobs exactly the root cores they did not get and the reserved ones |
| `CpuSet.RepetitionIsSkipped` | pkg/caelus/qos/manager/manage_cpu.go:377-424 | after a call whose writes all succeed the same call is skipped |
| `CpuSet.WrittenIsIsolated` | pkg/caelus/qos/manager/manage_cpu.go:394-446 | what is written for disjoint cgroup lists isolates them |
| `CpuSet.SetCoresForCgroups` | pkg/caelus/qos/manager/manage_cpu.go:599-619 | exactly the cgroups listed before the first failing one hold the cores, the error count is the number of the others, and it is zero if and only if every listed cgroup can be written |
| `CpuSet.UnwrittenIff` | pkg/caelus/qos/manager/manage_cpu.go:599-619 | a listed cgroup goes without the cores if and only if it or one listed before it fails |
| `CpuSet.OnlyTheFirstFormIsTaken` | pkg/caelus/qos/manager/manage_cpu.go:608-612 | cores separated by commas make a core list, and cores as Go prints a slice, handed on after a failure, do not |
| `CpuSet.FailureSpoilsTheNext` | pkg/caelus/qos/manager/manage_cpu.go:599-619 | of two cgroups of which the first fails the second, which could be written, is not |
| `CpuSet.Divide` | pkg/caelus/qos/manager/manage_cpu.go:394-403 | reserved cores are set aside before the choice |
| `VictimSelection.KillContainersWithStats` | pkg/caelus/resource/yarn/ginit.go:422-483 | victims are a prefix of the killable running containers; among equals in role no survivor that could be killed uses more memory in a memory conflict, more CPU in a CPU conflict or is younger otherwise; they end with the four totals of the survivors within the capacity (and at least one victim in a conflict) or with every killable one picked; one fewer would not have sufficed; a master is picked only after every killable other; the kill requests name the victims and nobody else |
| `VictimSelection.PickVictims` | pkg/caelus/resource/yarn/ginit.go:441-469 | the loop picks the shortest prefix that suffices and its four running totals are the totals less the victims |
| `VictimSelection.RequestKills` | pkg/caelus/resource/yarn/ginit.go:471-481 | one request per victim, each naming all victims up to it |
| `VictimSelection.GetContainerResource` | pkg/caelus/resource/yarn/ginit.go:486-528 | the running containers with their measurements, and totals equal to their sum plus the allocations of those starting |
| `VictimSelection.RunningMeans` | pkg/caelus/resource/yarn/ginit.go:497-518 | the candidates are exactly the running containers, with measured memory, CPU and start time where there are measurements |
| `VictimSelection.RunningCount` | pkg/caelus/resource/yarn/ginit.go:497-518 | each running container is a candidate once |
| `VictimSelection.TotalsGrow` | pkg/caelus/resource/yarn/ginit.go:497-524 | one more container adds exactly its own numbers to the four totals, and one that is starting only its allocation |
| `VictimSelection.LessIsStrictWeakOrder` | pkg/caelus/resource/yarn/container_sort.go:35-101 | each of the three orders is irreflexive, asymmetric, transitive and has transitive incomparability |
| `VictimSelection.SortContainers` | pkg/caelus/resource/yarn/ginit.go:426-432 | sorting by the conflict's order gives a sorted permutation |
| `VictimSelection.MastersGoLast` | pkg/caelus/resource/yarn/container_sort.go:35-101 | if a picked prefix holds a master it holds every killable non-master |
| `VictimSelection.HeaviestGoFirst` | pkg/caelus/resource/yarn/container_sort.go:60-101 | among equals in role no surviving killable container weighs more than a victim in the contested resource, and on a tie none started later |
| `VictimSelection.ConflictDecides` | pkg/caelus/resource/yarn/ginit.go:426-432 | a memory conflict picks by memory, a CPU conflict by CPU and any other case by age |
| `VictimSelection.ShortestIsTight` | pkg/caelus/resource/yarn/ginit.go:441-469 | the shortest prefix suffices or is everything, and with two or more victims all but the last would not have sufficed |
| `VictimSelection.TotalsAreSurvivors` | pkg/caelus/resource/yarn/ginit.go:441-469 | the totals less the victims are the sum over everything not picked |
| `VictimSelection.SumPermutation` | pkg/caelus/resource/yarn/ginit.go:426-432 | sorting does not change the four totals |
| `TimeSeries.Series.Add` | pkg/caelus/cpi/time_series.go:35-39 | the point is stored, and the timeline stays sorted with exactly the map's keys |
| `TimeSeries.Series.RangeSearch` | pkg/caelus/cpi/time_series.go:47-75 | nil exactly when the range is inverted or starts after every point; otherwise exactly the map restricted to the range |
| `TimeSeries.Series.Expire` | pkg/caelus/cpi/time_series.go:91-104 | exactly the points before the deadline are removed from both structures |
| `TimeSeries.SliceIsRange` | pkg/caelus/cpi/time_series.go:47-75 | the slice between the two binary searches holds exactly the times in the range, even with repeated timestamps |
| `TimeSeries.Run` | pkg/caelus/cpi/time_series.go:35-104 | after every sequence of add and expire the timeline is sorted with exactly the map's keys |
| `TimeSeries.LastOperationDecides` | pkg/caelus/cpi/time_series.go:35-104 | a time is present if and only if the last operation concerning it added it, with that operation's value |
| `YarnAdapter.ResourceList.CompareAndReplaceMin` | pkg/caelus/resource/yarn/adapter.go:202-216 | amounts at or below the minimum are raised to it, and this is reported |
| `YarnAdapter.ResourceList.ResourceAdapt` | pkg/caelus/resource/yarn/adapter.go:51-194 | each of the five adapters shapes the amounts and then compares with the minimum, except a disabled overcommit, which does nothing |
| `YarnAdapter.ResourceList.BeCapacity` | pkg/caelus/resource/resource_yarn.go:249-258 | for every chain, the minimum is reported exactly when some stage of the pure shaping meets it, and the loop stops at the first that does |
| `YarnAdapter.AdaptResources` | pkg/caelus/resource/resource_yarn.go:73-81 | the five adapters end with both amounts at or above the minimum and report it exactly when one of them equals it |
| `YarnAdapter.UnreportedAmounts` | pkg/caelus/resource/yarn/adapter.go:51-194 | when the minimum is not reported, memory is the largest multiple of the round-off within the input less the reserve, and CPU the same of the overcommitted input, or the known disk-derived cores if those are fewer |
| `YarnAdapter.OverCommittedMeans` | pkg/caelus/resource/yarn/adapter.go:89-104 | the overcommitted CPU is the whole milli-cores of the product, or the input when disabled |
| `YarnAdapter.RoundedOffBounds` | pkg/caelus/resource/yarn/adapter.go:130-148 | rounding off a non-negative amount gives the largest multiple that is no larger |
| `Mountpoint.FindMainMount` | pkg/caelus/util/mountpoint/mountpoint.go:151-223 | for every iteration order, nil exactly when no root tree mounts all uncontained subtrees or eligible roots differ in subtree; otherwise an eligible root, read-only only if all eligible roots are |
| `Mountpoint.ByPathHoldsAll` | pkg/caelus/util/mountpoint/mountpoint.go:152-161 | with distinct paths exactly the listed mounts are indexed, each under its path |
| `Mountpoint.Choose` | pkg/caelus/util/mountpoint/mountpoint.go:191-222 | the scan of the roots makes that choice |
| `Mountpoint.Covers` | pkg/caelus/util/mountpoint/mountpoint.go:191-203 | counting the collected subtrees decides whether a root is eligible |
| `Mountpoint.Forest.Link` | pkg/caelus/util/mountpoint/mountpoint.go:163-172 | every node is linked to the nearest mount above it, in both directions, or is a root |
| `Mountpoint.Forest.Nearest` | pkg/caelus/util/mountpoint/mountpoint.go:163-172 | walking up the directories finds the nearest mount above, or shows there is none |
| `Mountpoint.Forest.AddUncontained` | pkg/caelus/util/mountpoint/mountpoint.go:263-271 | the recursion terminates and adds exactly the uncontained subtrees mounted at or below the node |
| `Mountpoint.UncontainedSubtrees` | pkg/caelus/util/mountpoint/mountpoint.go:174-186 | exactly the subtrees with no other subtree strictly above them |
| `Mountpoint.BelowAChild` | pkg/caelus/util/mountpoint/mountpoint.go:163-172 | everything mounted below a node is at or below one of its children |
| `Text.AtoiOfDecimal` | pkg/caelus/diskquota/manager/projectquota/projectfile.go:67-73 | parsing the decimal form of an id gives the id |
| `Text.LinesConcat` | pkg/caelus/diskquota/manager/projectquota/projectfile.go:164-180 | scanning lines distributes over texts that end with a line break |
| `ProjectFile.UpdateProjects` | pkg/caelus/diskquota/manager/projectquota/projectfile.go:110-130 | one line per path, ids in an arbitrary order, each id once |
| `ProjectFile.UpdateProjIds` | pkg/caelus/diskquota/manager/projectquota/projectfile.go:133-150 | one line per id, in an arbitrary order, each id once |
| `ProjectFile.DumpProjectIds` | pkg/caelus/diskquota/manager/projectquota/projectfile.go:62-107 | lines without exactly two fields or without a number are skipped, the others fill the two maps in order |
| `ProjectFile.MalformedIsSkipped` | pkg/caelus/diskquota/manager/projectquota/projectfile.go:164-180 | a line without exactly one colon, or without a number where the id belongs, changes nothing |
| `ProjectFile.FormatsByExample` | pkg/caelus/diskquota/manager/projectquota/projectfile.go:110-150 | the lines for a path and for a name, by example |
| `ProjectFile.PathsSurviveIff` | pkg/caelus/diskquota/manager/projectquota/projectfile.go:62-130 | for every writing order the same id-to-paths map is read back if and only if all paths are clean and no list is empty |
| `ProjectFile.NamesSurviveIff` | pkg/caelus/diskquota/manager/projectquota/projectfile.go:133-180 | for every writing order the same id-to-name map is read back if and only if all names are clean |
| `ProjectFile.SaveAndLoad` | pkg/caelus/diskquota/manager/projectquota/projectfile.go:62-150 | the round trip through both files, with the same exact conditions |
| `ProjectQuota.SearchFindsLeastFree` | pkg/caelus/diskquota/manager/projectquota/projectquota.go:489-528 | the id found is the least one from the start that is neither recorded nor in use on the device, within recorded ids plus searches left |
| `ProjectQuota.SearchExactly` | pkg/caelus/diskquota/manager/projectquota/projectquota.go:489-528 | with a device, the search ends at the first unrecorded id that is not busy, or at one unrecorded busy id too many, and gives that id exactly if it is free |
| `ProjectQuota.GivesUpIff` | pkg/caelus/diskquota/manager/projectquota/projectquota.go:489-528 | it gives up if and only if there is no device, it meets an error, or more than 256 unrecorded busy ids come first |
| `ProjectQuota.AllocateProjectID` | pkg/caelus/diskquota/manager/projectquota/projectquota.go:489-528 | an id is returned if and only if the search has one to offer, and it is that one, unrecorded and in [1048577, 1048577 + recorded ids + 256]; at most recorded ids + 257 ids are examined |
| `ProjectQuota.SharedIdIffSameGroup` | pkg/caelus/diskquota/manager/projectquota/projectquota.go:355-486 | in a consistent state two paths have one id if and only if they are equal or members of one group, and the two path indices are inverse |
| `ProjectQuota.SetKeepsInv` | pkg/caelus/diskquota/manager/projectquota/projectquota.go:172-210 | setting a quota keeps the four indices consistent whatever the system calls answer |
| `ProjectQuota.SetRecordsIff` | pkg/caelus/diskquota/manager/projectquota/projectquota.go:172-210 | setting an unrecorded path records it with an id if and only if there is a device and the id is its group's and can be bound, or its own unrecorded one, or the one the search offers and can be bound |
| `ProjectQuota.NewIdIsNamed` | pkg/caelus/diskquota/manager/projectquota/projectquota.go:355-486 | a new id has the path alone and the name made of volume type and id, or of volume type and group |
| `ProjectQuota.MemberJoins` | pkg/caelus/diskquota/manager/projectquota/projectquota.go:392-419 | a path that joins a group is added to the paths of its id and nothing else changes |
| `ProjectQuota.ClearKeepsInvIff` | pkg/caelus/diskquota/manager/projectquota/projectquota.go:213-253 | clearing keeps them consistent if and only if nothing is cleared or the path is the only user of the id |
| `ProjectQuota.ClearCanCutOffAnother` | pkg/caelus/diskquota/manager/projectquota/projectquota.go:213-253 | an unrecorded path can make the indices inconsistent |
| `ProjectQuota.ClearTogetherKeepsInvIff` | pkg/caelus/diskquota/manager/projectquota/projectquota.go:213-253 | clearing all paths of an id, in any order and each with answers of its own, keeps the indices consistent if and only if all the clears succeed or all fail |
| `ProjectQuota.ClearEachKeepsInvIff` | pkg/caelus/diskquota/manager/projectquota/projectquota.go:213-253 | clearing any recorded paths, of any ids and in any order, each with answers of its own, keeps the indices consistent if and only if of every id none or all of the paths are cleared |
| `ProjectQuota.HalfClearedGroupDisagrees` | pkg/caelus/diskquota/manager/projectquota/projectquota.go:213-253 | a group of two where one path has no device left: that path keeps an id that is gone |
| `ProjectQuota.RunsKeepInvIff` | pkg/caelus/diskquota/manager/projectquota/projectquota.go:172-253 | in every run of sets, clears and cleaning passes with fixed sharing modes, whatever each system call answers, the indices stay consistent all along if and only if no step clears some but not all paths of an id |
| `ProjectQuota.NewIdIsFresh` | pkg/caelus/diskquota/manager/projectquota/projectquota.go:172-210 | an id for which SetQuota writes a limit was not recorded before and belongs to the path afterwards |
| `ProjectQuota.RecordedLimitStays` | pkg/caelus/diskquota/manager/projectquota/projectquota.go:172-253 | no step writes or lifts the limit of an id that is recorded before and after it |
| `ProjectQuota.FirstWriteDecidesLimit` | pkg/caelus/diskquota/manager/projectquota/projectquota.go:196-209 | over every run, an id without a limit has one if and only if the write with the set that introduced it succeeds, for as long as it stays recorded |
| `ProjectQuota.LoadedFilesAgree` | pkg/caelus/diskquota/manager/projectquota/projectquota.go:125-152 | reverse maps built from consistent files in any order give a consistent state |
| `ProjectQuota.RestartKeepsIds` | pkg/caelus/diskquota/manager/projectquota/projectquota.go:125-152 | rebuilding the reverse maps of a consistent state gives every path its id back |
| `ProjectQuotaManager.Manager.constructor` | pkg/caelus/diskquota/manager/projectquota/projectquota.go:125-152 | the two reverse maps invert the maps read, for every iteration order |
| `ProjectQuotaManager.Manager.FindOrCreateProjectId` | pkg/caelus/diskquota/manager/projectquota/projectquota.go:422-486 | the maps, the files and the id for a known path, a lookup without creation, an id taken over from the filesystem, an allocated id, and each failure |
| `ProjectQuotaManager.Manager.BindProjectId` | pkg/caelus/diskquota/manager/projectquota/projectquota.go:392-419 | the path joins the id unless it already has it or the system call fails |
| `ProjectQuotaManager.Manager.FindOrCreateSharedProjectId` | pkg/caelus/diskquota/manager/projectquota/projectquota.go:355-389 | the path joins its group's id, or its own id becomes the group's; the files follow the maps |
| `ProjectQuotaManager.Manager.SetQuota` | pkg/caelus/diskquota/manager/projectquota/projectquota.go:172-210 | the maps, the limits and the files after setting, and exactly when an error is returned; the only error that leaves the maps changed is a failed write of the limit |
| `ProjectQuotaManager.Manager.ClearQuota` | pkg/caelus/diskquota/manager/projectquota/projectquota.go:213-253 | the maps, the limits and the files after clearing; a failure leaves the maps unchanged, a success removes the path |
| `ProjectQuotaManager.Restart` | pkg/caelus/diskquota/manager/projectquota/projectquota.go:125-152 | a manager restarted from the files its predecessor wrote is consistent and gives every path the same id |

## Left out

- HTTP servers and clients, YARN commands, alarms, Kubernetes informers and node status: plumbing over libraries.
- cgroup, netlink, quotactl and epoll calls: only whether they succeed and what they answer is modelled.
- The EWMA detector, usage prediction, `contrib/lighthouse`, XML handling in nm-operator and configuration defaults.
- Floating-point rounding: expressions, percentages and sums are exact; the two-decimal rounding of the share is modelled.
- `AdjustResourceAction.DoAction`: the naming of keys and the rotating index over several resources.
- `beCapacity` after the adapter chain, `getRangeResource`, `timeSeries.normalize` and the memory usage notifier: easy members.
- The path rewriting used outside the host mount namespace, in project files and mounts.
- The limit of 64 KiB on a line that is scanned.
- The store that trims node samples before the window is taken; averaging the metric values into one reading of the tournament.
- What the kill requests do, the size of a limit and creating backing devices.
- Detection.DetectRule: the detectors of a rule are distinct objects, as they are when rules are parsed; alarms sent are left out.
- CpuSet.QosCpuSet.Manage: what it says about the memory and the always-writing manager is for duplicate-free lists and a fixed root cpuset.
- CpuSet.ManageRun: equality with the always-writing manager over a run is for offline writes that succeed and cgroups listed on one side; `CpuSet.RunsSoundIff` covers the other runs.
- Conflict.RecoveryCancels: recoveries carry only a step, as generated; percent quantities are replaced and not accumulated, so it says nothing about them.
- Topology.GenerateThreadSiblings: says which sibling a processor gets only when each processor is listed once.
- YarnAdapter.UnreportedAmounts: assumes a non-negative minimum, as the minimum capacity is; round-offs are integral.
- Mountpoint.FindMainMount: assumes distinct mount paths, as the caller's index by path ensures; tree nodes are identified by path and not by reference, so aliasing of nodes is not modelled.
- ProjectQuota.AllocateProjectID: assumes fewer recorded ids than would make the 32-bit id wrap around.
- ProjectQuota.SetKeepsInv: assumes that volume types hold no slash and group names, being pod keys, hold one.
- ProjectQuota.RunsKeepInvIff: a path keeps its sharing mode, and a cleaning pass clears recorded paths, each once.
- AdjustAction.AdjustResource.Generate: a step percent of exactly 1 divides by zero and is left out; a negative step does not survive the parsing of the configuration.
- ProjectQuotaManager.Restart: for files that could be written and hold clean paths and names.
- CpuSet.OnlyTheFirstFormIsTaken: that a cpuset file refuses a text with other characters than digits, commas and hyphens is taken from the kernel, not proved.
