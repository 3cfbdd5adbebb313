/**
 The cpuset manager for offline and online cgroups (qosCpuSet, qos/manager/manage_cpu.go:304-447, 554-619):
 it remembers what it wrote last and skips calls that would write the same again.
 */
module CpuSet {
  import opened Wrappers
  import opened Sorting
  import opened Text
  import opened Topology

  /** The cores written to the cpuset.cpus file of each cgroup. */
  type CoreFiles = map<string, seq<int>>

  datatype Config = Config(onlineIsolate: bool, reserved: seq<int>, siblings: Siblings)

  /** One call: milli-cores for offline jobs, and the cgroups of both sides. */
  datatype Call = Call(offlineMilli: Option<int>, offline: seq<string>, online: seq<string>)

  /** How the system answers: the root cpuset, whether the quota can be reset, and which files cannot be written. */
  datatype Answers = Answers(root: Option<seq<int>>, quotaOk: bool, failing: set<string>)

  /** The whole cores in a number of milli-cores. */
  function OfflineCores(milli: Option<int>): (n: int)
    ensures milli.None? ==> n == 0
    ensures milli.Some? && milli.value >= 0 ==> 1000 * n <= milli.value < 1000 * n + 1000
    ensures milli.Some? && milli.value < 0 ==> 1000 * n - 1000 < milli.value <= 1000 * n
  {
    if milli.None? then 0 else Quotient(milli.value, 1000)
  }

  /** The cores for offline and for online jobs when n cores are asked for. */
  function OfflineShare(cfg: Config, root: seq<int>, n: int): seq<int> {
    Chosen(Remaining(root, cfg.reserved), cfg.siblings, n)
  }

  function OnlineShare(cfg: Config, root: seq<int>, n: int): seq<int> {
    Left(Remaining(root, cfg.reserved), cfg.siblings, n) + cfg.reserved
  }

  function WriteAll(files: CoreFiles, cgs: set<string>, cores: seq<int>): (r: CoreFiles)
    ensures r.Keys == files.Keys + cgs
    ensures forall cg :: cg in r ==> r[cg] == if cg in cgs then cores else files[cg]
  {
    files + map cg | cg in cgs :: cores
  }

  // ---------------------------------------------------------------- writing a list of cgroups

  ghost predicate Writable(cgs: seq<string>, failing: set<string>) {
    Elements(cgs) !! failing
  }

  /** The place of the first cgroup that cannot be written. */
  function FirstFailing(cgs: seq<string>, failing: set<string>): (i: nat)
    ensures i <= |cgs| && (i < |cgs| ==> cgs[i] in failing)
    ensures forall j :: 0 <= j < i ==> cgs[j] !in failing
  {
    if cgs == [] then 0
    else
      var n := |cgs| - 1;
      var i := FirstFailing(cgs[..n], failing);
      if i == n && cgs[n] !in failing then n + 1 else i
  }

  /** The cgroups that get the cores: those listed before the first one that fails. */
  function Written(cgs: seq<string>, failing: set<string>): set<string> {
    Elements(cgs[..FirstFailing(cgs, failing)])
  }

  lemma WrittenWhenWritable(cgs: seq<string>, failing: set<string>)
    ensures Written(cgs, failing) <= Elements(cgs)
    ensures FirstFailing(cgs, failing) == |cgs| <==> Writable(cgs, failing)
    ensures Writable(cgs, failing) ==> Written(cgs, failing) == Elements(cgs)
  {
    var i := FirstFailing(cgs, failing);
    if i < |cgs| {
      assert cgs[i] in Elements(cgs);
    } else {
      assert cgs[..i] == cgs;
    }
  }

  /** A failure spoils what comes after it: a listed cgroup goes without exactly when it or one before it fails. */
  lemma UnwrittenIff(cgs: seq<string>, failing: set<string>, j: nat)
    requires NoDup(cgs) && j < |cgs|
    ensures cgs[j] !in Written(cgs, failing) <==> exists i :: 0 <= i <= j && cgs[i] in failing
  {
    var f := FirstFailing(cgs, failing);
    if j < f {
      assert cgs[..f][j] == cgs[j];
    } else {
      assert cgs[f] in failing;
    }
  }

  /** The cgroup after one that is gone is not written, although it could be. */
  lemma FailureSpoilsTheNext()
    ensures Written(["a", "b"], {"a"}) == {} && "b" !in {"a"}
  {
    assert FirstFailing(["a", "b"], {"a"}) == 0 by {
      assert ["a", "b"][0] in {"a"};
    }
  }

  /** Cores as WriteCpuSetCores writes them, separated by commas. */
  function CoreList(cores: seq<int>): string {
    if cores == [] then ""
    else if |cores| == 1 then Decimal(cores[0])
    else CoreList(cores[..|cores| - 1]) + "," + Decimal(cores[|cores| - 1])
  }

  /** Cores as Go prints a slice, in brackets and separated by blanks. */
  function GoSlice(cores: seq<int>): string {
    "[" + Blanks(cores) + "]"
  }

  function Blanks(cores: seq<int>): string {
    if cores == [] then ""
    else if |cores| == 1 then Decimal(cores[0])
    else Blanks(cores[..|cores| - 1]) + " " + Decimal(cores[|cores| - 1])
  }

  /** What a cpuset file takes is made of numbers, commas and hyphens. */
  predicate IsCoreList(text: string) {
    forall i :: 0 <= i < |text| ==> IsDigit(text[i]) || text[i] == ',' || text[i] == '-'
  }

  lemma {:induction false} CoreListIsTaken(cores: seq<int>)
    ensures IsCoreList(CoreList(cores))
  {
    if cores != [] {
      var init, last := CoreList(cores[..|cores| - 1]), Decimal(cores[|cores| - 1]);
      DecimalChars(cores[|cores| - 1]);
      assert forall i :: 0 <= i < |last| ==> last[i] in last;
      CoreListIsTaken(cores[..|cores| - 1]);
      TakenTogether(init, last);
    }
  }

  lemma TakenTogether(a: string, b: string)
    requires IsCoreList(a) && IsCoreList(b)
    ensures IsCoreList(a + "," + b)
  {
  }

  lemma OnlyTheFirstFormIsTaken(cores: seq<int>)
    ensures IsCoreList(CoreList(cores)) && !IsCoreList(GoSlice(cores))
  {
    CoreListIsTaken(cores);
    assert GoSlice(cores)[0] == '[';
  }

  lemma FirstFailingStep(cgs: seq<string>, k: nat, failing: set<string>)
    requires k < |cgs|
    ensures var f, f' := FirstFailing(cgs[..k], failing), FirstFailing(cgs[..k + 1], failing);
            f' == if f == k && cgs[k] !in failing then k + 1 else f
  {
    assert cgs[..k + 1][..k] == cgs[..k];
  }

  lemma WrittenStep(cgs: seq<string>, k: nat, failing: set<string>)
    requires k < |cgs|
    ensures Written(cgs[..k + 1], failing) ==
            Written(cgs[..k], failing) + if FirstFailing(cgs[..k + 1], failing) == k + 1 then {cgs[k]} else {}
  {
    FirstFailingStep(cgs, k, failing);
    var f := FirstFailing(cgs[..k], failing);
    if FirstFailing(cgs[..k + 1], failing) == k + 1 {
      assert cgs[..k + 1] == cgs[..k] + [cgs[k]];
    } else {
      assert cgs[..k + 1][..f] == cgs[..k][..f];
    }
  }

  lemma WriteOneMore(files: CoreFiles, cgs: set<string>, cg: string, cores: seq<int>)
    ensures WriteAll(files, cgs + {cg}, cores) == WriteAll(files, cgs, cores)[cg := cores]
    ensures WriteAll(files, cgs + {}, cores) == WriteAll(files, cgs, cores)
  {
    assert cgs + {} == cgs;
  }

  /** The files and the number of errors after the first k cgroups. */
  ghost predicate WrittenSoFar(files: CoreFiles, cgs: seq<string>, failing: set<string>, cores: seq<int>,
                               k: nat, r: CoreFiles, errs: int) {
    && k <= |cgs|
    && errs == k - FirstFailing(cgs[..k], failing)
    && r == WriteAll(files, Written(cgs[..k], failing), cores)
  }

  lemma WriteStep(files: CoreFiles, cgs: seq<string>, failing: set<string>, cores: seq<int>,
                  k: nat, r: CoreFiles, errs: int)
    requires k < |cgs| && WrittenSoFar(files, cgs, failing, cores, k, r, errs)
    ensures if errs == 0 && cgs[k] !in failing
            then WrittenSoFar(files, cgs, failing, cores, k + 1, r[cgs[k] := cores], 0)
            else WrittenSoFar(files, cgs, failing, cores, k + 1, r, errs + 1)
  {
    FirstFailingStep(cgs, k, failing);
    WrittenStep(cgs, k, failing);
    WriteOneMore(files, Written(cgs[..k], failing), cgs[k], cores);
  }

  lemma AllWrittenSoFar(files: CoreFiles, cgs: seq<string>, failing: set<string>, cores: seq<int>, r: CoreFiles,
                        errs: int)
    requires WrittenSoFar(files, cgs, failing, cores, |cgs|, r, errs)
    ensures r == WriteAll(files, Written(cgs, failing), cores) && errs == |cgs| - FirstFailing(cgs, failing)
  {
    assert cgs[..|cgs|] == cgs;
  }

  /**
   setCoresForCgroups: after a write that fails, the cores are handed on as Go prints a slice, which
   no cpuset file takes, so every later write of the list fails too.
   */
  method SetCoresForCgroups(files: CoreFiles, cgs: seq<string>, cores: seq<int>, failing: set<string>)
      returns (r: CoreFiles, errs: nat)
    ensures cores == [] ==> r == files && errs == 0
    ensures cores != [] ==> r == WriteAll(files, Written(cgs, failing), cores)
    ensures cores != [] ==> errs == |cgs| - FirstFailing(cgs, failing)
    ensures cores != [] ==> (errs == 0 <==> Writable(cgs, failing))
  {
    if cores == [] {
      // writing no cores leaves every file alone
      return files, 0;
    }
    OnlyTheFirstFormIsTaken(cores);
    WrittenWhenWritable(cgs, failing);
    r, errs := WriteTexts(files, cgs, cores, CoreList(cores), GoSlice(cores), failing);
  }

  /** Write a text for the cores to each cgroup, and another text once a write has failed. */
  method WriteTexts(files: CoreFiles, cgs: seq<string>, cores: seq<int>, first: string, later: string,
                    failing: set<string>)
      returns (r: CoreFiles, errs: nat)
    requires IsCoreList(first) && !IsCoreList(later)
    ensures r == WriteAll(files, Written(cgs, failing), cores)
    ensures errs == |cgs| - FirstFailing(cgs, failing)
  {
    r, errs := files, 0;
    var text := first;
    for k := 0 to |cgs|
      invariant text == if errs == 0 then first else later
      invariant WrittenSoFar(files, cgs, failing, cores, k, r, errs)
    {
      WriteStep(files, cgs, failing, cores, k, r, errs);
      if cgs[k] !in failing && IsCoreList(text) {
        r := r[cgs[k] := cores];
      } else {
        text := later;
        errs := errs + 1;
      }
    }
    AllWrittenSoFar(files, cgs, failing, cores, r, errs);
  }

  // ---------------------------------------------------------------- a manager without memory

  /** What a manager without memory leaves in the files: it writes whenever there are cores to write. */
  function AlwaysWrite(cfg: Config, sys: Answers, files: CoreFiles, call: Call): CoreFiles {
    var n := OfflineCores(call.offlineMilli);
    if n == 0 || sys.root.None? || OfflineShare(cfg, sys.root.value, n) == [] then files
    else
      var written := WriteAll(files, Written(call.offline, sys.failing), OfflineShare(cfg, sys.root.value, n));
      if cfg.onlineIsolate && OnlineShare(cfg, sys.root.value, n) != []
      then WriteAll(written, Written(call.online, sys.failing), OnlineShare(cfg, sys.root.value, n))
      else written
  }

  // ---------------------------------------------------------------- comparing cgroup lists

  /** cgroupPaths.equal: same length, and every remembered cgroup is in the list. */
  predicate EqualPaths(last: seq<string>, cgs: seq<string>) {
    |cgs| == |last| && forall cg :: cg in last ==> cg in cgs
  }

  lemma {:induction false} ElementsAtMost<T>(s: seq<T>)
    ensures |Elements(s)| <= |s|
  {
    if s != [] {
      var init, last := s[..|s| - 1], s[|s| - 1];
      ElementsAtMost(init);
      assert Elements(s) == Elements(init) + {last};
    }
  }

  /** Against a remembered list without repetitions the comparison accepts no other set of cgroups. */
  lemma EqualPathsIsSetEquality(last: seq<string>, cgs: seq<string>)
    requires NoDup(last) && EqualPaths(last, cgs)
    ensures Elements(last) == Elements(cgs)
  {
    NoDupCardinality(last);
    ElementsAtMost(cgs);
    SubsetOfSameSize(Elements(last), Elements(cgs));
  }

  lemma {:induction false} LongerThanAll(s: seq<string>) returns (x: string)
    ensures forall y :: y in s ==> |y| < |x|
  {
    x := "x";
    if s != [] {
      var z := LongerThanAll(s[..|s| - 1]);
      x := z + s[|s| - 1] + "x";
      assert forall y :: y in s ==> y in s[..|s| - 1] || y == s[|s| - 1];
    }
  }

  /** A repeated entry hides one that is missing. */
  lemma RepetitionFoolsEqualPaths(last: seq<string>, i: nat, j: nat) returns (cgs: seq<string>)
    requires i < j < |last| && last[i] == last[j]
    ensures EqualPaths(last, cgs) && Elements(last) != Elements(cgs)
  {
    var x := LongerThanAll(last);
    cgs := last[j := x];
    forall cg | cg in last
      ensures cg in cgs
    {
      var k :| 0 <= k < |last| && last[k] == cg;
      assert cgs[if k == j then i else k] == cg;
    }
    assert cgs[j] == x && x in Elements(cgs) && x !in Elements(last);
  }

  /** The comparison can be trusted exactly when the remembered list has no repetition. */
  lemma ComparisonIsSoundIff(last: seq<string>)
    ensures (forall cgs :: EqualPaths(last, cgs) ==> Elements(last) == Elements(cgs)) <==> NoDup(last)
  {
    if NoDup(last) {
      forall cgs | EqualPaths(last, cgs)
        ensures Elements(last) == Elements(cgs)
      {
        EqualPathsIsSetEquality(last, cgs);
      }
    } else {
      var i, j :| 0 <= i < j < |last| && last[i] == last[j];
      var cgs := RepetitionFoolsEqualPaths(last, i, j);
    }
  }

  // ---------------------------------------------------------------- the memory

  /** The core count and the cgroups of the call written last; no count means that the next call writes. */
  datatype Memory = Memory(n: Option<int>, offline: seq<string>, online: seq<string>)

  /** The call is skipped. */
  predicate Skips(cfg: Config, call: Call, m: Memory) {
    && m.n == Some(OfflineCores(call.offlineMilli))
    && EqualPaths(m.offline, call.offline)
    && (!cfg.onlineIsolate || EqualPaths(m.online, call.online))
  }

  /** What is remembered after a call. A failed write for offline cgroups leaves the memory as it was. */
  ghost function MemoryAfter(cfg: Config, sys: Answers, call: Call, m: Memory): Memory {
    var n := OfflineCores(call.offlineMilli);
    if n == 0 || Skips(cfg, call, m) then m
    else if sys.root.None? || OfflineShare(cfg, sys.root.value, n) == [] then m.(n := None)
    else
      var a := if Writable(call.offline, sys.failing) then m.(n := Some(n), offline := call.offline) else m;
      var b := if sys.quotaOk then a else a.(n := None);
      if !cfg.onlineIsolate then b
      else if OnlineShare(cfg, sys.root.value, n) != [] && Writable(call.online, sys.failing)
      then b.(online := call.online)
      else b.(n := None)
  }

  /** The files after a call of the manager with memory. */
  function FilesAfter(cfg: Config, sys: Answers, files: CoreFiles, call: Call, m: Memory): CoreFiles {
    if Skips(cfg, call, m) then files else AlwaysWrite(cfg, sys, files, call)
  }

  /** The cgroups of online jobs count only under isolation. */
  function OnlineSet(cfg: Config, cgs: seq<string>): set<string> {
    if cfg.onlineIsolate then Elements(cgs) else {}
  }

  /** There are cores for each side that is written. */
  predicate HasShares(cfg: Config, root: seq<int>, n: int) {
    OfflineShare(cfg, root, n) != [] && (cfg.onlineIsolate ==> OnlineShare(cfg, root, n) != [])
  }

  /** If a core count is remembered, the files hold what the remembered call writes. */
  ghost predicate Remembers(cfg: Config, root: seq<int>, files: CoreFiles, m: Memory) {
    && NoDup(m.offline) && NoDup(m.online)
    && (m.n.Some? ==>
          && HasShares(cfg, root, m.n.value)
          && Holds(files, Elements(m.offline), OfflineShare(cfg, root, m.n.value),
                   OnlineSet(cfg, m.online), OnlineShare(cfg, root, m.n.value)))
  }

  /** The files hold v for the first cgroups and w for the second, which go first. */
  ghost predicate Holds(files: CoreFiles, off: set<string>, v: seq<int>, on: set<string>, w: seq<int>) {
    && off <= files.Keys && on <= files.Keys
    && (forall cg :: cg in off - on ==> files[cg] == v)
    && (forall cg :: cg in on ==> files[cg] == w)
  }

  lemma WriteBothHolds(files: CoreFiles, off: set<string>, v: seq<int>, on: set<string>, w: seq<int>)
    ensures Holds(WriteAll(WriteAll(files, off, v), on, w), off, v, on, w)
  {
  }

  lemma WriteNone(files: CoreFiles, w: seq<int>)
    ensures WriteAll(files, {}, w) == files
  {
  }

  /** What AlwaysWrite writes, for calls that have cores to write. */
  lemma AlwaysWriteBoth(cfg: Config, sys: Answers, files: CoreFiles, call: Call)
    requires sys.root.Some? && OfflineCores(call.offlineMilli) != 0
    requires HasShares(cfg, sys.root.value, OfflineCores(call.offlineMilli))
    ensures var n, root := OfflineCores(call.offlineMilli), sys.root.value;
            AlwaysWrite(cfg, sys, files, call)
            == WriteAll(WriteAll(files, Written(call.offline, sys.failing), OfflineShare(cfg, root, n)),
                        if cfg.onlineIsolate then Written(call.online, sys.failing) else {}, OnlineShare(cfg, root, n))
  {
    var n, root := OfflineCores(call.offlineMilli), sys.root.value;
    var written := WriteAll(files, Written(call.offline, sys.failing), OfflineShare(cfg, root, n));
    WriteNone(written, OnlineShare(cfg, root, n));
  }

  /** Writing part of what is there changes something exactly when a cgroup of both kinds gets only the first value. */
  lemma WritePartAgain(files: CoreFiles, off: set<string>, v: seq<int>, on: set<string>, w: seq<int>,
                       off': set<string>, on': set<string>)
    requires Holds(files, off, v, on, w) && off' <= off && on' <= on && v != w
    ensures WriteAll(WriteAll(files, off', v), on', w) == files <==> off' * on <= on'
  {
    var r := WriteAll(WriteAll(files, off', v), on', w);
    assert r.Keys == files.Keys;
    if cg :| cg in off' * on && cg !in on' {
      assert r[cg] == v && files[cg] == w;
    } else {
      assert forall cg :: cg in files ==> r[cg] == files[cg];
    }
  }

  lemma SharesDiffer(cfg: Config, root: seq<int>, n: int)
    requires OfflineShare(cfg, root, n) != []
    ensures n != 0 && OfflineShare(cfg, root, n) != OnlineShare(cfg, root, n)
  {
    SharesAreDisjoint(cfg, root, n);
    assert OfflineShare(cfg, root, n)[0] in OfflineShare(cfg, root, n);
  }

  /**
   A skipped call would have changed nothing, whichever of its writes would have failed, except exactly
   when a failure keeps it from writing an online cgroup that it has just written as an offline one.
   */
  lemma SkippingIsHarmlessIff(cfg: Config, root: seq<int>, files: CoreFiles, call: Call, sys: Answers, m: Memory)
    requires Remembers(cfg, root, files, m) && Skips(cfg, call, m) && sys.root == Some(root)
    ensures AlwaysWrite(cfg, sys, files, call) == files <==> NoneOverwritten(cfg, call, sys)
  {
    var n := m.n.value;
    SharesDiffer(cfg, root, n);
    EqualPathsIsSetEquality(m.offline, call.offline);
    WrittenWhenWritable(call.offline, sys.failing);
    AlwaysWriteBoth(cfg, sys, files, call);
    if cfg.onlineIsolate {
      EqualPathsIsSetEquality(m.online, call.online);
      WrittenWhenWritable(call.online, sys.failing);
    }
    WritePartAgain(files, Elements(call.offline), OfflineShare(cfg, root, n), OnlineSet(cfg, call.online),
                   OnlineShare(cfg, root, n), Written(call.offline, sys.failing),
                   if cfg.onlineIsolate then Written(call.online, sys.failing) else {});
  }

  /** No cgroup that is listed on both sides is written for the offline side only. */
  predicate NoneOverwritten(cfg: Config, call: Call, sys: Answers) {
    cfg.onlineIsolate ==>
      Written(call.offline, sys.failing) * Elements(call.online) <= Written(call.online, sys.failing)
  }

  /** The memory is sound exactly when the remembered call, which is skipped, would change nothing. */
  lemma SoundIffRepeatingIsHarmless(cfg: Config, root: seq<int>, files: CoreFiles, m: Memory)
    requires m.n.Some? && HasShares(cfg, root, m.n.value) && NoDup(m.offline) && NoDup(m.online)
    ensures var again := Call(Some(1000 * m.n.value), m.offline, m.online);
            && Skips(cfg, again, m)
            && (AlwaysWrite(cfg, Answers(Some(root), true, {}), files, again) == files
                <==> Remembers(cfg, root, files, m))
  {
    var n, again, sys := m.n.value, Call(Some(1000 * m.n.value), m.offline, m.online), Answers(Some(root), true, {});
    assert OfflineCores(again.offlineMilli) == n;
    SharesDiffer(cfg, root, n);
    WrittenWhenWritable(m.offline, {});
    WrittenWhenWritable(m.online, {});
    AlwaysWriteBoth(cfg, sys, files, again);
    WriteBothHolds(files, Elements(m.offline), OfflineShare(cfg, root, n),
                   OnlineSet(cfg, m.online), OnlineShare(cfg, root, n));
    if Remembers(cfg, root, files, m) {
      SkippingIsHarmlessIff(cfg, root, files, again, sys, m);
    }
  }

  // ---------------------------------------------------------------- when the memory stays sound

  /** The call writes, a write for an offline cgroup fails, and the old core count is still remembered. */
  ghost predicate KeepsOldCount(cfg: Config, sys: Answers, call: Call, m: Memory) {
    var n := OfflineCores(call.offlineMilli);
    && n != 0 && !Skips(cfg, call, m) && m.n.Some? && sys.quotaOk
    && sys.root.Some? && HasShares(cfg, sys.root.value, n)
    && !Writable(call.offline, sys.failing) && (cfg.onlineIsolate ==> Writable(call.online, sys.failing))
  }

  /** What was written nevertheless agrees with the old count. */
  ghost predicate AgreesWithOldCount(cfg: Config, root: seq<int>, sys: Answers, call: Call, m: Memory)
    requires m.n.Some?
  {
    var n, k, on := OfflineCores(call.offlineMilli), m.n.value, OnlineSet(cfg, call.online);
    var written := Written(call.offline, sys.failing);
    // the remembered offline cgroups that were written, and are not online now, got the cores they had
    && (OfflineShare(cfg, root, n) == OfflineShare(cfg, root, k) || written * Elements(m.offline) <= on)
    // so did the online cgroups
    && (on == {} || OnlineShare(cfg, root, n) == OnlineShare(cfg, root, k))
    // and no cgroup that was remembered on both sides keeps the cores of the online side
    && Elements(m.offline) * OnlineSet(cfg, m.online) <= written + on
  }

  lemma OldCountAgreesIff(files: CoreFiles, off: set<string>, v: seq<int>, on: set<string>, w: seq<int>,
                          written: set<string>, v': seq<int>, on': set<string>, w': seq<int>)
    requires Holds(files, off, v, on, w) && v != w
    ensures Holds(WriteAll(WriteAll(files, written, v'), on', w'), off, v, on', w) <==>
            (v' == v || written * off <= on') && (on' == {} || w' == w) && off * on <= written + on'
  {
    var r := WriteAll(WriteAll(files, written, v'), on', w');
    if v' != v && !(written * off <= on') {
      var cg :| cg in written * off && cg !in on';
      assert cg in off - on' && r[cg] == v';
    }
    if on' != {} && w' != w {
      var cg :| cg in on';
      assert r[cg] == w';
    }
    if cg :| cg in off * on && cg !in written + on' {
      assert cg in off - on' && r[cg] == w;
    } else if v' == v || written * off <= on' {
      forall cg | cg in off - on'
        ensures r[cg] == v
      {
        assert cg in written ==> cg in written * off;
        assert cg in on ==> cg in off * on;
      }
    }
  }

  /**
   A call leaves the memory sound, whichever of its writes fail, exactly when it does not keep an old
   count, or what it wrote agrees with that.
   */
  lemma MemoryStaysSoundIff(cfg: Config, root: seq<int>, files: CoreFiles, call: Call, sys: Answers, m: Memory)
    requires Remembers(cfg, root, files, m) && NoDup(call.offline) && NoDup(call.online)
    requires sys.root.Some? ==> sys.root.value == root
    ensures Remembers(cfg, root, FilesAfter(cfg, sys, files, call, m), MemoryAfter(cfg, sys, call, m)) <==>
            (KeepsOldCount(cfg, sys, call, m) ==> AgreesWithOldCount(cfg, root, sys, call, m))
  {
    var n := OfflineCores(call.offlineMilli);
    if KeepsOldCount(cfg, sys, call, m) {
      OldCountKept(cfg, root, files, call, sys, m);
    } else if n != 0 && !Skips(cfg, call, m) && MemoryAfter(cfg, sys, call, m).n.Some? {
      AllWritten(cfg, root, files, call, sys, m);
    }
  }

  lemma OldCountKept(cfg: Config, root: seq<int>, files: CoreFiles, call: Call, sys: Answers, m: Memory)
    requires Remembers(cfg, root, files, m) && NoDup(call.offline) && NoDup(call.online)
    requires KeepsOldCount(cfg, sys, call, m) && sys.root.value == root
    ensures Remembers(cfg, root, AlwaysWrite(cfg, sys, files, call), MemoryAfter(cfg, sys, call, m)) <==>
            AgreesWithOldCount(cfg, root, sys, call, m)
  {
    var n, k := OfflineCores(call.offlineMilli), m.n.value;
    SharesDiffer(cfg, root, k);
    AlwaysWriteBoth(cfg, sys, files, call);
    WrittenWhenWritable(call.online, sys.failing);
    OldCountAgreesIff(files, Elements(m.offline), OfflineShare(cfg, root, k), OnlineSet(cfg, m.online),
                      OnlineShare(cfg, root, k), Written(call.offline, sys.failing), OfflineShare(cfg, root, n),
                      OnlineSet(cfg, call.online), OnlineShare(cfg, root, n));
  }

  lemma AllWritten(cfg: Config, root: seq<int>, files: CoreFiles, call: Call, sys: Answers, m: Memory)
    requires Remembers(cfg, root, files, m) && NoDup(call.offline) && NoDup(call.online)
    requires sys.root.Some? ==> sys.root.value == root
    requires OfflineCores(call.offlineMilli) != 0 && !Skips(cfg, call, m) && !KeepsOldCount(cfg, sys, call, m)
    requires MemoryAfter(cfg, sys, call, m).n.Some?
    ensures Remembers(cfg, root, AlwaysWrite(cfg, sys, files, call), MemoryAfter(cfg, sys, call, m))
  {
    var n := OfflineCores(call.offlineMilli);
    AlwaysWriteBoth(cfg, sys, files, call);
    WrittenWhenWritable(call.offline, sys.failing);
    WrittenWhenWritable(call.online, sys.failing);
    WriteBothHolds(files, Elements(call.offline), OfflineShare(cfg, root, n),
                   OnlineSet(cfg, call.online), OnlineShare(cfg, root, n));
  }

  /**
   Otherwise the failure is forgotten: repeating the call that is remembered is skipped although writing
   it would change the files.
   */
  lemma FailedWriteIsForgotten(cfg: Config, root: seq<int>, files: CoreFiles, call: Call, sys: Answers, m: Memory)
    requires Remembers(cfg, root, files, m) && NoDup(call.offline) && NoDup(call.online)
    requires KeepsOldCount(cfg, sys, call, m) && sys.root.value == root
    requires !AgreesWithOldCount(cfg, root, sys, call, m)
    ensures var after, m' := FilesAfter(cfg, sys, files, call, m), MemoryAfter(cfg, sys, call, m);
            && m'.n == m.n
            && var again := Call(Some(1000 * m.n.value), m'.offline, m'.online);
               && Skips(cfg, again, m')
               && AlwaysWrite(cfg, Answers(Some(root), true, {}), after, again) != after
  {
    MemoryStaysSoundIff(cfg, root, files, call, sys, m);
    SoundIffRepeatingIsHarmless(cfg, root, FilesAfter(cfg, sys, files, call, m), MemoryAfter(cfg, sys, call, m));
  }

  const ONE := Call(Some(1000), ["a", "b"], [])
  const TWO := Call(Some(2000), ["a", "b"], [])

  /** One of two cores for a and b, then both cores with b failing, then one again: a keeps both. */
  lemma ForgottenForTwoCgroups(cfg: Config, sys: Answers, files: CoreFiles, m: Memory)
    requires cfg == Config(false, [], map[]) && sys == Answers(Some([0, 1]), true, {"b"})
    requires files == map["a" := [1], "b" := [1]] && m == Memory(Some(1), ["a", "b"], [])
    ensures Remembers(cfg, [0, 1], files, m)
    ensures var after := FilesAfter(cfg, sys, files, TWO, m);
            && after["a"] == [1, 0]
            && FilesAfter(cfg, sys, after, ONE, MemoryAfter(cfg, sys, TWO, m)) == after
  {
    OneCoreIsRemembered(cfg, files, m);
    BothCoresForA(cfg, sys, files);
    CountOfOneIsKept(cfg, sys, m);
  }

  lemma OneCoreIsRemembered(cfg: Config, files: CoreFiles, m: Memory)
    requires cfg == Config(false, [], map[]) && m == Memory(Some(1), ["a", "b"], [])
    requires files == map["a" := [1], "b" := [1]]
    ensures Remembers(cfg, [0, 1], files, m)
  {
    TwoCores();
    TwoCgroups();
  }

  lemma BothCoresForA(cfg: Config, sys: Answers, files: CoreFiles)
    requires cfg == Config(false, [], map[]) && sys == Answers(Some([0, 1]), true, {"b"})
    ensures AlwaysWrite(cfg, sys, files, TWO) == files["a" := [1, 0]]
  {
    TwoCores();
    TwoCgroups();
    WriteOneMore(files, {}, "a", [1, 0]);
    WriteNone(files, [1, 0]);
    assert {} + {"a"} == {"a"};
  }

  lemma CountOfOneIsKept(cfg: Config, sys: Answers, m: Memory)
    requires cfg == Config(false, [], map[]) && sys == Answers(Some([0, 1]), true, {"b"})
    requires m == Memory(Some(1), ["a", "b"], [])
    ensures MemoryAfter(cfg, sys, TWO, m) == m && !Skips(cfg, TWO, m) && Skips(cfg, ONE, m)
  {
    TwoCores();
    TwoCgroups();
  }

  lemma TwoCgroups()
    ensures NoDup(["a", "b"]) && Elements(["a", "b"]) == {"a", "b"}
    ensures Written(["a", "b"], {"b"}) == {"a"} && !Writable(["a", "b"], {"b"})
  {
    var cgs := ["a", "b"];
    assert cgs[0] == "a" && cgs[1] == "b" && cgs[0][0] != cgs[1][0];
    assert "b" in Elements(cgs);
    var f := FirstFailing(cgs, {"b"});
    assert f != 0 by {
      assert cgs[0] !in {"b"};
    }
    assert f != 2 by {
      assert cgs[1] in {"b"};
    }
    assert cgs[..1] == ["a"];
  }

  lemma TwoCores()
    ensures var cfg := Config(false, [], map[]);
            OfflineShare(cfg, [0, 1], 1) == [1] && OfflineShare(cfg, [0, 1], 2) == [1, 0]
  {
    var cores, sib: Siblings := [0, 1], map[];
    assert cores[..1] == [0] && cores[..1][..0] == [];
    assert Remaining([0], []) == [0];
    assert Remaining(cores, []) == [0, 1];
    assert Sorted([0]) == [0];
    assert Sorted(cores) == [0, 1];
    assert Picks(cores, sib, 0, [1, 0]) == [1, 0];
    assert Picks(cores, sib, 1, [1]) == [1, 0];
    assert Picks(cores, sib, 2, []) == [1, 0];
    assert [1, 0][..1] == [1] && [1, 0][..2] == [1, 0];
  }

  // ---------------------------------------------------------------- isolation

  ghost predicate NoSharedCore(a: seq<int>, b: seq<int>) {
    forall c :: !(c in a && c in b)
  }

  ghost predicate NoSharedCgroup(a: seq<string>, b: seq<string>) {
    forall cg :: !(cg in a && cg in b)
  }

  /** Offline cgroups keep off reserved cores and, under isolation, off the cores of online cgroups. */
  ghost predicate Isolated(cfg: Config, files: CoreFiles, call: Call) {
    forall cg :: cg in call.offline ==>
      && cg in files && NoSharedCore(files[cg], cfg.reserved)
      && (cfg.onlineIsolate ==> forall on :: on in call.online ==> on in files && NoSharedCore(files[cg], files[on]))
  }

  lemma SharesAreDisjoint(cfg: Config, root: seq<int>, n: int)
    requires n != 0
    ensures NoSharedCore(OfflineShare(cfg, root, n), cfg.reserved)
    ensures NoSharedCore(OfflineShare(cfg, root, n), OnlineShare(cfg, root, n))
  {
    var total := Remaining(root, cfg.reserved);
    var s, chosen, order := Sorted(total), Chosen(total, cfg.siblings, n), PickOrder(total, cfg.siblings);
    RemainingElements(root, cfg.reserved);
    SortedSorts(total);
    PicksCover(s, cfg.siblings, |s|, []);
    RemainingElements(s, chosen);
    forall c | c in chosen
      ensures c in order
    {
      var i :| 0 <= i < |chosen| && chosen[i] == c;
      assert order[i] == c;
    }
  }

  /** The root cores that are not reserved. */
  function Free(root: seq<int>, reserved: seq<int>): set<int> {
    set c | c in root && c !in reserved
  }

  /** How n cores of the root are to be divided: off for offline jobs, on for online jobs. */
  ghost predicate Divides(root: seq<int>, reserved: seq<int>, n: int, off: seq<int>, on: seq<int>) {
    && NoDup(off) && (forall c :: c in off ==> c in root && c !in reserved)
    && |off| == Min(n, |Free(root, reserved)|)
    && forall c :: c in on <==> c in reserved || (c in root && c !in off)
  }

  /** Offline jobs get as many unreserved cores as asked for or as there are; online jobs get all the others. */
  lemma SharesDivide(cfg: Config, root: seq<int>, n: int)
    requires n > 0 && NoDup(root)
    ensures Divides(root, cfg.reserved, n, OfflineShare(cfg, root, n), OnlineShare(cfg, root, n))
  {
    var total := Remaining(root, cfg.reserved);
    RemainingElements(root, cfg.reserved);
    ChoiceIsPartition(total, cfg.siblings, n);
    NoDupCardinality(total);
    assert Elements(total) == Free(root, cfg.reserved);
  }

  /** All offline cgroups hold one part and, under isolation, all online cgroups the other. */
  ghost predicate HoldParts(cfg: Config, root: seq<int>, files: CoreFiles, call: Call) {
    exists off, on :: Divides(root, cfg.reserved, OfflineCores(call.offlineMilli), off, on)
                      && (forall cg :: cg in call.offline ==> cg in files && files[cg] == off)
                      && (cfg.onlineIsolate ==> forall cg :: cg in call.online ==> cg in files && files[cg] == on)
  }

  lemma HoldingIsDivided(cfg: Config, root: seq<int>, files: CoreFiles, call: Call)
    requires OfflineCores(call.offlineMilli) > 0 && NoDup(root) && NoSharedCgroup(call.offline, call.online)
    requires var n := OfflineCores(call.offlineMilli);
             Holds(files, Elements(call.offline), OfflineShare(cfg, root, n),
                   OnlineSet(cfg, call.online), OnlineShare(cfg, root, n))
    ensures HoldParts(cfg, root, files, call)
  {
    var n := OfflineCores(call.offlineMilli);
    var off, on := OfflineShare(cfg, root, n), OnlineShare(cfg, root, n);
    SharesDivide(cfg, root, n);
    assert forall cg :: cg in call.offline <==> cg in Elements(call.offline);
    assert forall cg :: cg in call.online <==> cg in Elements(call.online);
    assert forall cg :: cg in call.offline ==> cg in files && files[cg] == off;
  }

  /** The call asks for cores and there are some for each side that is written. */
  predicate Divisible(cfg: Config, root: seq<int>, call: Call) {
    OfflineCores(call.offlineMilli) != 0 && HasShares(cfg, root, OfflineCores(call.offlineMilli))
  }

  /** Files that hold the two shares isolate the cgroups. */
  lemma HoldingIsIsolated(cfg: Config, root: seq<int>, files: CoreFiles, call: Call)
    requires Divisible(cfg, root, call) && NoSharedCgroup(call.offline, call.online)
    requires var n := OfflineCores(call.offlineMilli);
             Holds(files, Elements(call.offline), OfflineShare(cfg, root, n),
                   OnlineSet(cfg, call.online), OnlineShare(cfg, root, n))
    ensures Isolated(cfg, files, call)
  {
    SharesAreDisjoint(cfg, root, OfflineCores(call.offlineMilli));
    assert forall cg :: cg in call.offline <==> cg in Elements(call.offline);
    assert forall cg :: cg in call.online <==> cg in Elements(call.online);
  }

  lemma WrittenIsIsolated(cfg: Config, root: seq<int>, files: CoreFiles, call: Call, sys: Answers)
    requires sys.root == Some(root) && Divisible(cfg, root, call) && NoSharedCgroup(call.offline, call.online)
    requires Writable(call.offline, sys.failing) && (cfg.onlineIsolate ==> Writable(call.online, sys.failing))
    ensures Isolated(cfg, AlwaysWrite(cfg, sys, files, call), call)
    ensures OfflineCores(call.offlineMilli) > 0 && NoDup(root) ==>
              HoldParts(cfg, root, AlwaysWrite(cfg, sys, files, call), call)
  {
    var n := OfflineCores(call.offlineMilli);
    AlwaysWriteBoth(cfg, sys, files, call);
    WrittenWhenWritable(call.offline, sys.failing);
    WrittenWhenWritable(call.online, sys.failing);
    WriteBothHolds(files, Elements(call.offline), OfflineShare(cfg, root, n),
                   OnlineSet(cfg, call.online), OnlineShare(cfg, root, n));
    HoldingIsIsolated(cfg, root, AlwaysWrite(cfg, sys, files, call), call);
    if n > 0 && NoDup(root) {
      HoldingIsDivided(cfg, root, AlwaysWrite(cfg, sys, files, call), call);
    }
  }

  /** A skipped call finds its cgroups isolated already. */
  lemma SkippedIsIsolated(cfg: Config, root: seq<int>, files: CoreFiles, call: Call, m: Memory)
    requires Remembers(cfg, root, files, m) && Skips(cfg, call, m) && NoSharedCgroup(call.offline, call.online)
    ensures Isolated(cfg, files, call)
    ensures OfflineCores(call.offlineMilli) > 0 && NoDup(root) ==> HoldParts(cfg, root, files, call)
  {
    SharesDiffer(cfg, root, m.n.value);
    EqualPathsIsSetEquality(m.offline, call.offline);
    if cfg.onlineIsolate {
      EqualPathsIsSetEquality(m.online, call.online);
    }
    HoldingIsIsolated(cfg, root, files, call);
    if OfflineCores(call.offlineMilli) > 0 && NoDup(root) {
      HoldingIsDivided(cfg, root, files, call);
    }
  }

  /** After a call whose writes all succeed, the same call is skipped. */
  lemma RepetitionIsSkipped(cfg: Config, root: seq<int>, call: Call, sys: Answers, m: Memory)
    requires sys.root == Some(root) && Divisible(cfg, root, call) && sys.quotaOk
    requires Writable(call.offline, sys.failing) && (cfg.onlineIsolate ==> Writable(call.online, sys.failing))
    ensures Skips(cfg, call, MemoryAfter(cfg, sys, call, m))
  {
  }

  // ---------------------------------------------------------------- the manager

  method Divide(cfg: Config, root: seq<int>, nCores: int) returns (offline: seq<int>, left: seq<int>)
    ensures offline == OfflineShare(cfg, root, nCores)
    ensures left == Left(Remaining(root, cfg.reserved), cfg.siblings, nCores)
  {
    var total: seq<int> := [];
    for k := 0 to |root|
      invariant total == Remaining(root[..k], cfg.reserved)
    {
      assert root[..k + 1][..k] == root[..k];
      if root[k] !in cfg.reserved {
        total := total + [root[k]];
      }
    }
    assert root[..|root|] == root;
    var totalCores := new int[|total|](i requires 0 <= i < |total| => total[i]);
    assert totalCores[..] == total;
    offline, left := ChooseNumaCores(totalCores, cfg.siblings, nCores);
  }

  class QosCpuSet {
    const cfg: Config
    // the root cpuset, which does not change
    ghost const root: seq<int>
    var lastNCores: Option<int>
    var lastOfflineCgs: seq<string>
    var lastOnlineCgs: seq<string>
    // the cpuset.cpus files of the system
    var files: CoreFiles

    ghost function Mem(): Memory
      reads this
    {
      Memory(lastNCores, lastOfflineCgs, lastOnlineCgs)
    }

    ghost predicate Valid()
      reads this
    {
      Remembers(cfg, root, files, Mem())
    }

    constructor (cfg: Config, ghost root: seq<int>, files: CoreFiles)
      ensures Valid() && this.cfg == cfg && this.root == root && this.files == files
    {
      this.cfg, this.root, this.files := cfg, root, files;
      lastNCores, lastOfflineCgs, lastOnlineCgs := None, [], [];
    }

    /** The root is fixed and no list repeats a cgroup. */
    ghost predicate Regular(call: Call, sys: Answers) {
      NoDup(call.offline) && NoDup(call.online) && (sys.root.Some? ==> sys.root.value == root)
    }

    method Manage(call: Call, sys: Answers) returns (ok: bool)
      modifies this
      ensures Mem() == MemoryAfter(cfg, sys, call, old(Mem()))
      ensures files == FilesAfter(cfg, sys, old(files), call, old(Mem()))
      ensures ok <==> || OfflineCores(call.offlineMilli) == 0 || Skips(cfg, call, old(Mem()))
                      || (sys.root.Some? && Divisible(cfg, sys.root.value, call))
      // the memory stays sound, exactly unless a failed offline write leaves an old count that does not agree
      ensures old(Valid()) && Regular(call, sys) ==>
                (Valid() <==> (KeepsOldCount(cfg, sys, call, old(Mem())) ==>
                                 AgreesWithOldCount(cfg, root, sys, call, old(Mem()))))
      // with a sound memory the files end as without memory
      ensures old(Valid()) && Regular(call, sys) && NoneOverwritten(cfg, call, sys) ==>
                files == AlwaysWrite(cfg, sys, old(files), call)
      ensures (&& old(Valid()) && Regular(call, sys) && ok && OfflineCores(call.offlineMilli) != 0
               && NoSharedCgroup(call.offline, call.online) && Writable(call.offline, sys.failing)
               && (cfg.onlineIsolate ==> Writable(call.online, sys.failing))) ==>
                && Isolated(cfg, files, call)
                && (OfflineCores(call.offlineMilli) > 0 && NoDup(root) ==> HoldParts(cfg, root, files, call))
    {
      var nCores := OfflineCores(call.offlineMilli);
      ghost var m := Mem();
      if Valid() && Regular(call, sys) {
        MemoryStaysSoundIff(cfg, root, files, call, sys, m);
        if Skips(cfg, call, m) && sys.root.Some? {
          SkippingIsHarmlessIff(cfg, root, files, call, sys, m);
        }
      }
      if nCores == 0 {
        return true;
      }
      if lastNCores.Some? && lastNCores.value == nCores && EqualPaths(lastOfflineCgs, call.offline) {
        if !cfg.onlineIsolate || EqualPaths(lastOnlineCgs, call.online) {
          if Valid() && NoSharedCgroup(call.offline, call.online) {
            SkippedIsIsolated(cfg, root, files, call, m);
          }
          return true;
        }
      }
      if sys.root.None? {
        lastNCores := None;
        return false;
      }
      var offlineCores, leftCores := Divide(cfg, sys.root.value, nCores);
      if |offlineCores| == 0 {
        lastNCores := None;
        return false;
      }
      ok := Write(call, sys, nCores, offlineCores, leftCores);
      if old(Valid()) && Regular(call, sys) && ok && NoSharedCgroup(call.offline, call.online)
         && Writable(call.offline, sys.failing) && (cfg.onlineIsolate ==> Writable(call.online, sys.failing)) {
        WrittenIsIsolated(cfg, root, old(files), call, sys);
      }
    }

    /** Write both sides and remember what was written. */
    method Write(call: Call, sys: Answers, nCores: int, offlineCores: seq<int>, leftCores: seq<int>) returns (ok: bool)
      requires nCores == OfflineCores(call.offlineMilli) != 0 && sys.root.Some? && !Skips(cfg, call, Mem())
      requires offlineCores == OfflineShare(cfg, sys.root.value, nCores) != []
      requires leftCores + cfg.reserved == OnlineShare(cfg, sys.root.value, nCores)
      modifies this
      ensures ok <==> Divisible(cfg, sys.root.value, call)
      ensures Mem() == MemoryAfter(cfg, sys, call, old(Mem()))
      ensures files == AlwaysWrite(cfg, sys, old(files), call)
    {
      var errs;
      files, errs := SetCoresForCgroups(files, call.offline, offlineCores, sys.failing);
      if errs == 0 {
        lastNCores, lastOfflineCgs := Some(nCores), call.offline;
      }
      if !sys.quotaOk {
        lastNCores := None;
      }
      if cfg.onlineIsolate {
        var cores := leftCores + cfg.reserved;
        if |cores| == 0 {
          lastNCores := None;
          return false;
        }
        files, errs := SetCoresForCgroups(files, call.online, cores, sys.failing);
        if errs == 0 {
          lastOnlineCgs := call.online;
        } else {
          lastNCores := None;
        }
      }
      return true;
    }
  }

  /** The files after a run of calls to a manager without memory. */
  function AlwaysWriteRun(cfg: Config, files: CoreFiles, calls: seq<Call>, answers: seq<Answers>): CoreFiles
    requires |calls| == |answers|
  {
    if calls == [] then files
    else
      var n := |calls| - 1;
      AlwaysWrite(cfg, answers[n], AlwaysWriteRun(cfg, files, calls[..n], answers[..n]), calls[n])
  }

  /** Over any regular run whose offline writes succeed the manager with memory leaves the same files. */
  method ManageRun(m: QosCpuSet, calls: seq<Call>, answers: seq<Answers>)
    requires m.Valid() && |calls| == |answers|
    requires forall i :: 0 <= i < |calls| ==> m.Regular(calls[i], answers[i])
    requires forall i :: 0 <= i < |calls| ==> Writable(calls[i].offline, answers[i].failing)
    requires forall i :: 0 <= i < |calls| ==> NoneOverwritten(m.cfg, calls[i], answers[i])
    modifies m
    ensures m.Valid() && m.files == AlwaysWriteRun(m.cfg, old(m.files), calls, answers)
  {
    for i := 0 to |calls|
      invariant m.Valid() && m.files == AlwaysWriteRun(m.cfg, old(m.files), calls[..i], answers[..i])
    {
      assert calls[..i + 1][..i] == calls[..i] && answers[..i + 1][..i] == answers[..i];
      assert !KeepsOldCount(m.cfg, answers[i], calls[i], m.Mem());
      var ok := m.Manage(calls[i], answers[i]);
    }
    assert calls[..|calls|] == calls && answers[..|calls|] == answers;
  }

  // ---------------------------------------------------------------- whole runs, whichever writes fail

  datatype Situation = Situation(files: CoreFiles, memory: Memory)

  ghost predicate IsStep(cfg: Config, root: seq<int>, call: Call, sys: Answers, s: Situation, t: Situation) {
    && NoDup(call.offline) && NoDup(call.online) && (sys.root.Some? ==> sys.root.value == root)
    && t.files == FilesAfter(cfg, sys, s.files, call, s.memory)
    && t.memory == MemoryAfter(cfg, sys, call, s.memory)
  }

  ghost predicate IsRun(cfg: Config, root: seq<int>, calls: seq<Call>, answers: seq<Answers>, states: seq<Situation>) {
    && |calls| == |answers| && |states| == |calls| + 1
    && forall i :: 0 <= i < |calls| ==> IsStep(cfg, root, calls[i], answers[i], states[i], states[i + 1])
  }

  ghost predicate Sound(cfg: Config, root: seq<int>, s: Situation) {
    Remembers(cfg, root, s.files, s.memory)
  }

  /** The step leaves no old count behind that the files contradict. */
  ghost predicate Agrees(cfg: Config, root: seq<int>, call: Call, sys: Answers, s: Situation) {
    KeepsOldCount(cfg, sys, call, s.memory) ==> AgreesWithOldCount(cfg, root, sys, call, s.memory)
  }

  lemma StepSoundIff(cfg: Config, root: seq<int>, call: Call, sys: Answers, s: Situation, t: Situation)
    requires Sound(cfg, root, s) && IsStep(cfg, root, call, sys, s, t)
    ensures Sound(cfg, root, t) <==> Agrees(cfg, root, call, sys, s)
  {
    MemoryStaysSoundIff(cfg, root, s.files, call, sys, s.memory);
  }

  lemma {:induction false} RunSound(cfg: Config, root: seq<int>, calls: seq<Call>, answers: seq<Answers>,
                                    states: seq<Situation>, n: nat)
    requires IsRun(cfg, root, calls, answers, states) && Sound(cfg, root, states[0]) && n < |states|
    requires forall i :: 0 <= i < n ==> Agrees(cfg, root, calls[i], answers[i], states[i])
    ensures Sound(cfg, root, states[n])
  {
    if n > 0 {
      RunSound(cfg, root, calls, answers, states, n - 1);
      StepSoundIff(cfg, root, calls[n - 1], answers[n - 1], states[n - 1], states[n]);
    }
  }

  /** Over every run, whichever writes fail, the memory is sound all along exactly when every step agrees. */
  lemma RunsSoundIff(cfg: Config, root: seq<int>, calls: seq<Call>, answers: seq<Answers>, states: seq<Situation>)
    requires IsRun(cfg, root, calls, answers, states) && Sound(cfg, root, states[0])
    ensures (forall i :: 0 <= i < |states| ==> Sound(cfg, root, states[i])) <==>
            (forall i :: 0 <= i < |calls| ==> Agrees(cfg, root, calls[i], answers[i], states[i]))
  {
    if forall i :: 0 <= i < |states| ==> Sound(cfg, root, states[i]) {
      forall i | 0 <= i < |calls|
        ensures Agrees(cfg, root, calls[i], answers[i], states[i])
      {
        assert Sound(cfg, root, states[i]) && Sound(cfg, root, states[i + 1]);
        StepSoundIff(cfg, root, calls[i], answers[i], states[i], states[i + 1]);
      }
    }
    if forall i :: 0 <= i < |calls| ==> Agrees(cfg, root, calls[i], answers[i], states[i]) {
      forall n | 0 <= n < |states|
        ensures Sound(cfg, root, states[n])
      {
        RunSound(cfg, root, calls, answers, states, n);
      }
    }
  }
}
