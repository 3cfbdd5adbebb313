/**
 Thread siblings and the choice of cores (util/cgroup/topology.go).
 */
module Topology {
  import opened Sorting
  import opened Wrappers

  // ---------------------------------------------------------------- thread siblings

  datatype CpuInfo = CpuInfo(cpu: int, physicalId: string, coreId: string)

  type Siblings = map<int, int>

  /** The key processors are grouped by; processors of one core share it, but see KeysCanClash. */
  function Key(c: CpuInfo): string {
    c.physicalId + c.coreId
  }

  ghost predicate OnOneCore(a: CpuInfo, b: CpuInfo) {
    a.physicalId == b.physicalId && a.coreId == b.coreId
  }

  /** Processors with the same key are on the same core exactly when their physical ids are equally long. */
  lemma KeyTellsCoresApartIff(a: CpuInfo, b: CpuInfo)
    requires Key(a) == Key(b)
    ensures OnOneCore(a, b) <==> |a.physicalId| == |b.physicalId|
  {
    if |a.physicalId| == |b.physicalId| {
      assert Key(a)[..|a.physicalId|] == a.physicalId && Key(b)[..|b.physicalId|] == b.physicalId;
      assert Key(a)[|a.physicalId|..] == a.coreId && Key(b)[|b.physicalId|..] == b.coreId;
    }
  }

  /** Core 11 of socket 1 and core 1 of socket 11 are taken for one. */
  lemma KeysCanClash()
    ensures Key(CpuInfo(0, "1", "11")) == Key(CpuInfo(1, "11", "1"))
  {
  }

  ghost predicate DistinctCpus(infos: seq<CpuInfo>) {
    forall i, j :: 0 <= i < j < |infos| ==> infos[i].cpu != infos[j].cpu
  }

  /** The first and the last processor listed for a core. */
  function FirstWith(infos: seq<CpuInfo>, key: string): (r: Option<nat>)
    ensures r.Some? ==> r.value < |infos| && Key(infos[r.value]) == key
  {
    if infos == [] then None
    else
      var n := |infos| - 1;
      var r := FirstWith(infos[..n], key);
      if r.None? && Key(infos[n]) == key then Some(n) else r
  }

  function LastWith(infos: seq<CpuInfo>, key: string): (r: Option<nat>)
    ensures r.Some? ==> r.value < |infos| && Key(infos[r.value]) == key
  {
    if infos == [] then None
    else
      var n := |infos| - 1;
      if Key(infos[n]) == key then Some(n) else LastWith(infos[..n], key)
  }

  lemma {:induction false} FirstLastBounds(infos: seq<CpuInfo>, i: nat)
    requires i < |infos|
    ensures var f, l := FirstWith(infos, Key(infos[i])), LastWith(infos, Key(infos[i]));
            f.Some? && l.Some? && f.value <= i <= l.value
  {
    if i < |infos| - 1 {
      FirstLastBounds(infos[..|infos| - 1], i);
    }
  }

  /**
   The sibling a processor is given: the first one of a core gets the last one, every other one gets
   the first, and a processor alone on its core gets none.
   */
  function Expected(infos: seq<CpuInfo>, i: nat): Option<int>
    requires i < |infos|
  {
    FirstLastBounds(infos, i);
    var f := FirstWith(infos, Key(infos[i])).value;
    var l := LastWith(infos, Key(infos[i])).value;
    if f == l then None else Some(if i == f then infos[l].cpu else infos[f].cpu)
  }

  function Cpus(infos: seq<CpuInfo>): set<int> {
    if infos == [] then {} else Cpus(infos[..|infos| - 1]) + {infos[|infos| - 1].cpu}
  }

  lemma {:induction false} CpuListed(infos: seq<CpuInfo>, c: int)
    ensures c in Cpus(infos) <==> exists i :: 0 <= i < |infos| && infos[i].cpu == c
  {
    if infos != [] {
      var n := |infos| - 1;
      CpuListed(infos[..n], c);
      if c in Cpus(infos[..n]) {
        var i :| 0 <= i < n && infos[..n][i].cpu == c;
        assert infos[i].cpu == c;
      }
      if exists i :: 0 <= i < |infos| && infos[i].cpu == c {
        var i :| 0 <= i < |infos| && infos[i].cpu == c;
        assert i < n ==> infos[..n][i].cpu == c;
      }
    }
  }

  ghost predicate Describes(infos: seq<CpuInfo>, sib: Siblings) {
    && sib.Keys <= Cpus(infos)
    && forall i :: 0 <= i < |infos| ==> Find(sib, infos[i].cpu) == Expected(infos, i)
  }

  /** For each core, the first processor seen on it. */
  ghost predicate FirstThreads(infos: seq<CpuInfo>, m: map<string, int>) {
    forall key :: && (key in m <==> FirstWith(infos, key).Some?)
                  && (key in m ==> m[key] == infos[FirstWith(infos, key).value].cpu)
  }

  /** Only processors that were listed are given a sibling, and only such are given. */
  ghost predicate Listed(infos: seq<CpuInfo>, sib: Siblings) {
    forall c :: c in sib ==> c in Cpus(infos) && sib[c] in Cpus(infos)
  }

  method GenerateThreadSiblings(infos: seq<CpuInfo>) returns (threadSiblings: Siblings)
    ensures DistinctCpus(infos) ==> Describes(infos, threadSiblings)
    ensures Listed(infos, threadSiblings)
  {
    threadSiblings := map[];
    var coreIdToThread: map<string, int> := map[];
    for n := 0 to |infos|
      invariant DistinctCpus(infos[..n]) ==> Describes(infos[..n], threadSiblings)
      invariant FirstThreads(infos[..n], coreIdToThread)
      invariant Listed(infos[..n], threadSiblings)
    {
      ghost var part := infos[..n + 1];
      assert part[..n] == infos[..n];
      threadSiblings, coreIdToThread := AddThread(infos[n], threadSiblings, coreIdToThread, part);
    }
    assert infos[..|infos|] == infos;
  }

  method AddThread(c: CpuInfo, sib: Siblings, m: map<string, int>, ghost infos: seq<CpuInfo>)
      returns (sib': Siblings, m': map<string, int>)
    requires infos != [] && c == infos[|infos| - 1] && FirstThreads(infos[..|infos| - 1], m)
    requires Listed(infos[..|infos| - 1], sib) && (DistinctCpus(infos) ==> Describes(infos[..|infos| - 1], sib))
    ensures Listed(infos, sib') && (DistinctCpus(infos) ==> Describes(infos, sib'))
    ensures FirstThreads(infos, m')
  {
    sib', m' := sib, m;
    FirstThreadsStep(infos, m);
    if Key(c) !in m {
      if DistinctCpus(infos) {
        NewCore(infos, sib);
      }
      m' := m[Key(c) := c.cpu];
    } else {
      var tid := m[Key(c)];
      CpusListed(infos[..|infos| - 1], FirstWith(infos[..|infos| - 1], Key(c)).value);
      if DistinctCpus(infos) {
        SharedCore(infos, sib);
      }
      sib' := sib[c.cpu := tid][tid := c.cpu];
    }
  }

  lemma FirstThreadsStep(infos: seq<CpuInfo>, m: map<string, int>)
    requires infos != [] && FirstThreads(infos[..|infos| - 1], m)
    ensures var c := infos[|infos| - 1];
            FirstThreads(infos, if Key(c) in m then m else m[Key(c) := c.cpu])
  {
  }

  /** The processors of other cores keep what they have. */
  lemma OtherCores(infos: seq<CpuInfo>, i: nat)
    requires i < |infos| - 1 && Key(infos[i]) != Key(infos[|infos| - 1])
    ensures Expected(infos, i) == Expected(infos[..|infos| - 1], i)
  {
    FirstLastBounds(infos[..|infos| - 1], i);
  }

  lemma CpusListed(infos: seq<CpuInfo>, i: nat)
    requires i < |infos|
    ensures infos[i].cpu in Cpus(infos)
  {
    CpuListed(infos, infos[i].cpu);
  }

  lemma NotListed(infos: seq<CpuInfo>)
    requires infos != [] && DistinctCpus(infos)
    ensures infos[|infos| - 1].cpu !in Cpus(infos[..|infos| - 1])
  {
    CpuListed(infos[..|infos| - 1], infos[|infos| - 1].cpu);
  }

  lemma NewCore(infos: seq<CpuInfo>, sib: Siblings)
    requires infos != [] && DistinctCpus(infos) && Describes(infos[..|infos| - 1], sib)
    requires FirstWith(infos[..|infos| - 1], Key(infos[|infos| - 1])).None?
    ensures Describes(infos, sib)
  {
    var n := |infos| - 1;
    NotListed(infos);
    forall i | 0 <= i < |infos|
      ensures Find(sib, infos[i].cpu) == Expected(infos, i)
    {
      if i < n {
        FirstLastBounds(infos[..n], i);
        OtherCores(infos, i);
        assert Find(sib, infos[..n][i].cpu) == Expected(infos[..n], i);
      }
    }
  }

  lemma SharedCore(infos: seq<CpuInfo>, sib: Siblings)
    requires infos != [] && DistinctCpus(infos) && Describes(infos[..|infos| - 1], sib)
    requires FirstWith(infos[..|infos| - 1], Key(infos[|infos| - 1])).Some?
    ensures var n := |infos| - 1;
            var tid := infos[FirstWith(infos[..n], Key(infos[n])).value].cpu;
            Describes(infos, sib[infos[n].cpu := tid][tid := infos[n].cpu])
  {
    var n := |infos| - 1;
    var f := FirstWith(infos[..n], Key(infos[n])).value;
    CpusListed(infos, f);
    var sib' := sib[infos[n].cpu := infos[f].cpu][infos[f].cpu := infos[n].cpu];
    forall i | 0 <= i < |infos|
      ensures Find(sib', infos[i].cpu) == Expected(infos, i)
    {
      if i < n {
        assert Find(sib, infos[..n][i].cpu) == Expected(infos[..n], i);
        if Key(infos[i]) != Key(infos[n]) {
          OtherCores(infos, i);
          assert Find(sib', infos[i].cpu) == Find(sib, infos[i].cpu);
        } else if i != f {
          FirstLastBounds(infos[..n], i);
          assert Find(sib', infos[i].cpu) == Find(sib, infos[i].cpu);
        }
      }
    }
  }

  // ---------------------------------------------------------------- when siblings are mutual

  predicate SameCore(infos: seq<CpuInfo>, i: nat, j: nat) {
    i < |infos| && j < |infos| && Key(infos[i]) == Key(infos[j])
  }

  ghost predicate AtMostTwoPerCore(infos: seq<CpuInfo>) {
    forall i, j, k :: 0 <= i < j < k < |infos| ==> !(SameCore(infos, i, j) && SameCore(infos, j, k))
  }

  ghost predicate Symmetric(sib: Siblings) {
    forall c :: c in sib ==> sib[c] != c && sib[c] in sib && sib[sib[c]] == c
  }

  lemma TwoPerCoreIsSymmetric(infos: seq<CpuInfo>, sib: Siblings)
    requires DistinctCpus(infos) && Describes(infos, sib) && AtMostTwoPerCore(infos)
    ensures Symmetric(sib)
  {
    forall c | c in sib
      ensures sib[c] != c && sib[c] in sib && sib[sib[c]] == c
    {
      CpuListed(infos, c);
      var i :| 0 <= i < |infos| && infos[i].cpu == c;
      Mutual(infos, sib, i);
    }
  }

  lemma Mutual(infos: seq<CpuInfo>, sib: Siblings, i: nat)
    requires DistinctCpus(infos) && Describes(infos, sib) && AtMostTwoPerCore(infos)
    requires i < |infos| && infos[i].cpu in sib
    ensures var c := infos[i].cpu;
            sib[c] != c && sib[c] in sib && sib[sib[c]] == c
  {
    FirstLastBounds(infos, i);
    var f, l := FirstWith(infos, Key(infos[i])).value, LastWith(infos, Key(infos[i])).value;
    assert Find(sib, infos[f].cpu) == Expected(infos, f);
    assert Find(sib, infos[l].cpu) == Expected(infos, l);
    assert Find(sib, infos[i].cpu) == Expected(infos, i);
    assert f < i < l ==> SameCore(infos, f, i) && SameCore(infos, i, l);
    assert i == f || i == l;
  }

  lemma ThreePerCoreIsNot(infos: seq<CpuInfo>, sib: Siblings, i: nat, j: nat, k: nat)
    requires DistinctCpus(infos) && Describes(infos, sib)
    requires i < j < k < |infos| && SameCore(infos, i, j) && SameCore(infos, j, k)
    ensures !Symmetric(sib)
  {
    FirstLastBounds(infos, i);
    FirstLastBounds(infos, k);
    var f, l := FirstWith(infos, Key(infos[j])).value, LastWith(infos, Key(infos[j])).value;
    assert Find(sib, infos[f].cpu) == Expected(infos, f) == Some(infos[l].cpu);
    assert Find(sib, infos[j].cpu) == Expected(infos, j) == Some(infos[f].cpu);
  }

  /** The sibling map is symmetric exactly when no three processors share a core key. */
  lemma SymmetricIffAtMostTwo(infos: seq<CpuInfo>, sib: Siblings)
    requires DistinctCpus(infos) && Describes(infos, sib)
    ensures Symmetric(sib) <==> AtMostTwoPerCore(infos)
  {
    if AtMostTwoPerCore(infos) {
      TwoPerCoreIsSymmetric(infos, sib);
    } else {
      var i, j, k :| 0 <= i < j < k < |infos| && SameCore(infos, i, j) && SameCore(infos, j, k);
      ThreePerCoreIsNot(infos, sib, i, j, k);
    }
  }

  /** The processors at two places have the same physical and core id, put together. */
  predicate SameIds(infos: seq<CpuInfo>, i: int, j: int) {
    && 0 <= i < |infos| && 0 <= j < |infos|
    && infos[i].physicalId + infos[i].coreId == infos[j].physicalId + infos[j].coreId
  }

  /** A processor has a sibling exactly when another one has its ids; two that are alone with theirs are siblings. */
  lemma SiblingsMean(infos: seq<CpuInfo>, sib: Siblings, i: nat)
    requires DistinctCpus(infos) && Describes(infos, sib) && i < |infos|
    ensures infos[i].cpu in sib <==> exists j :: j != i && SameIds(infos, i, j)
    ensures forall j :: j != i && SameIds(infos, i, j) && (forall k :: SameIds(infos, i, k) ==> k == i || k == j) ==>
              infos[i].cpu in sib && sib[infos[i].cpu] == infos[j].cpu
  {
    FirstLastBounds(infos, i);
    var f, l := FirstWith(infos, Key(infos[i])).value, LastWith(infos, Key(infos[i])).value;
    assert Find(sib, infos[i].cpu) == Expected(infos, i);
    assert SameIds(infos, i, f) && SameIds(infos, i, l);
    forall j | j != i && SameIds(infos, i, j)
      ensures f < l && f <= j <= l
    {
      FirstLastBounds(infos, j);
    }
  }

  /** Every processor and the sibling it is given are on one core. */
  ghost predicate SiblingsShareCore(infos: seq<CpuInfo>, sib: Siblings) {
    forall i, j :: 0 <= i < |infos| && 0 <= j < |infos| && Find(sib, infos[i].cpu) == Some(infos[j].cpu) ==>
                     OnOneCore(infos[i], infos[j])
  }

  ghost predicate KeysTellCoresApart(infos: seq<CpuInfo>) {
    forall i: nat, j: nat :: SameCore(infos, i, j) ==> |infos[i].physicalId| == |infos[j].physicalId|
  }

  /** The first processor listed with the key of another one is on its core if the map says what it should. */
  lemma OnCoreOfFirst(infos: seq<CpuInfo>, sib: Siblings, i: nat)
    requires DistinctCpus(infos) && Describes(infos, sib) && SiblingsShareCore(infos, sib) && i < |infos|
    ensures var f := FirstWith(infos, Key(infos[i]));
            f.Some? && OnOneCore(infos[i], infos[f.value])
  {
    FirstLastBounds(infos, i);
    var f := FirstWith(infos, Key(infos[i])).value;
    if i != f {
      assert Find(sib, infos[i].cpu) == Expected(infos, i) == Some(infos[f].cpu);
    }
  }

  /** A processor is given a sibling with its own key. */
  lemma SiblingHasSameKey(infos: seq<CpuInfo>, sib: Siblings, i: nat, j: nat)
    requires DistinctCpus(infos) && Describes(infos, sib) && i < |infos| && j < |infos|
    requires Find(sib, infos[i].cpu) == Some(infos[j].cpu)
    ensures SameCore(infos, i, j)
  {
    FirstLastBounds(infos, i);
    var f, l := FirstWith(infos, Key(infos[i])).value, LastWith(infos, Key(infos[i])).value;
    assert Expected(infos, i) == Some(infos[j].cpu);
    assert j == f || j == l;
  }

  /**
   The map pairs processors of one core only exactly when processors with equal keys have equally long physical
   ids.
   */
  lemma SiblingsShareCoreIff(infos: seq<CpuInfo>, sib: Siblings)
    requires DistinctCpus(infos) && Describes(infos, sib)
    ensures SiblingsShareCore(infos, sib) <==> KeysTellCoresApart(infos)
  {
    if SiblingsShareCore(infos, sib) {
      forall i: nat, j: nat | SameCore(infos, i, j)
        ensures |infos[i].physicalId| == |infos[j].physicalId|
      {
        OnCoreOfFirst(infos, sib, i);
        OnCoreOfFirst(infos, sib, j);
      }
    }
    if KeysTellCoresApart(infos) {
      forall i, j | 0 <= i < |infos| && 0 <= j < |infos| && Find(sib, infos[i].cpu) == Some(infos[j].cpu)
        ensures OnOneCore(infos[i], infos[j])
      {
        SiblingHasSameKey(infos, sib, i, j);
        KeyTellsCoresApartIff(infos[i], infos[j]);
      }
    }
  }

  // ---------------------------------------------------------------- choosing cores

  /** The sibling of c is one of the cores and has not been picked. */
  predicate FreeSibling(s: seq<int>, sib: Siblings, picked: seq<int>, c: int) {
    c in sib && sib[c] in s && sib[c] !in picked
  }

  /** What is picked when core c, not picked so far, has its turn: the core, then its sibling if it is free. */
  function WithSibling(s: seq<int>, sib: Siblings, one: seq<int>, c: int): seq<int> {
    if FreeSibling(s, sib, one, c) then one + [sib[c]] else one
  }

  /** The order in which cores are picked: from high to low, each followed by its sibling. */
  function Picks(s: seq<int>, sib: Siblings, i: nat, picked: seq<int>): seq<int>
    requires i <= |s|
  {
    if i == 0 then picked
    else if s[i - 1] in picked then Picks(s, sib, i - 1, picked)
    else
      Picks(s, sib, i - 1, WithSibling(s, sib, picked + [s[i - 1]], s[i - 1]))
  }

  function PickOrder(total: seq<int>, sib: Siblings): seq<int> {
    var s := Sorted(total);
    Picks(s, sib, |s|, [])
  }

  /** A number that can be reached cuts the order short; otherwise all cores are taken. */
  function Chosen(total: seq<int>, sib: Siblings, n: int): seq<int> {
    var order := PickOrder(total, sib);
    if 0 <= n <= |order| then order[..n] else order
  }

  function Remaining(s: seq<int>, chosen: seq<int>): seq<int> {
    if s == [] then []
    else
      var rest := Remaining(s[..|s| - 1], chosen);
      if s[|s| - 1] in chosen then rest else rest + [s[|s| - 1]]
  }

  /** The cores left over; nothing is sorted when nothing was asked for. */
  function Left(total: seq<int>, sib: Siblings, n: int): seq<int> {
    if n == 0 then total else Remaining(Sorted(total), Chosen(total, sib, n))
  }

  lemma {:induction false} PicksExtend(s: seq<int>, sib: Siblings, i: nat, picked: seq<int>)
    requires i <= |s|
    ensures picked <= Picks(s, sib, i, picked)
  {
    if i > 0 {
      if s[i - 1] in picked {
        PicksExtend(s, sib, i - 1, picked);
      } else {
        var one := picked + [s[i - 1]];
        PicksExtend(s, sib, i - 1, if FreeSibling(s, sib, one, s[i - 1]) then one + [sib[s[i - 1]]] else one);
      }
    }
  }

  method ChooseNumaCores(totalCores: array<int>, sib: Siblings, chosenNum: int)
      returns (chosen: seq<int>, left: seq<int>)
    modifies totalCores
    ensures chosen == Chosen(old(totalCores[..]), sib, chosenNum)
    ensures left == Left(old(totalCores[..]), sib, chosenNum)
    ensures totalCores[..] == if chosenNum == 0 then old(totalCores[..]) else Sorted(old(totalCores[..]))
  {
    chosen, left := [], [];
    ghost var total := totalCores[..];
    if totalCores.Length == 0 {
      return;
    }
    if chosenNum == 0 {
      left := totalCores[..];
      return;
    }
    SortInts(totalCores);
    SortedSorts(total);
    var s := totalCores[..];
    chosen := PickUpTo(s, sib, chosenNum);
    left := CollectLeft(s, chosen);
  }

  method CollectLeft(s: seq<int>, chosen: seq<int>) returns (left: seq<int>)
    ensures left == Remaining(s, chosen)
  {
    left := [];
    for k := 0 to |s|
      invariant left == Remaining(s[..k], chosen)
    {
      assert s[..k + 1][..k] == s[..k];
      if s[k] !in chosen {
        left := left + [s[k]];
      }
    }
    assert s[..|s|] == s;
  }

  /** The descending loop; membership in chosen stands for the map ifChosen of the source. */
  lemma PicksStep(s: seq<int>, sib: Siblings, i: nat, picked: seq<int>)
    requires 0 < i <= |s|
    ensures s[i - 1] in picked ==> Picks(s, sib, i, picked) == Picks(s, sib, i - 1, picked)
    ensures s[i - 1] !in picked ==>
              var two := WithSibling(s, sib, picked + [s[i - 1]], s[i - 1]);
              && Picks(s, sib, i, picked) == Picks(s, sib, i - 1, two)
              && picked + [s[i - 1]] <= two <= Picks(s, sib, i, picked)
  {
    if s[i - 1] !in picked {
      PicksExtend(s, sib, i - 1, WithSibling(s, sib, picked + [s[i - 1]], s[i - 1]));
    }
  }

  /** The turn of a core that is not picked: pick it, then its sibling if it is free, unless n are picked. */
  method PickTurn(s: seq<int>, sib: Siblings, picked: seq<int>, c: int, n: int) returns (chosen: seq<int>, done: bool)
    requires n != 0 && (n < 0 || |picked| < n)
    ensures var two := WithSibling(s, sib, picked + [c], c);
            if done then chosen <= two && |chosen| == n else chosen == two && (n < 0 || |chosen| < n)
  {
    chosen := picked + [c];
    if |chosen| == n {
      return chosen, true;
    }
    if c in sib && sib[c] in s && sib[c] !in chosen {
      chosen := chosen + [sib[c]];
      if |chosen| == n {
        return chosen, true;
      }
    }
    done := false;
  }

  lemma PrefixOfPrefix(a: seq<int>, b: seq<int>, c: seq<int>)
    requires a <= b <= c
    ensures a == c[..|a|]
  {
  }

  method PickUpTo(s: seq<int>, sib: Siblings, chosenNum: int) returns (chosen: seq<int>)
    requires s != [] && chosenNum != 0
    ensures var order := Picks(s, sib, |s|, []);
            chosen == if 0 < chosenNum <= |order| then order[..chosenNum] else order
  {
    ghost var order := Picks(s, sib, |s|, []);
    chosen := [];
    var i := |s|;
    while i > 0
      invariant 0 <= i <= |s|
      invariant Picks(s, sib, i, chosen) == order
      invariant chosenNum < 0 || |chosen| < chosenNum
    {
      PicksStep(s, sib, i, chosen);
      i := i - 1;
      if s[i] !in chosen {
        ghost var two := WithSibling(s, sib, chosen + [s[i]], s[i]);
        var done;
        chosen, done := PickTurn(s, sib, chosen, s[i], chosenNum);
        if done {
          PrefixOfPrefix(chosen, two, order);
          return;
        }
      }
    }
  }

  // ---------------------------------------------------------------- what the choice guarantees

  lemma {:induction false} PicksCover(s: seq<int>, sib: Siblings, i: nat, picked: seq<int>)
    requires i <= |s| && NoDup(picked)
    requires forall x :: x in picked ==> x in s
    requires forall j :: i <= j < |s| ==> s[j] in picked
    ensures NoDup(Picks(s, sib, i, picked))
    ensures forall x :: x in Picks(s, sib, i, picked) <==> x in s
  {
    if i > 0 {
      var c := s[i - 1];
      if c in picked {
        PicksCover(s, sib, i - 1, picked);
      } else {
        var one := picked + [c];
        PicksCover(s, sib, i - 1, if FreeSibling(s, sib, one, c) then one + [sib[c]] else one);
      }
    }
  }

  /** The whole order is the list of cores, each once. */
  lemma PickOrderIsPermutation(total: seq<int>, sib: Siblings)
    requires NoDup(total)
    ensures NoDup(PickOrder(total, sib)) && |PickOrder(total, sib)| == |total|
    ensures forall x :: x in PickOrder(total, sib) <==> x in total
  {
    var s, order := Sorted(total), PickOrder(total, sib);
    SortedSorts(total);
    PicksCover(s, sib, |s|, []);
    NoDupCardinality(order);
    NoDupCardinality(total);
    assert Elements(order) == Elements(total);
  }

  lemma {:induction false} RemainingElements(s: seq<int>, chosen: seq<int>)
    ensures forall x :: x in Remaining(s, chosen) <==> x in s && x !in chosen
    ensures NoDup(s) ==> NoDup(Remaining(s, chosen))
  {
    if s != [] {
      var init, last := s[..|s| - 1], s[|s| - 1];
      RemainingElements(init, chosen);
      assert forall x :: x in s <==> x in init || x == last;
      assert NoDup(s) ==> last !in init;
    }
  }

  /** Chosen and left partition the cores, and exactly the number asked for is chosen if there are that many. */
  lemma ChoiceIsPartition(total: seq<int>, sib: Siblings, n: int)
    requires NoDup(total)
    ensures |Chosen(total, sib, n)| == if 0 <= n <= |total| then n else |total|
    ensures NoDup(Chosen(total, sib, n)) && NoDup(Left(total, sib, n))
    ensures forall x :: x in total <==> x in Chosen(total, sib, n) || x in Left(total, sib, n)
    ensures forall x :: !(x in Chosen(total, sib, n) && x in Left(total, sib, n))
  {
    PickOrderIsPermutation(total, sib);
    SortedSorts(total);
    SortedNoDup(total);
    RemainingElements(Sorted(total), Chosen(total, sib, n));
    var order, chosen := PickOrder(total, sib), Chosen(total, sib, n);
    forall x | x in chosen
      ensures x in order
    {
      var i :| 0 <= i < |chosen| && chosen[i] == x;
      assert order[i] == x;
    }
  }

  lemma {:induction false} RemainingAscends(s: seq<int>, chosen: seq<int>)
    requires Ascending(s)
    ensures Ascending(Remaining(s, chosen))
  {
    if s != [] {
      var init, last := s[..|s| - 1], s[|s| - 1];
      RemainingAscends(init, chosen);
      RemainingElements(init, chosen);
      var rest := Remaining(init, chosen);
      forall i | 0 <= i < |rest|
        ensures rest[i] <= last
      {
        assert rest[i] in rest;
        var k :| 0 <= k < |init| && init[k] == rest[i];
        assert s[k] <= s[|s| - 1];
      }
    }
  }

  /** Place a of the picks is allowed to come before core x: it is no lower, or the sibling of one that is no lower. */
  predicate MayPrecede(sib: Siblings, picked: seq<int>, a: nat, x: int)
    requires a < |picked|
  {
    picked[a] >= x || (a > 0 && picked[a - 1] in sib && sib[picked[a - 1]] == picked[a] && picked[a - 1] >= x)
  }

  ghost predicate Descending(sib: Siblings, picked: seq<int>) {
    forall a, b :: 0 <= a < b < |picked| ==> MayPrecede(sib, picked, a, picked[b])
  }

  /** Every pick may precede what is still to be picked among the first i cores. */
  ghost predicate PrecedeRest(s: seq<int>, sib: Siblings, i: nat, picked: seq<int>)
    requires i <= |s|
  {
    forall a, j :: 0 <= a < |picked| && 0 <= j < i && s[j] !in picked ==> MayPrecede(sib, picked, a, s[j])
  }

  lemma PrecedeKept(sib: Siblings, picked: seq<int>, more: seq<int>, a: nat, x: int)
    requires picked <= more && a < |picked| && MayPrecede(sib, picked, a, x)
    ensures MayPrecede(sib, more, a, x)
  {
  }

  lemma DescendingStep(s: seq<int>, sib: Siblings, i: nat, picked: seq<int>)
    requires Ascending(s) && 0 < i <= |s| && s[i - 1] !in picked && (forall j :: i <= j < |s| ==> s[j] in picked)
    requires Descending(sib, picked) && PrecedeRest(s, sib, i, picked)
    ensures var two := WithSibling(s, sib, picked + [s[i - 1]], s[i - 1]);
            Descending(sib, two) && PrecedeRest(s, sib, i - 1, two)
  {
    var c, n := s[i - 1], |picked|;
    var two := WithSibling(s, sib, picked + [c], c);
    forall a, j | 0 <= a < n && 0 <= j < i && s[j] !in picked
      ensures MayPrecede(sib, two, a, s[j])
    {
      PrecedeKept(sib, picked, two, a, s[j]);
    }
    forall a, b | 0 <= a < b < |two|
      ensures MayPrecede(sib, two, a, two[b])
    {
      if b < n {
        PrecedeKept(sib, picked, two, a, picked[b]);
      } else {
        var j :| 0 <= j < |s| && s[j] == two[b];
      }
    }
    forall a, j | n <= a < |two| && 0 <= j < i - 1
      ensures MayPrecede(sib, two, a, s[j])
    {
    }
  }

  /** The picks after the turn of core i - 1. */
  function NextPicks(s: seq<int>, sib: Siblings, i: nat, picked: seq<int>): seq<int>
    requires 0 < i <= |s|
  {
    if s[i - 1] in picked then picked else WithSibling(s, sib, picked + [s[i - 1]], s[i - 1])
  }

  ghost predicate DescendsSoFar(s: seq<int>, sib: Siblings, i: nat, picked: seq<int>) {
    && Ascending(s) && i <= |s| && (forall j :: i <= j < |s| ==> s[j] in picked)
    && Descending(sib, picked) && PrecedeRest(s, sib, i, picked)
  }

  lemma DescendsOneMore(s: seq<int>, sib: Siblings, i: nat, picked: seq<int>)
    requires 0 < i && DescendsSoFar(s, sib, i, picked)
    ensures DescendsSoFar(s, sib, i - 1, NextPicks(s, sib, i, picked))
  {
    if s[i - 1] !in picked {
      DescendingStep(s, sib, i, picked);
      var next := NextPicks(s, sib, i, picked);
      assert next[|picked|] == s[i - 1];
      forall j | i <= j < |s|
        ensures s[j] in next
      {
        var a :| 0 <= a < |picked| && picked[a] == s[j];
        assert next[a] == s[j];
      }
    }
  }

  lemma {:induction false} PicksDescend(s: seq<int>, sib: Siblings, i: nat, picked: seq<int>)
    requires DescendsSoFar(s, sib, i, picked)
    ensures Descending(sib, Picks(s, sib, i, picked))
  {
    if i > 0 {
      DescendsOneMore(s, sib, i, picked);
      PicksDescend(s, sib, i - 1, NextPicks(s, sib, i, picked));
      PicksStep(s, sib, i, picked);
    }
  }

  /**
   Cores are chosen from high to low: a chosen core is higher than one that is left, or its sibling is and was
   chosen.
   */
  lemma HighestFirst(total: seq<int>, sib: Siblings, n: int, c: int, d: int)
    requires n != 0 && c in Chosen(total, sib, n) && d in Left(total, sib, n)
    ensures c > d || exists e :: e in Chosen(total, sib, n) && e in sib && sib[e] == c && e > d
    ensures Ascending(Left(total, sib, n))
  {
    var s, order, chosen := Sorted(total), PickOrder(total, sib), Chosen(total, sib, n);
    SortedSorts(total);
    RemainingElements(s, chosen);
    RemainingAscends(s, chosen);
    PicksCover(s, sib, |s|, []);
    PicksDescend(s, sib, |s|, []);
    var a :| 0 <= a < |chosen| && chosen[a] == c;
    var b :| 0 <= b < |order| && order[b] == d;
    assert order[a] == c && d !in chosen;
    if b < |chosen| {
      assert false;
    }
    assert MayPrecede(sib, order, a, order[b]);
    assert a > 0 ==> chosen[a - 1] == order[a - 1] && chosen[a - 1] in chosen;
  }

  /** Asking for one core more keeps what was chosen before. */
  lemma ChoiceGrows(total: seq<int>, sib: Siblings, n: nat)
    ensures Chosen(total, sib, n) <= Chosen(total, sib, n + 1)
  {
    var order := PickOrder(total, sib);
    if n + 1 <= |order| {
      assert order[..n] <= order[..n + 1];
    }
  }

  predicate HasNeighbour(order: seq<int>, k: nat, x: int)
    requires k < |order|
  {
    (k + 1 < |order| && order[k + 1] == x) || (k > 0 && order[k - 1] == x)
  }

  /** Whoever has a sibling among the cores stands next to it. */
  ghost predicate Paired(s: seq<int>, sib: Siblings, picked: seq<int>) {
    forall k :: 0 <= k < |picked| && picked[k] in sib && sib[picked[k]] in s ==> HasNeighbour(picked, k, sib[picked[k]])
  }

  lemma SiblingPicked(s: seq<int>, sib: Siblings, picked: seq<int>, c: int)
    requires Symmetric(sib) && Paired(s, sib, picked) && c in s && c in sib && sib[c] in picked
    ensures c in picked
  {
    var j :| 0 <= j < |picked| && picked[j] == sib[c];
    assert HasNeighbour(picked, j, c);
  }

  lemma PairedStep(s: seq<int>, sib: Siblings, picked: seq<int>, c: int)
    requires Symmetric(sib) && Paired(s, sib, picked) && c in s && c !in picked
    ensures Paired(s, sib, WithSibling(s, sib, picked + [c], c))
  {
    var n, next := |picked|, WithSibling(s, sib, picked + [c], c);
    forall k | 0 <= k < |next| && next[k] in sib && sib[next[k]] in s
      ensures HasNeighbour(next, k, sib[next[k]])
    {
      if k < n {
        assert next[k] == picked[k];
        assert HasNeighbour(picked, k, sib[picked[k]]);
      } else if sib[c] in picked {
        SiblingPicked(s, sib, picked, c);
      }
    }
  }

  lemma {:induction false} PicksPaired(s: seq<int>, sib: Siblings, i: nat, picked: seq<int>)
    requires i <= |s| && Symmetric(sib) && Paired(s, sib, picked)
    ensures Paired(s, sib, Picks(s, sib, i, picked))
  {
    if i > 0 {
      var c := s[i - 1];
      if c in picked {
        PicksPaired(s, sib, i - 1, picked);
      } else {
        PairedStep(s, sib, picked, c);
        PicksPaired(s, sib, i - 1, WithSibling(s, sib, picked + [c], c));
      }
    }
  }

  /** The chosen core c is parted from its sibling. */
  predicate IsParted(total: seq<int>, sib: Siblings, n: int, c: int) {
    c in Chosen(total, sib, n) && c in sib && sib[c] in Left(total, sib, n)
  }

  lemma PartedIsLast(total: seq<int>, sib: Siblings, n: int, c: int)
    requires Symmetric(sib) && IsParted(total, sib, n, c)
    ensures var chosen := Chosen(total, sib, n);
            c == chosen[|chosen| - 1]
  {
    var s, order, chosen := Sorted(total), PickOrder(total, sib), Chosen(total, sib, n);
    RemainingElements(s, chosen);
    PicksPaired(s, sib, |s|, []);
    var k :| 0 <= k < |chosen| && chosen[k] == c;
    assert order[k] == c && HasNeighbour(order, k, sib[c]);
    NeighbourOutside(order, chosen, k, sib[c]);
  }

  /** Only the last of the first few has a neighbour outside. */
  lemma NeighbourOutside(order: seq<int>, part: seq<int>, k: nat, x: int)
    requires part <= order && k < |part| && HasNeighbour(order, k, x) && x !in part
    ensures k == |part| - 1
  {
    assert k > 0 ==> part[k - 1] == order[k - 1];
  }

  /** At most one pair of siblings is split between chosen and left. */
  lemma AtMostOnePairParted(total: seq<int>, sib: Siblings, n: int, c: int, d: int)
    requires Symmetric(sib) && IsParted(total, sib, n, c) && IsParted(total, sib, n, d)
    ensures c == d
  {
    PartedIsLast(total, sib, n, c);
    PartedIsLast(total, sib, n, d);
  }
}
