/**
 Picking YARN containers to kill (resource/yarn/ginit.go:422-528) in one of three orders
 (resource/yarn/container_sort.go).

 Memory and core amounts are exact reals instead of 32-bit floats.
 */
module VictimSelection {
  import opened Wrappers
  import opened Sorting
  import opened Folds

  datatype State = New | Localizing | Localized | Running | OtherState

  datatype Container = Container(
    id: string, state: State, isAM: bool,
    neededMB: real, neededVcores: real, usedMB: real, usedVcores: real, startTime: int)

  datatype Usage = Usage(usedMB: real, usedVcores: real, startTime: int)

  datatype Capacity = Capacity(memoryMB: int, vcores: int)

  datatype Conflict = NoConflict | MemoryConflict | CpuConflict | OtherConflict

  // ---------------------------------------------------------------- the three orders

  datatype Order = ByTime | ByCpu | ByMemory

  function OrderFor(c: Conflict): Order {
    if c == MemoryConflict then ByMemory else if c == CpuConflict then ByCpu else ByTime
  }

  predicate Less(o: Order, a: Container, b: Container) {
    if a.isAM && !b.isAM then false
    else if !a.isAM && b.isAM then true
    else match o
      case ByTime => a.startTime > b.startTime
      case ByCpu => if a.usedVcores == b.usedVcores then a.startTime > b.startTime else a.usedVcores > b.usedVcores
      case ByMemory => if a.usedMB == b.usedMB then a.startTime > b.startTime else a.usedMB > b.usedMB
  }

  /** Each order is a strict weak order, which is what sort.Sort asks for. */
  lemma LessIsStrictWeakOrder(o: Order, a: Container, b: Container, c: Container)
    ensures !Less(o, a, a)
    ensures Less(o, a, b) && Less(o, b, c) ==> Less(o, a, c)
    ensures !Less(o, a, b) && !Less(o, b, c) ==> !Less(o, a, c)
    ensures Less(o, a, b) ==> !Less(o, b, a)
  {
  }

  ghost predicate SortedBy(o: Order, cs: seq<Container>) {
    forall i, j :: 0 <= i < j < |cs| ==> !Less(o, cs[j], cs[i])
  }

  lemma SortedSnoc(o: Order, cs: seq<Container>, c: Container)
    requires SortedBy(o, cs) && forall x :: x in cs ==> !Less(o, c, x)
    ensures SortedBy(o, cs + [c])
  {
    assert forall i :: 0 <= i < |cs| ==> cs[i] in cs;
  }

  function LessBy(o: Order): (Container, Container) -> bool {
    (a, b) => Less(o, a, b)
  }

  lemma LessByIsStrictWeak(o: Order)
    ensures StrictWeak(LessBy(o))
  {
    var less := LessBy(o);
    forall a, b, c
      ensures less(a, b) ==> !less(b, a)
      ensures !less(a, b) && !less(b, c) ==> !less(a, c)
    {
      LessIsStrictWeakOrder(o, a, b, c);
    }
  }

  /** sort.Sort: some sorted permutation; callers know no more. */
  method SortContainers(o: Order, cs: seq<Container>) returns (r: seq<Container>)
    ensures SortedBy(o, r) && multiset(r) == multiset(cs)
  {
    LessByIsStrictWeak(o);
    SortBySorts(LessBy(o), cs);
    r := SortBy(LessBy(o), cs);
    forall i, j | 0 <= i < j < |r|
      ensures !Less(o, r[j], r[i])
    {
      assert !LessBy(o)(r[j], r[i]);
    }
  }

  // ---------------------------------------------------------------- totals

  /** The four running totals: allocated and used memory and cores. */
  datatype Totals = Totals(neededMB: real, neededVcores: real, usedMB: real, usedVcores: real)

  const ZERO := Totals(0.0, 0.0, 0.0, 0.0)

  function Plus(a: Totals, b: Totals): Totals {
    Totals(a.neededMB + b.neededMB, a.neededVcores + b.neededVcores, a.usedMB + b.usedMB, a.usedVcores + b.usedVcores)
  }

  function Minus(a: Totals, b: Totals): Totals {
    Totals(a.neededMB - b.neededMB, a.neededVcores - b.neededVcores, a.usedMB - b.usedMB, a.usedVcores - b.usedVcores)
  }

  function Cost(c: Container): Totals {
    Totals(c.neededMB, c.neededVcores, c.usedMB, c.usedVcores)
  }

  /** The allocated and the used half. */
  function Allocated(t: Totals): Totals {
    Totals(t.neededMB, t.neededVcores, 0.0, 0.0)
  }

  function Used(t: Totals): Totals {
    Totals(0.0, 0.0, t.usedMB, t.usedVcores)
  }

  function Sum(cs: seq<Container>): Totals {
    if cs == [] then ZERO else Plus(Sum(cs[..|cs| - 1]), Cost(cs[|cs| - 1]))
  }

  lemma SumSnoc(cs: seq<Container>, c: Container)
    ensures Sum(cs + [c]) == Plus(Sum(cs), Cost(c))
  {
    assert (cs + [c])[..|cs|] == cs;
  }

  lemma PlusAssociates(a: Totals, b: Totals, c: Totals)
    ensures Plus(Plus(a, b), c) == Plus(a, Plus(b, c)) && Plus(Plus(a, b), c) == Plus(Plus(a, c), b)
  {
  }

  lemma {:induction false} SumConcat(a: seq<Container>, b: seq<Container>)
    ensures Sum(a + b) == Plus(Sum(a), Sum(b))
  {
    if b == [] {
      assert a + b == a;
    } else {
      var init, last := b[..|b| - 1], b[|b| - 1];
      calc {
        Sum(a + b);
        { assert a + b == (a + init) + [last]; }
        Sum((a + init) + [last]);
        { SumSnoc(a + init, last); }
        Plus(Sum(a + init), Cost(last));
        { SumConcat(a, init); }
        Plus(Plus(Sum(a), Sum(init)), Cost(last));
        { PlusAssociates(Sum(a), Sum(init), Cost(last)); }
        Plus(Sum(a), Sum(b));
      }
    }
  }

  lemma SumWithout(cs: seq<Container>, i: nat)
    requires i < |cs|
    ensures Sum(cs) == Plus(Sum(Without(cs, i)), Cost(cs[i]))
  {
    var a, b := cs[..i], cs[i + 1..];
    calc {
      Sum(cs);
      { assert cs == (a + [cs[i]]) + b; }
      Sum((a + [cs[i]]) + b);
      { SumConcat(a + [cs[i]], b); }
      Plus(Sum(a + [cs[i]]), Sum(b));
      { SumSnoc(a, cs[i]); }
      Plus(Plus(Sum(a), Cost(cs[i])), Sum(b));
      { PlusAssociates(Sum(a), Cost(cs[i]), Sum(b)); }
      Plus(Plus(Sum(a), Sum(b)), Cost(cs[i]));
      { SumConcat(a, b); }
      Plus(Sum(Without(cs, i)), Cost(cs[i]));
    }
  }

  lemma {:induction false} SumPermutation(a: seq<Container>, b: seq<Container>)
    requires multiset(a) == multiset(b)
    ensures Sum(a) == Sum(b)
    decreases |a|
  {
    if a == [] {
      assert |multiset(b)| == 0;
    } else {
      var i := TakeOut(a, b);
      SumPermutation(a[..|a| - 1], Without(b, i));
      SumWithout(b, i);
    }
  }

  // ---------------------------------------------------------------- what runs on the node

  predicate IsRunning(c: Container) {
    c.state == Running
  }

  predicate IsIniting(c: Container) {
    c.state == New || c.state == Localizing || c.state == Localized
  }

  /** A container with its real usage filled in, when that is known. */
  function Measured(c: Container, stats: map<string, Usage>): Container {
    if c.id in stats then
      var u := stats[c.id];
      c.(usedMB := u.usedMB, usedVcores := u.usedVcores, startTime := u.startTime)
    else c
  }

  function RunningOf(cs: seq<Container>, stats: map<string, Usage>): seq<Container> {
    if cs == [] then []
    else
      var rest, c := RunningOf(cs[..|cs| - 1], stats), cs[|cs| - 1];
      if IsRunning(c) then rest + [Measured(c, stats)] else rest
  }

  /** What containers that are still starting hold: their allocation counts, they use nothing yet. */
  function Starting(cs: seq<Container>): Totals {
    if cs == [] then ZERO
    else
      var rest, c := Starting(cs[..|cs| - 1]), cs[|cs| - 1];
      if !IsRunning(c) && IsIniting(c) then Plus(rest, Allocated(Cost(c))) else rest
  }

  method GetContainerResource(cs: seq<Container>, stats: map<string, Usage>)
      returns (total: Totals, running: seq<Container>)
    ensures running == RunningOf(cs, stats)
    ensures total == Plus(Sum(running), Starting(cs))
  {
    running := [];
    var held := ZERO;
    for i := 0 to |cs|
      invariant running == RunningOf(cs[..i], stats)
      invariant held == Held(cs[..i])
    {
      assert cs[..i + 1][..i] == cs[..i];
      if IsRunning(cs[i]) {
        running := running + [Measured(cs[i], stats)];
        held := Plus(held, Allocated(Cost(cs[i])));
      } else if IsIniting(cs[i]) {
        held := Plus(held, Allocated(Cost(cs[i])));
      }
    }
    assert cs[..|cs|] == cs;
    var used := SumUsed(running);
    HeldSplit(cs, stats);
    StartingUsesNothing(cs);
    Halves(Sum(running), Starting(cs));
    total := Plus(held, used);
  }

  /** What all containers that run or start are allocated. */
  function Held(cs: seq<Container>): Totals {
    if cs == [] then ZERO
    else
      var rest, c := Held(cs[..|cs| - 1]), cs[|cs| - 1];
      if IsRunning(c) || IsIniting(c) then Plus(rest, Allocated(Cost(c))) else rest
  }

  lemma AllocatedSum(a: Totals, s: Totals, c: Totals)
    ensures Plus(Plus(Allocated(a), s), Allocated(c)) == Plus(Allocated(Plus(a, c)), s)
    ensures Plus(Plus(Allocated(a), s), Allocated(c)) == Plus(Allocated(a), Plus(s, Allocated(c)))
  {
  }

  lemma Halves(sum: Totals, starting: Totals)
    requires Used(starting) == ZERO
    ensures Plus(Plus(Allocated(sum), starting), Used(sum)) == Plus(sum, starting)
  {
  }

  lemma {:induction false} HeldSplit(cs: seq<Container>, stats: map<string, Usage>)
    ensures Held(cs) == Plus(Allocated(Sum(RunningOf(cs, stats))), Starting(cs))
  {
    if cs != [] {
      var init, c := cs[..|cs| - 1], cs[|cs| - 1];
      HeldSplit(init, stats);
      var running := RunningOf(init, stats);
      AllocatedSum(Sum(running), Starting(init), Cost(c));
      if IsRunning(c) {
        SumSnoc(running, Measured(c, stats));
        SameAllocation(Sum(running), c, stats);
      }
    }
  }

  lemma SameAllocation(sum: Totals, c: Container, stats: map<string, Usage>)
    ensures Allocated(Plus(sum, Cost(Measured(c, stats)))) == Allocated(Plus(sum, Cost(c)))
  {
  }

  lemma {:induction false} StartingUsesNothing(cs: seq<Container>)
    ensures Used(Starting(cs)) == ZERO
  {
    if cs != [] {
      StartingUsesNothing(cs[..|cs| - 1]);
    }
  }

  method SumUsed(running: seq<Container>) returns (used: Totals)
    ensures used == Used(Sum(running))
  {
    used := ZERO;
    for i := 0 to |running|
      invariant used == Used(Sum(running[..i]))
    {
      assert running[..i + 1] == running[..i] + [running[i]];
      SumSnoc(running[..i], running[i]);
      used := Plus(used, Used(Cost(running[i])));
    }
    assert running[..|running|] == running;
  }

  // ---------------------------------------------------------------- the kill loop

  predicate Within(limit: Option<Capacity>, t: Totals) {
    limit.Some? ==>
      && t.neededMB <= limit.value.memoryMB as real && t.neededVcores <= limit.value.vcores as real
      && t.usedMB <= limit.value.memoryMB as real && t.usedVcores <= limit.value.vcores as real
  }

  /** A container can be killed when its process group is known. */
  function Killable(cs: seq<Container>, pidOf: string -> int): seq<Container> {
    if cs == [] then []
    else
      var rest, c := Killable(cs[..|cs| - 1], pidOf), cs[|cs| - 1];
      if pidOf(c.id) > 1 then rest + [c] else rest
  }

  function Unkillable(cs: seq<Container>, pidOf: string -> int): seq<Container> {
    if cs == [] then []
    else
      var rest, c := Unkillable(cs[..|cs| - 1], pidOf), cs[|cs| - 1];
      if pidOf(c.id) > 1 then rest else rest + [c]
  }

  /** Killing the first k of the list is enough; in a conflict at least one has to go. */
  predicate Enough(limit: Option<Capacity>, conflict: Conflict, total: Totals, victims: seq<Container>, k: nat)
    requires k <= |victims|
  {
    Within(limit, Minus(total, Sum(victims[..k]))) && (conflict != NoConflict ==> k > 0)
  }

  /** k is the shortest prefix that is enough, or everything. */
  ghost predicate Shortest(limit: Option<Capacity>, conflict: Conflict, total: Totals, victims: seq<Container>,
                           k: nat) {
    && k <= |victims|
    && (k < |victims| ==> Enough(limit, conflict, total, victims, k))
    && NoneEnough(limit, conflict, total, victims, k)
  }

  ghost predicate NoneEnough(limit: Option<Capacity>, conflict: Conflict, total: Totals, victims: seq<Container>,
                             k: nat)
    requires k <= |victims|
  {
    forall j :: 0 <= j < k ==> !Enough(limit, conflict, total, victims, j)
  }

  lemma OneMoreVictim(limit: Option<Capacity>, conflict: Conflict, total: Totals, victims: seq<Container>, k: nat)
    requires k < |victims| && NoneEnough(limit, conflict, total, victims, k)
    requires !Enough(limit, conflict, total, victims, k)
    ensures NoneEnough(limit, conflict, total, victims, k + 1)
    ensures Minus(total, Sum(victims[..k + 1])) == Minus(Minus(total, Sum(victims[..k])), Cost(victims[k]))
  {
    assert victims[..k + 1] == victims[..k] + [victims[k]];
    SumSnoc(victims[..k], victims[k]);
  }

  lemma {:induction false} KillablePrefix(cs: seq<Container>, pidOf: string -> int, i: nat)
    requires i <= |cs|
    ensures Killable(cs[..i], pidOf) <= Killable(cs, pidOf)
    decreases |cs|
  {
    if i == |cs| {
      assert cs[..i] == cs;
    } else {
      var init := cs[..|cs| - 1];
      assert init[..i] == cs[..i];
      KillablePrefix(init, pidOf, i);
    }
  }

  method PickVictims(sorted: seq<Container>, pidOf: string -> int, limit: Option<Capacity>, conflict: Conflict,
                     total: Totals)
      returns (picked: seq<Container>, left: Totals)
    ensures var victims := Killable(sorted, pidOf);
            && |picked| <= |victims| && picked == victims[..|picked|]
            && Shortest(limit, conflict, total, victims, |picked|)
    ensures left == Minus(total, Sum(picked))
  {
    picked, left := [], total;
    ghost var victims := Killable(sorted, pidOf);
    for i := 0 to |sorted|
      invariant picked == Killable(sorted[..i], pidOf)
      invariant Progress(limit, conflict, total, victims, picked, left)
    {
      if Within(limit, left) {
        if conflict == NoConflict || |picked| != 0 {
          StopHere(limit, conflict, total, victims, picked, left);
          return;
        }
      }
      KillableStep(sorted, pidOf, i);
      if pidOf(sorted[i].id) <= 1 {
        continue;
      }
      ProgressStep(limit, conflict, total, victims, picked, left);
      picked := picked + [sorted[i]];
      left := Minus(left, Cost(sorted[i]));
    }
    assert sorted[..|sorted|] == sorted;
    StopAtEnd(limit, conflict, total, victims, left);
  }

  lemma StopHere(limit: Option<Capacity>, conflict: Conflict, total: Totals, victims: seq<Container>,
                 picked: seq<Container>, left: Totals)
    requires Progress(limit, conflict, total, victims, picked, left)
    requires Within(limit, left) && (conflict == NoConflict || |picked| != 0)
    ensures Shortest(limit, conflict, total, victims, |picked|)
  {
  }

  lemma StopAtEnd(limit: Option<Capacity>, conflict: Conflict, total: Totals, victims: seq<Container>, left: Totals)
    requires Progress(limit, conflict, total, victims, victims, left)
    ensures Shortest(limit, conflict, total, victims, |victims|)
  {
  }

  /** The first victims are picked, none of them too many, and the totals are up to date. */
  ghost predicate Progress(limit: Option<Capacity>, conflict: Conflict, total: Totals, victims: seq<Container>,
                           picked: seq<Container>, left: Totals) {
    && |picked| <= |victims| && picked == victims[..|picked|]
    && left == Minus(total, Sum(picked))
    && NoneEnough(limit, conflict, total, victims, |picked|)
  }

  lemma ProgressStep(limit: Option<Capacity>, conflict: Conflict, total: Totals, victims: seq<Container>,
                     picked: seq<Container>, left: Totals)
    requires Progress(limit, conflict, total, victims, picked, left) && |picked| < |victims|
    requires !(Within(limit, left) && (conflict == NoConflict || |picked| != 0))
    ensures var c := victims[|picked|];
            Progress(limit, conflict, total, victims, picked + [c], Minus(left, Cost(c)))
  {
    OneMoreVictim(limit, conflict, total, victims, |picked|);
  }

  lemma KillableStep(cs: seq<Container>, pidOf: string -> int, i: nat)
    requires i < |cs|
    ensures var part, all := Killable(cs[..i], pidOf), Killable(cs, pidOf);
            && Killable(cs[..i + 1], pidOf) == (if pidOf(cs[i].id) > 1 then part + [cs[i]] else part)
            && |Killable(cs[..i + 1], pidOf)| <= |all|
            && Killable(cs[..i + 1], pidOf) == all[..|Killable(cs[..i + 1], pidOf)|]
            && (pidOf(cs[i].id) > 1 ==> |part| < |all| && all[|part|] == cs[i])
  {
    assert cs[..i + 1][..i] == cs[..i];
    KillablePrefix(cs, pidOf, i + 1);
  }

  // ---------------------------------------------------------------- what the victims guarantee

  lemma {:induction false} KillableMembers(cs: seq<Container>, pidOf: string -> int)
    ensures forall c :: c in Killable(cs, pidOf) <==> c in cs && pidOf(c.id) > 1
  {
    if cs != [] {
      var init, last := cs[..|cs| - 1], cs[|cs| - 1];
      KillableMembers(init, pidOf);
      assert forall c :: c in cs <==> c in init || c == last;
    }
  }

  lemma {:induction false} KillableSplit(cs: seq<Container>, pidOf: string -> int)
    ensures Sum(cs) == Plus(Sum(Killable(cs, pidOf)), Sum(Unkillable(cs, pidOf)))
  {
    if cs != [] {
      var init, last := cs[..|cs| - 1], cs[|cs| - 1];
      var a, b := Killable(init, pidOf), Unkillable(init, pidOf);
      KillableSplit(init, pidOf);
      PlusAssociates(Sum(a), Sum(b), Cost(last));
      if pidOf(last.id) > 1 {
        SumSnoc(a, last);
      } else {
        SumSnoc(b, last);
      }
    }
  }

  lemma {:induction false} KillableSorted(o: Order, cs: seq<Container>, pidOf: string -> int)
    requires SortedBy(o, cs)
    ensures SortedBy(o, Killable(cs, pidOf))
  {
    if cs != [] {
      var init, last := cs[..|cs| - 1], cs[|cs| - 1];
      KillableSorted(o, init, pidOf);
      KillableMembers(init, pidOf);
      if pidOf(last.id) > 1 {
        forall x | x in Killable(init, pidOf)
          ensures !Less(o, last, x)
        {
          assert x in init;
        }
        SortedSnoc(o, Killable(init, pidOf), last);
      }
    }
  }

  /** The containers that go on running. */
  function Survivors(sorted: seq<Container>, pidOf: string -> int, k: nat): seq<Container>
    requires k <= |Killable(sorted, pidOf)|
  {
    Unkillable(sorted, pidOf) + Killable(sorted, pidOf)[k..]
  }

  lemma SumCut(cs: seq<Container>, k: nat)
    requires k <= |cs|
    ensures Sum(cs) == Plus(Sum(cs[..k]), Sum(cs[k..]))
  {
    assert cs == cs[..k] + cs[k..];
    SumConcat(cs[..k], cs[k..]);
  }

  lemma SurvivorsAndVictims(sorted: seq<Container>, pidOf: string -> int, k: nat)
    requires k <= |Killable(sorted, pidOf)|
    ensures Sum(sorted) == Plus(Sum(Survivors(sorted, pidOf, k)), Sum(Killable(sorted, pidOf)[..k]))
  {
    var victims, others := Killable(sorted, pidOf), Unkillable(sorted, pidOf);
    KillableSplit(sorted, pidOf);
    SumCut(victims, k);
    SumConcat(others, victims[k..]);
    Rotate(Sum(victims[..k]), Sum(victims[k..]), Sum(others));
  }

  lemma Rotate(a: Totals, b: Totals, c: Totals)
    ensures Plus(Plus(a, b), c) == Plus(Plus(c, b), a)
  {
  }

  lemma TakeAway(a: Totals, b: Totals, rest: Totals)
    ensures Minus(Plus(Plus(a, b), rest), b) == Plus(a, rest)
  {
  }

  /** What the picked ones free is what the others leave over. */
  lemma TotalsAreSurvivors(sorted: seq<Container>, pidOf: string -> int, k: nat, rest: Totals)
    requires k <= |Killable(sorted, pidOf)|
    ensures Minus(Plus(Sum(sorted), rest), Sum(Killable(sorted, pidOf)[..k]))
            == Plus(Sum(Survivors(sorted, pidOf, k)), rest)
  {
    SurvivorsAndVictims(sorted, pidOf, k);
    TakeAway(Sum(Survivors(sorted, pidOf, k)), Sum(Killable(sorted, pidOf)[..k]), rest);
  }

  /** An application master is picked only after every killable container that is none. */
  lemma MastersGoLast(o: Order, sorted: seq<Container>, pidOf: string -> int, k: nat)
    requires SortedBy(o, sorted) && k <= |Killable(sorted, pidOf)|
    ensures var victims := Killable(sorted, pidOf);
            (exists c :: c in victims[..k] && c.isAM) ==> forall c :: c in victims && !c.isAM ==> c in victims[..k]
  {
    var victims := Killable(sorted, pidOf);
    KillableSorted(o, sorted, pidOf);
    if exists c :: c in victims[..k] && c.isAM {
      var i :| 0 <= i < k && victims[..k][i].isAM;
      forall c | c in victims && !c.isAM
        ensures c in victims[..k]
      {
        var j :| 0 <= j < |victims| && victims[j] == c;
        assert Less(o, victims[j], victims[i]);
        assert victims[..k][j] == c;
      }
    }
  }

  /** What an order weighs first among containers of the same kind. */
  function Weight(o: Order, c: Container): real {
    match o
    case ByTime => c.startTime as real
    case ByCpu => c.usedVcores
    case ByMemory => c.usedMB
  }

  /** No survivor that could have been killed weighs more than a victim of its kind, or as much and started later. */
  lemma HeaviestGoFirst(o: Order, sorted: seq<Container>, pidOf: string -> int, k: nat, victim: Container,
                        survivor: Container)
    requires SortedBy(o, sorted) && k <= |Killable(sorted, pidOf)| && victim.isAM == survivor.isAM
    requires victim in Killable(sorted, pidOf)[..k] && survivor in Killable(sorted, pidOf)[k..]
    ensures Weight(o, victim) >= Weight(o, survivor)
    ensures Weight(o, victim) == Weight(o, survivor) ==> victim.startTime >= survivor.startTime
  {
    var victims := Killable(sorted, pidOf);
    KillableSorted(o, sorted, pidOf);
    var i :| 0 <= i < k && victims[..k][i] == victim;
    var j :| 0 <= j < |victims| - k && victims[k..][j] == survivor;
    assert victims[i] == victim && victims[k + j] == survivor;
    assert !Less(o, survivor, victim);
  }

  /** In the resource that is in conflict, or else in age, a goes before b. */
  predicate GoesBefore(conflict: Conflict, a: Container, b: Container) {
    match conflict
    case MemoryConflict => a.usedMB > b.usedMB || (a.usedMB == b.usedMB && a.startTime >= b.startTime)
    case CpuConflict => a.usedVcores > b.usedVcores || (a.usedVcores == b.usedVcores && a.startTime >= b.startTime)
    case NoConflict => a.startTime >= b.startTime
    case OtherConflict => a.startTime >= b.startTime
  }

  /** The heaviest in the conflicting resource goes first, or the youngest when no such resource is in conflict. */
  lemma ConflictDecides(conflict: Conflict, sorted: seq<Container>, pidOf: string -> int, k: nat,
                        victim: Container, survivor: Container)
    requires SortedBy(OrderFor(conflict), sorted) && k <= |Killable(sorted, pidOf)| && victim.isAM == survivor.isAM
    requires victim in Killable(sorted, pidOf)[..k] && survivor in Killable(sorted, pidOf)[k..]
    ensures GoesBefore(conflict, victim, survivor)
  {
    HeaviestGoFirst(OrderFor(conflict), sorted, pidOf, k, victim, survivor);
  }

  /** One more container adds its own numbers to the totals. */
  lemma TotalsGrow(cs: seq<Container>, c: Container)
    ensures var a, b := Sum(cs), Sum(cs + [c]);
            && b.neededMB == a.neededMB + c.neededMB && b.neededVcores == a.neededVcores + c.neededVcores
            && b.usedMB == a.usedMB + c.usedMB && b.usedVcores == a.usedVcores + c.usedVcores
    ensures var a, b := Starting(cs), Starting(cs + [c]);
            var starts := c.state == New || c.state == Localizing || c.state == Localized;
            && b.neededMB == a.neededMB + (if starts then c.neededMB else 0.0)
            && b.neededVcores == a.neededVcores + (if starts then c.neededVcores else 0.0)
            && b.usedMB == a.usedMB && b.usedVcores == a.usedVcores
    ensures Sum([]) == Starting([]) == Totals(0.0, 0.0, 0.0, 0.0)
  {
    SumSnoc(cs, c);
    assert (cs + [c])[..|cs|] == cs;
  }

  /** r is container c with its measured usage, or as it is when there is no measurement. */
  predicate IsMeasured(c: Container, stats: map<string, Usage>, r: Container) {
    && r.id == c.id && r.state == c.state && r.isAM == c.isAM
    && r.neededMB == c.neededMB && r.neededVcores == c.neededVcores
    && if c.id in stats
       then && r.usedMB == stats[c.id].usedMB && r.usedVcores == stats[c.id].usedVcores
            && r.startTime == stats[c.id].startTime
       else r.usedMB == c.usedMB && r.usedVcores == c.usedVcores && r.startTime == c.startTime
  }

  lemma MeasuredIsMeasured(c: Container, stats: map<string, Usage>, r: Container)
    ensures IsMeasured(c, stats, r) <==> r == Measured(c, stats)
  {
  }

  /** The candidates are the running containers with what was measured of them. */
  lemma {:induction false} RunningMeans(cs: seq<Container>, stats: map<string, Usage>, r: Container)
    ensures r in RunningOf(cs, stats) <==> exists c :: c in cs && c.state == Running && IsMeasured(c, stats, r)
  {
    if cs != [] {
      var init, last := cs[..|cs| - 1], cs[|cs| - 1];
      RunningMeans(init, stats, r);
      MeasuredIsMeasured(last, stats, r);
      assert forall c :: c in cs <==> c in init || c == last;
    }
  }

  /** The places of running containers. */
  function RunningPlaces(cs: seq<Container>): set<int> {
    set i | 0 <= i < |cs| && cs[i].state == Running
  }

  lemma RunningPlacesStep(cs: seq<Container>)
    requires cs != []
    ensures var n := |cs| - 1;
            RunningPlaces(cs) == RunningPlaces(cs[..n]) + if cs[n].state == Running then {n} else {}
  {
  }

  /** And each of them is a candidate once. */
  lemma {:induction false} RunningCount(cs: seq<Container>, stats: map<string, Usage>)
    ensures |RunningOf(cs, stats)| == |RunningPlaces(cs)|
  {
    if cs != [] {
      RunningCount(cs[..|cs| - 1], stats);
      RunningPlacesStep(cs);
    }
  }

  /** Neither enough is missed nor too many are killed. */
  lemma ShortestIsTight(limit: Option<Capacity>, conflict: Conflict, total: Totals, victims: seq<Container>, k: nat)
    requires Shortest(limit, conflict, total, victims, k)
    ensures var left := Minus(total, Sum(victims[..k]));
            || (Within(limit, left) && (conflict != NoConflict ==> k > 0))
            || k == |victims|
    ensures k >= 2 || (k == 1 && conflict == NoConflict) ==> !Within(limit, Minus(total, Sum(victims[..k - 1])))
  {
    if k > 0 {
      assert !Enough(limit, conflict, total, victims, k - 1);
    }
  }

  /** The rest fits or nothing killable is left, and one victim less would not have been enough. */
  ghost predicate Tight(sorted: seq<Container>, pidOf: string -> int, limit: Option<Capacity>, conflict: Conflict,
                        rest: Totals, k: nat) {
    && k <= |Killable(sorted, pidOf)|
    && (|| k == |Killable(sorted, pidOf)|
        || (Within(limit, Plus(Sum(Survivors(sorted, pidOf, k)), rest)) && (conflict != NoConflict ==> k > 0)))
    && (k >= 2 || (k == 1 && conflict == NoConflict) ==>
          !Within(limit, Plus(Sum(Survivors(sorted, pidOf, k - 1)), rest)))
  }

  lemma ShortestLeavesTight(sorted: seq<Container>, pidOf: string -> int, limit: Option<Capacity>, conflict: Conflict,
                            rest: Totals, k: nat)
    requires Shortest(limit, conflict, Plus(Sum(sorted), rest), Killable(sorted, pidOf), k)
    ensures Tight(sorted, pidOf, limit, conflict, rest, k)
  {
    ShortestIsTight(limit, conflict, Plus(Sum(sorted), rest), Killable(sorted, pidOf), k);
    TotalsAreSurvivors(sorted, pidOf, k, rest);
    if k > 0 {
      TotalsAreSurvivors(sorted, pidOf, k - 1, rest);
    }
  }

  function Ids(cs: seq<Container>): (ids: seq<string>)
    ensures |ids| == |cs| && forall i :: 0 <= i < |cs| ==> ids[i] == cs[i].id
  {
    if cs == [] then [] else Ids(cs[..|cs| - 1]) + [cs[|cs| - 1].id]
  }

  /** One request per victim, each naming all victims so far. */
  method RequestKills(picked: seq<Container>) returns (requests: seq<seq<string>>)
    ensures |requests| == |picked|
    ensures forall i :: 0 <= i < |picked| ==> requests[i] == Ids(picked[..i + 1])
  {
    var cids: seq<string> := [];
    requests := [];
    for i := 0 to |picked|
      invariant cids == Ids(picked[..i]) && |requests| == i
      invariant forall j :: 0 <= j < i ==> requests[j] == Ids(picked[..j + 1])
    {
      assert picked[..i + 1][..i] == picked[..i];
      cids := cids + [picked[i].id];
      requests := requests + [cids];
    }
  }

  lemma RequestsNameVictims(picked: seq<Container>, requests: seq<seq<string>>)
    requires |requests| == |picked| && forall i :: 0 <= i < |picked| ==> requests[i] == Ids(picked[..i + 1])
    ensures forall id :: (exists i :: 0 <= i < |requests| && id in requests[i]) <==> id in Ids(picked)
  {
    if picked != [] {
      assert picked[..|picked|] == picked;
      assert requests[|picked| - 1] == Ids(picked);
    }
    forall id, i | 0 <= i < |requests| && id in requests[i]
      ensures id in Ids(picked)
    {
      var j :| 0 <= j < i + 1 && requests[i][j] == id;
      assert Ids(picked)[j] == id;
    }
  }

  method KillContainersWithStats(cs: seq<Container>, stats: map<string, Usage>, limit: Option<Capacity>,
                                 conflict: Conflict, pidOf: string -> int)
      returns (picked: seq<Container>, requests: seq<seq<string>>, ghost sorted: seq<Container>)
    ensures multiset(sorted) == multiset(RunningOf(cs, stats)) && SortedBy(OrderFor(conflict), sorted)
    ensures |picked| <= |Killable(sorted, pidOf)| && picked == Killable(sorted, pidOf)[..|picked|]
    ensures Tight(sorted, pidOf, limit, conflict, Starting(cs), |picked|)
    ensures (exists c :: c in picked && c.isAM) ==> forall c :: c in Killable(sorted, pidOf) && !c.isAM ==> c in picked
    // in the conflicting resource no survivor that could be killed weighs more than a victim of its role
    ensures forall v, c :: v in picked && c in Killable(sorted, pidOf)[|picked|..] && v.isAM == c.isAM ==>
                             GoesBefore(conflict, v, c)
    // what survives fits, or nothing killable is left
    ensures |picked| == |Killable(sorted, pidOf)| || limit.None? ||
            var left, starting := Sum(Survivors(sorted, pidOf, |picked|)), Starting(cs);
            && left.neededMB + starting.neededMB <= limit.value.memoryMB as real
            && left.neededVcores + starting.neededVcores <= limit.value.vcores as real
            && left.usedMB <= limit.value.memoryMB as real && left.usedVcores <= limit.value.vcores as real
    ensures |requests| == |picked| && forall i :: 0 <= i < |picked| ==> requests[i] == Ids(picked[..i + 1])
    ensures forall id :: (exists i :: 0 <= i < |requests| && id in requests[i]) <==> id in Ids(picked)
  {
    var total, running := GetContainerResource(cs, stats);
    var list := SortContainers(OrderFor(conflict), running);
    sorted := list;
    SumPermutation(running, list);
    var left;
    picked, left := PickVictims(list, pidOf, limit, conflict, total);
    ShortestLeavesTight(sorted, pidOf, limit, conflict, Starting(cs), |picked|);
    MastersGoLast(OrderFor(conflict), sorted, pidOf, |picked|);
    StartingUsesNothing(cs);
    forall v, c | v in picked && c in Killable(sorted, pidOf)[|picked|..] && v.isAM == c.isAM
      ensures GoesBefore(conflict, v, c)
    {
      ConflictDecides(conflict, sorted, pidOf, |picked|, v, c);
    }
    requests := RequestKills(picked);
    RequestsNameVictims(picked, requests);
  }
}
