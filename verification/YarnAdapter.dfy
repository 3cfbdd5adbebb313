/**
 The chain of adapters that shapes the resources offered to YARN (resource/yarn/adapter.go) and the
 loop that runs it until the minimum is reached (beCapacity, resource/resource_yarn.go:249-258).

 Memory is in bytes and CPU in milli-cores; round-offs are whole numbers; the overcommit factor is an
 exact real.
 */
module YarnAdapter {
  import opened Wrappers

  const MEM_UNIT := 1024 * 1024

  function Truncated(x: real): int {
    if x >= 0.0 then x.Floor else -((-x).Floor)
  }

  datatype Amounts = Amounts(memory: int, cpu: int)

  datatype MinCapacity = MinCapacity(memoryMB: int, millcores: int)

  /** The five adapters with what they are configured with. */
  datatype Adapter =
    | MinCompare
    | OverCommit(enable: bool, percent: real)
    | Reserve(memMB: Option<int>, cpuMilli: Option<int>)
    | RoundOff(roundMB: int, roundMilli: int)
    | DiskCpu(cores: Option<int>)

  function RoundedOff(v: int, r: int): int {
    if r == 0 then v else Quotient(v, r) * r
  }

  /** What an adapter does to the amounts before it looks at the minimum. */
  function Shaped(h: Adapter, l: Amounts): Amounts {
    match h
    case MinCompare => l
    case OverCommit(enable, percent) => if enable then l.(cpu := Truncated(l.cpu as real * percent)) else l
    case Reserve(mem, cpu) =>
      Amounts(if mem.Some? then l.memory - mem.value * MEM_UNIT else l.memory,
              if cpu.Some? then l.cpu - cpu.value else l.cpu)
    case RoundOff(mem, cpu) =>
      Amounts(RoundedOff(Quotient(l.memory, MEM_UNIT), mem) * MEM_UNIT, RoundedOff(l.cpu, cpu))
    case DiskCpu(cores) => if cores.Some? && l.cpu > cores.value then l.(cpu := cores.value) else l
  }

  /** A disabled overcommit does not look at the minimum. */
  predicate Compares(h: Adapter) {
    h.OverCommit? ==> h.enable
  }

  predicate AtMin(min: MinCapacity, l: Amounts) {
    Quotient(l.memory, MEM_UNIT) <= min.memoryMB || l.cpu <= min.millcores
  }

  function RaisedToMin(min: MinCapacity, l: Amounts): Amounts {
    Amounts(if Quotient(l.memory, MEM_UNIT) <= min.memoryMB then min.memoryMB * MEM_UNIT else l.memory,
            if l.cpu <= min.millcores then min.millcores else l.cpu)
  }

  /** The amounts after the first k adapters if none of them stopped at the minimum. */
  function ShapedBy(chain: seq<Adapter>, l: Amounts, k: nat): Amounts
    requires k <= |chain|
  {
    if k == 0 then l else Shaped(chain[k - 1], ShapedBy(chain, l, k - 1))
  }

  /** The adapter at position k finds the minimum reached. */
  predicate Stops(chain: seq<Adapter>, min: MinCapacity, l: Amounts, k: nat)
    requires k < |chain|
  {
    Compares(chain[k]) && AtMin(min, ShapedBy(chain, l, k + 1))
  }

  /** The chain stops at this adapter and not before. */
  ghost predicate StopsFirst(chain: seq<Adapter>, min: MinCapacity, l: Amounts, k: int) {
    0 <= k < |chain| && Stops(chain, min, l, k) && forall j :: 0 <= j < k ==> !Stops(chain, min, l, j)
  }

  class ResourceList {
    var memory: int
    var cpu: int

    constructor (l: Amounts)
      ensures View() == l
    {
      memory, cpu := l.memory, l.cpu;
    }

    ghost function View(): Amounts
      reads this
    {
      Amounts(memory, cpu)
    }

    method CompareAndReplaceMin(min: MinCapacity) returns (reachMin: bool)
      modifies this
      ensures View() == RaisedToMin(min, old(View())) && reachMin == AtMin(min, old(View()))
    {
      reachMin := false;
      if Quotient(memory, MEM_UNIT) <= min.memoryMB {
        memory := min.memoryMB * MEM_UNIT;
        reachMin := true;
      }
      if cpu <= min.millcores {
        cpu := min.millcores;
        reachMin := true;
      }
    }

    method Overcommit(percent: real)
      modifies this
      ensures View() == Shaped(OverCommit(true, percent), old(View()))
    {
      cpu := Truncated(cpu as real * percent);
    }

    method TakeReserve(mem: Option<int>, milli: Option<int>)
      modifies this
      ensures View() == Shaped(Reserve(mem, milli), old(View()))
    {
      if mem.Some? {
        memory := memory - mem.value * MEM_UNIT;
      }
      if milli.Some? {
        cpu := cpu - milli.value;
      }
    }

    method Round(roundMB: int, roundMilli: int)
      modifies this
      ensures View() == Shaped(RoundOff(roundMB, roundMilli), old(View()))
    {
      var memMb := Quotient(memory, MEM_UNIT);
      if roundMB != 0 {
        memMb := Quotient(memMb, roundMB) * roundMB;
      }
      if roundMilli != 0 {
        cpu := Quotient(cpu, roundMilli) * roundMilli;
      }
      memory := memMb * MEM_UNIT;
    }

    method ResourceAdapt(h: Adapter, min: MinCapacity) returns (reachMin: bool)
      modifies this
      ensures reachMin == (Compares(h) && AtMin(min, Shaped(h, old(View()))))
      ensures View() == if Compares(h) then RaisedToMin(min, Shaped(h, old(View()))) else old(View())
    {
      match h {
        case MinCompare =>
        case OverCommit(enable, percent) =>
          if !enable {
            return false;
          }
          Overcommit(percent);
        case Reserve(mem, milli) =>
          TakeReserve(mem, milli);
        case RoundOff(roundMB, roundMilli) =>
          Round(roundMB, roundMilli);
        case DiskCpu(cores) =>
          if cores.Some? && cpu > cores.value {
            cpu := cores.value;
          }
      }
      assert View() == Shaped(h, old(View()));
      reachMin := CompareAndReplaceMin(min);
    }

    /** Run the chain until an adapter reports the minimum. */
    method BeCapacity(chain: seq<Adapter>, min: MinCapacity) returns (reachMin: bool)
      modifies this
      ensures reachMin <==> exists k :: 0 <= k < |chain| && Stops(chain, min, old(View()), k)
      ensures !reachMin ==> View() == ShapedBy(chain, old(View()), |chain|)
      ensures reachMin ==> exists k :: StopsFirst(chain, min, old(View()), k)
                                       && View() == RaisedToMin(min, ShapedBy(chain, old(View()), k + 1))
    {
      reachMin := false;
      ghost var l := View();
      for k := 0 to |chain|
        invariant !reachMin && View() == ShapedBy(chain, l, k)
        invariant forall j :: 0 <= j < k ==> !Stops(chain, min, l, j)
      {
        reachMin := ResourceAdapt(chain[k], min);
        if reachMin {
          assert StopsFirst(chain, min, l, k);
          return;
        }
        assert !Stops(chain, min, l, k);
        NothingRaised(min, Shaped(chain[k], ShapedBy(chain, l, k)));
      }
    }
  }

  /** Above the minimum nothing is changed. */
  lemma NothingRaised(min: MinCapacity, l: Amounts)
    ensures !AtMin(min, l) ==> RaisedToMin(min, l) == l
  {
  }

  // ---------------------------------------------------------------- the configured chain

  /** The settings of a node, one adapter of each kind in the order they are run. */
  datatype Settings = Settings(overCommit: Adapter, reserve: Adapter, roundOff: Adapter, disk: Adapter)

  predicate WellFormed(s: Settings) {
    s.overCommit.OverCommit? && s.reserve.Reserve? && s.roundOff.RoundOff? && s.disk.DiskCpu?
  }

  function Chain(s: Settings): seq<Adapter> {
    [MinCompare, s.overCommit, s.reserve, s.roundOff, s.disk]
  }

  function OverCommitted(s: Settings, cpu: int): int
    requires WellFormed(s)
  {
    if s.overCommit.enable then Truncated(cpu as real * s.overCommit.percent) else cpu
  }

  function Reserved(o: Option<int>): int {
    if o.Some? then o.value else 0
  }

  lemma DivMul(a: int, b: int)
    requires b > 0
    ensures a / b * b <= a < a / b * b + b
  {
    assert a == a / b * b + a % b;
  }

  lemma AtLeastOne(x: int, b: int)
    requires b > 0 && x >= 1
    ensures x * b >= b
  {
  }

  lemma UniqueQuotient(q: int, d: int, b: int)
    requires b > 0 && d * b <= q * b < d * b + b
    ensures d == q
  {
    assert (q - d) * b == q * b - d * b && (d - q) * b == d * b - q * b;
    if d < q {
      AtLeastOne(q - d, b);
    } else if d > q {
      AtLeastOne(d - q, b);
    }
  }

  lemma MultipleHasNoRest(q: int, b: int)
    requires b > 0
    ensures q * b % b == 0
  {
    var p := q * b;
    DivMul(p, b);
    UniqueQuotient(q, p / b, b);
    assert p == p / b * b + p % b;
  }

  predicate IsMultiple(v: int, r: int)
    requires r != 0
  {
    v % (if r < 0 then -r else r) == 0
  }

  lemma QuotientByPositive(v: int, b: int)
    requires v >= 0 && b > 0
    ensures Quotient(v, b) == v / b
  {
  }

  lemma QuotientByNegative(v: int, b: int)
    requires v >= 0 && b > 0
    ensures Quotient(v, -b) == -(v / b)
  {
    assert -(-b) == b;
  }

  lemma RoundedOffIsProduct(v: int, r: int)
    requires v >= 0 && r != 0
    ensures var b := if r < 0 then -r else r;
            RoundedOff(v, r) == v / b * b
  {
    if r < 0 {
      var b := -r;
      QuotientByNegative(v, b);
      SignsCancel(v / b, b);
    } else {
      QuotientByPositive(v, r);
    }
  }

  lemma SignsCancel(q: int, b: int)
    ensures (-q) * (-b) == q * b
  {
  }

  lemma NonNegativeProduct(q: int, b: int)
    requires q >= 0 && b >= 0
    ensures q * b >= 0
  {
  }

  lemma NonNegativeQuotient(v: int, b: int)
    requires v >= 0 && b > 0
    ensures v / b >= 0
  {
  }

  /** The distance between amounts that rounding off leaves apart. */
  function Width(r: int): int {
    if r == 0 then 1 else if r < 0 then -r else r
  }

  /** Rounding off an amount that is not negative gives the largest multiple that is no larger. */
  lemma RoundedOffBounds(v: int, r: int)
    requires v >= 0
    ensures 0 <= RoundedOff(v, r) <= v < RoundedOff(v, r) + Width(r)
    ensures r != 0 ==> IsMultiple(RoundedOff(v, r), r)
  {
    if r != 0 {
      var b := if r < 0 then -r else r;
      RoundedOffIsProduct(v, r);
      DivMul(v, b);
      NonNegativeQuotient(v, b);
      NonNegativeProduct(v / b, b);
      MultipleHasNoRest(v / b, b);
    }
  }

  /** Whatever stage stops the chain, it ends at or above the minimum with one amount equal to it. */
  lemma RaisedIsAtMin(min: MinCapacity, l: Amounts)
    requires AtMin(min, l)
    ensures var r := RaisedToMin(min, l);
            && Quotient(r.memory, MEM_UNIT) >= min.memoryMB && r.cpu >= min.millcores
            && (r.memory == min.memoryMB * MEM_UNIT || r.cpu == min.millcores)
  {
    MinQuotient(min.memoryMB);
  }

  lemma MinQuotient(mb: int)
    ensures Quotient(mb * MEM_UNIT, MEM_UNIT) == mb
  {
  }

  /** The stages of the configured chain, spelled out. */
  lemma Stages(s: Settings, l: Amounts)
    requires WellFormed(s)
    ensures ShapedBy(Chain(s), l, 1) == l
    ensures ShapedBy(Chain(s), l, 2) == Shaped(s.overCommit, l)
    ensures ShapedBy(Chain(s), l, 3) == Shaped(s.reserve, Shaped(s.overCommit, l))
    ensures ShapedBy(Chain(s), l, 4) == Shaped(s.roundOff, Shaped(s.reserve, Shaped(s.overCommit, l)))
    ensures ShapedBy(Chain(s), l, 5) == Shaped(s.disk, Shaped(s.roundOff, Shaped(s.reserve, Shaped(s.overCommit, l))))
  {
    assert ShapedBy(Chain(s), l, 0) == l;
  }

  /** The third stage is the overcommitted input less the reserve. */
  lemma LessReserve(s: Settings, l: Amounts)
    requires WellFormed(s)
    ensures Shaped(s.reserve, Shaped(s.overCommit, l))
            == Amounts(l.memory - Reserved(s.reserve.memMB) * MEM_UNIT,
                       OverCommitted(s, l.cpu) - Reserved(s.reserve.cpuMilli))
  {
  }

  /** What the last two stages guarantee above the minimum. */
  lemma RoundedAndCapped(roundOff: Adapter, disk: Adapter, min: MinCapacity, a: Amounts)
    requires roundOff.RoundOff? && disk.DiskCpu? && min.memoryMB >= 0 && min.millcores >= 0
    requires !AtMin(min, a) && !AtMin(min, Shaped(disk, Shaped(roundOff, a)))
    ensures var r := Shaped(disk, Shaped(roundOff, a));
            && r.memory <= a.memory < r.memory + Width(roundOff.roundMB) * MEM_UNIT && r.memory % MEM_UNIT == 0
            && (roundOff.roundMB != 0 ==> IsMultiple(r.memory / MEM_UNIT, roundOff.roundMB))
            && r.cpu <= a.cpu && (disk.cores.Some? ==> r.cpu <= disk.cores.value)
            && (disk.cores == Some(r.cpu) ||
                (a.cpu < r.cpu + Width(roundOff.roundMilli)
                 && (roundOff.roundMilli != 0 ==> IsMultiple(r.cpu, roundOff.roundMilli))))
  {
    RoundedAmounts(roundOff, a);
  }

  /** Overcommitting takes the whole milli-cores of the product. */
  lemma OverCommittedMeans(s: Settings, cpu: int)
    requires WellFormed(s)
    ensures !s.overCommit.enable ==> OverCommitted(s, cpu) == cpu
    ensures s.overCommit.enable ==>
              var exact, r := cpu as real * s.overCommit.percent, OverCommitted(s, cpu) as real;
              if exact >= 0.0 then r <= exact < r + 1.0 else r - 1.0 < exact <= r
  {
  }

  /**
   What the configured chain makes of the amounts when it does not report the minimum: memory is the
   largest multiple of the round-off within the input less the reserve, and CPU is the same of the
   overcommitted input, or the disk-derived cores if those are fewer.
   */
  lemma UnreportedAmounts(s: Settings, min: MinCapacity, l: Amounts)
    requires WellFormed(s) && min.memoryMB >= 0 && min.millcores >= 0
    requires forall k :: 0 <= k < 5 ==> !Stops(Chain(s), min, l, k)
    ensures var r := ShapedBy(Chain(s), l, 5);
            var memory := l.memory - (if s.reserve.memMB.Some? then s.reserve.memMB.value else 0) * MEM_UNIT;
            var cpu := OverCommitted(s, l.cpu) - if s.reserve.cpuMilli.Some? then s.reserve.cpuMilli.value else 0;
            && r.memory <= memory < r.memory + Width(s.roundOff.roundMB) * MEM_UNIT && r.memory % MEM_UNIT == 0
            && (s.roundOff.roundMB != 0 ==> IsMultiple(r.memory / MEM_UNIT, s.roundOff.roundMB))
            && r.cpu <= cpu && (s.disk.cores.Some? ==> r.cpu <= s.disk.cores.value)
            && (s.disk.cores == Some(r.cpu) ||
                (cpu < r.cpu + Width(s.roundOff.roundMilli)
                 && (s.roundOff.roundMilli != 0 ==> IsMultiple(r.cpu, s.roundOff.roundMilli))))
  {
    Stages(s, l);
    assert !Stops(Chain(s), min, l, 2) && !Stops(Chain(s), min, l, 4);
    LessReserve(s, l);
    RoundedAndCapped(s.roundOff, s.disk, min, Shaped(s.reserve, Shaped(s.overCommit, l)));
  }

  lemma UnitsBelow(mb: int, rounded: int, width: int, memory: int)
    requires mb * MEM_UNIT <= memory < mb * MEM_UNIT + MEM_UNIT && rounded <= mb < rounded + width
    ensures rounded * MEM_UNIT <= memory < (rounded + width) * MEM_UNIT
  {
    assert (mb + 1) * MEM_UNIT <= (rounded + width) * MEM_UNIT;
  }

  lemma RoundedMemory(memory: int, roundMB: int)
    requires Quotient(memory, MEM_UNIT) >= 1
    ensures var r := RoundedOff(Quotient(memory, MEM_UNIT), roundMB) * MEM_UNIT;
            && r <= memory < r + Width(roundMB) * MEM_UNIT && r % MEM_UNIT == 0
            && (roundMB != 0 ==> IsMultiple(r / MEM_UNIT, roundMB))
  {
    var mb := Quotient(memory, MEM_UNIT);
    assert mb * MEM_UNIT <= memory < mb * MEM_UNIT + MEM_UNIT;
    RoundedOffBounds(mb, roundMB);
    var rounded := RoundedOff(mb, roundMB);
    UnitsBelow(mb, rounded, Width(roundMB), memory);
    assert rounded * MEM_UNIT / MEM_UNIT == rounded;
  }

  /** Rounding positive amounts off. */
  lemma RoundedAmounts(h: Adapter, a: Amounts)
    requires h.RoundOff? && a.cpu >= 0 && Quotient(a.memory, MEM_UNIT) >= 1
    ensures var r := Shaped(h, a);
            && r.memory <= a.memory < r.memory + Width(h.roundMB) * MEM_UNIT && r.memory % MEM_UNIT == 0
            && (h.roundMB != 0 ==> IsMultiple(r.memory / MEM_UNIT, h.roundMB))
            && r.cpu <= a.cpu < r.cpu + Width(h.roundMilli)
            && (h.roundMilli != 0 ==> IsMultiple(r.cpu, h.roundMilli))
  {
    RoundedMemory(a.memory, h.roundMB);
    RoundedOffBounds(a.cpu, h.roundMilli);
  }

  /** The configured chain, run on a list. */
  method AdaptResources(s: Settings, min: MinCapacity, res: ResourceList) returns (reachMin: bool)
    requires WellFormed(s)
    modifies res
    // both amounts end at or above the minimum, and the minimum is reported exactly when one of them is it
    ensures res.memory >= min.memoryMB * 1048576 && res.cpu >= min.millcores
    ensures reachMin <==> Quotient(res.memory, MEM_UNIT) == min.memoryMB || res.cpu == min.millcores
    ensures reachMin <==> res.memory == min.memoryMB * 1048576 || res.cpu == min.millcores
    ensures !reachMin ==> res.View() == ShapedBy(Chain(s), old(res.View()), 5)
                          && forall k :: 0 <= k < 5 ==> !Stops(Chain(s), min, old(res.View()), k)
  {
    ghost var l := res.View();
    reachMin := res.BeCapacity(Chain(s), min);
    MinQuotient(min.memoryMB);
    if reachMin {
      ghost var k :| StopsFirst(Chain(s), min, l, k) && res.View() == RaisedToMin(min, ShapedBy(Chain(s), l, k + 1));
      RaisedIsAtMin(min, ShapedBy(Chain(s), l, k + 1));
    } else {
      assert !Stops(Chain(s), min, l, 4);
    }
    QuotientOrder(res.memory, min.memoryMB);
  }

  lemma QuotientOrder(memory: int, mb: int)
    ensures Quotient(memory, MEM_UNIT) > mb ==> memory > mb * MEM_UNIT
  {
  }
}
