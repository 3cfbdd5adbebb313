/**
 The quantities an adjust action produces (healthcheck/action/action_adjust.go:163-198).

 The remaining ratio is rounded to two decimals after every change (float64Round,
 healthcheck/action/action_evict.go:38-40), so it is modelled as an integer number of hundredths.
 The step percentage is a real number; nothing checks that it lies in [0, 1).
 */
module AdjustAction {
  import opened Wrappers
  import opened Action

  const FULL := 100

  /** math.Round: halves go away from zero. */
  function Round(x: real): int {
    if x >= 0.0 then (x + 0.5).Floor else -((0.5 - x).Floor)
  }

  type Ratio = h: int | 0 <= h <= FULL

  predicate IsShare(p: real) {
    0.0 <= p < 1.0
  }

  function Shrunk(h: int, p: real): (r: int)
    ensures IsShare(p) && 0 <= h <= FULL ==> 0 <= r <= h
  {
    var r := Round(h as real * (1.0 - p));
    assert IsShare(p) && 0 <= h <= FULL ==> 0 <= r <= h by {
      if IsShare(p) && 0 <= h <= FULL {
        ShrinkBounds(h, p);
      }
    }
    r
  }

  function Grown(h: int, p: real): (r: int)
    requires p != 1.0
    ensures r <= FULL
    ensures IsShare(p) && 0 <= h <= FULL ==> r >= h
  {
    var r := Round(h as real / (1.0 - p));
    assert IsShare(p) && 0 <= h <= FULL ==> r >= h by {
      if IsShare(p) && 0 <= h <= FULL {
        GrowBounds(h, p);
      }
    }
    if r > FULL then FULL else r
  }

  lemma ProductNonNegative(a: real, b: real)
    requires a >= 0.0 && b >= 0.0
    ensures a * b >= 0.0
  {
  }

  lemma ProductGrows(a: real, b: real, c: real)
    requires c > 0.0
    ensures a <= b <==> a * c <= b * c
  {
    assert (b - a) * c == b * c - a * c;
    if a <= b {
      ProductNonNegative(b - a, c);
    } else {
      assert (a - b) * c > 0.0;
    }
  }

  lemma ShrinkBounds(h: Ratio, p: real)
    requires 0.0 <= p < 1.0
    ensures 0.0 <= h as real * (1.0 - p) <= h as real
  {
    var x := h as real;
    ProductNonNegative(x, 1.0 - p);
    ProductNonNegative(x, p);
    assert x * (1.0 - p) == x - x * p;
  }

  lemma GrowBounds(h: Ratio, p: real)
    requires 0.0 <= p < 1.0
    ensures h as real / (1.0 - p) >= h as real
  {
    var r, q := h as real, 1.0 - p;
    ProductNonNegative(r, p);
    assert r * q == r - r * p;
    ProductGrows(r, r / q, q);
  }

  /** Rounding goes to the nearest whole number, halves away from zero. */
  lemma RoundIsNearest(x: real)
    ensures x >= 0.0 ==> x - 0.5 < Round(x) as real <= x + 0.5
    ensures x < 0.0 ==> x - 0.5 <= Round(x) as real < x + 0.5
  {
  }

  /** A conflict leaves 1 - p of the ratio and a recovery divides by it, up to full, within half a hundredth. */
  lemma RatioIsNearest(h: Ratio, p: real)
    requires IsShare(p)
    ensures var exact := h as real * (1.0 - p);
            exact - 0.5 < Shrunk(h, p) as real <= exact + 0.5
    ensures var exact := h as real / (1.0 - p);
            if exact >= FULL as real + 0.5 then Grown(h, p) == FULL
            else exact - 0.5 < Grown(h, p) as real <= exact + 0.5
  {
    ShrinkBounds(h, p);
    GrowBounds(h, p);
    RoundIsNearest(h as real * (1.0 - p));
    RoundIsNearest(h as real / (1.0 - p));
  }

  // ---------------------------------------------------------------- shape of what is produced

  /** At most one formula; a step has the sign of the verdict; a share or a total is never positive. */
  predicate Shaped(a: ActionResource) {
    && |a.quantity.Keys| <= 1
    && (Step in a.quantity ==> if a.conflicting then a.quantity[Step] < 0 else a.quantity[Step] > 0)
    && (Total in a.quantity ==> a.conflicting && a.quantity[Total] < 0)
    && (Percent in a.quantity ==> -1000 <= a.quantity[Percent] <= 0)
  }

  /**
   The handler for memory (getMemConflictedQuantity): in conflict it asks for exactly what is missing
   from the memory that must stay free; otherwise, or when nothing is known, it makes no request.
   */
  function MemoryConflict(conflicting: bool, available: Option<int>, reserved: int): (r: Option<ActionResource>)
    ensures r.Some? ==> Shaped(r.value) && r.value.name == "memory" && r.value.conflicting
    ensures r.Some? <==> conflicting && available.Some? && available.value < reserved
    ensures r.Some? ==> r.value.quantity.Keys == {Total} && reserved + r.value.quantity[Total] == available.value
  {
    if !conflicting || available.None? || reserved - available.value <= 0 then None
    else
      var q := map[Total := -(reserved - available.value)];
      assert q.Keys == {Total};
      Some(ActionResource("memory", conflicting, q))
  }

  class AdjustResource {
    const resource: string
    const step: int
    const stepPercent: Option<real>
    var ratio: int

    /** What parsing the configuration ensures of the step; a percentage of 1 has no exact model. */
    ghost predicate Valid() {
      step >= 0 && stepPercent != Some(1.0)
    }

    /** The percentage is one, and the ratio a share. */
    ghost predicate InRange()
      reads this
    {
      (stepPercent.Some? ==> IsShare(stepPercent.value)) && 0 <= ratio <= FULL
    }

    constructor (resource: string, step: int, stepPercent: Option<real>)
      requires step >= 0 && stepPercent != Some(1.0)
      ensures Valid() && ratio == FULL
      ensures this.resource == resource && this.step == step && this.stepPercent == stepPercent
    {
      this.resource, this.step, this.stepPercent, ratio := resource, step, stepPercent, FULL;
    }

    /** Generate what to take away or give back; self is what the self-defined handler answered. */
    method Generate(conflicting: bool, self: Option<ActionResource>) returns (a: ActionResource)
      requires Valid()
      modifies this
      ensures old(InRange()) ==> InRange()
      ensures old(InRange()) && (self.Some? ==> Shaped(self.value)) ==> Shaped(a)
      ensures self.Some? ==> a == self.value && ratio == old(ratio)
      ensures self.None? ==> a.name == resource && a.conflicting == conflicting
      ensures self.None? && step != 0 ==>
                ratio == old(ratio) && a.quantity == map[Step := if conflicting then -step else step]
      ensures self.None? && step == 0 && stepPercent.Some? ==>
                && ratio == (if conflicting then Shrunk(old(ratio), stepPercent.value)
                             else Grown(old(ratio), stepPercent.value))
                && a.quantity == map[Percent := -10 * (FULL - ratio)]
      ensures self.None? && step == 0 && stepPercent.None? ==> ratio == old(ratio) && a.quantity == map[]
    {
      if self.Some? {
        return self.value;
      }
      var quantity: Quantities := map[];
      if step != 0 {
        quantity := map[Step := step];
        if conflicting {
          quantity := map[Step := -step];
        }
        assert quantity.Keys == {Step};
      } else if stepPercent.Some? {
        if conflicting {
          ratio := Shrunk(ratio, stepPercent.value);
        } else {
          ratio := Grown(ratio, stepPercent.value);
        }
        quantity := map[Percent := -10 * (FULL - ratio)];
        assert quantity.Keys == {Percent};
      }
      a := ActionResource(resource, conflicting, quantity);
    }
  }

  // ---------------------------------------------------------------- does a share come back?

  function GrownTimes(h: Ratio, p: real, n: nat): Ratio
    requires 0.0 <= p < 1.0
  {
    if n == 0 then h else Grown(GrownTimes(h, p, n - 1), p)
  }

  function ShrunkTimes(h: Ratio, p: real, n: nat): Ratio
    requires 0.0 <= p < 1.0
  {
    if n == 0 then h else Shrunk(ShrunkTimes(h, p, n - 1), p)
  }

  /** The step is large enough to survive rounding at this ratio. */
  predicate StepSurvivesRounding(h: Ratio, p: real) {
    2.0 * h as real * p >= 1.0 - p
  }

  lemma RoundsAbove(x: real, n: nat)
    requires x >= 0.0
    ensures Round(x) > n <==> x >= n as real + 0.5
  {
  }

  /** y is r divided by q, and x is what is missing from r times q. */
  lemma GrowthIsHalf(r: real, q: real, y: real, x: real)
    requires q > 0.0 && y * q == r && r * q == r - x
    ensures y >= r + 0.5 <==> 2.0 * x >= q
  {
    var z := r + 0.5;
    assert z * q == r - x + 0.5 * q;
    ProductGrows(z, y, q);
  }

  lemma GrowsIffStepSurvives(h: Ratio, p: real)
    requires 0.0 <= p < 1.0 && h < FULL
    ensures StepSurvivesRounding(h, p) <==> Grown(h, p) > h
  {
    GrowBounds(h, p);
    var r, q := h as real, 1.0 - p;
    assert r / q * q == r && r * q == r - r * p;
    GrowthIsHalf(r, q, r / q, r * p);
    assert 2.0 * r * p == 2.0 * (r * p);
    RoundsAbove(r / q, h);
  }

  /** A step that survives at a ratio survives at every higher one. */
  lemma SurvivesAbove(h: Ratio, g: Ratio, p: real)
    requires p >= 0.0 && h <= g && StepSurvivesRounding(h, p)
    ensures StepSurvivesRounding(g, p)
  {
    var d := (g - h) as real;
    ProductNonNegative(d, p);
    assert 2.0 * (h as real + d) * p == 2.0 * h as real * p + 2.0 * (d * p);
  }

  lemma {:induction false} GrowsByOne(h: Ratio, p: real, n: nat)
    requires 0.0 <= p < 1.0
    requires h == FULL || StepSurvivesRounding(h, p)
    ensures GrownTimes(h, p, n) == FULL || GrownTimes(h, p, n) >= h + n
  {
    if n > 0 {
      GrowsByOne(h, p, n - 1);
      var g := GrownTimes(h, p, n - 1);
      if g < FULL {
        SurvivesAbove(h, g, p);
        GrowsIffStepSurvives(g, p);
      }
    }
  }

  lemma {:induction false} StuckForever(h: Ratio, p: real, n: nat)
    requires 0.0 <= p < 1.0 && h < FULL && !StepSurvivesRounding(h, p)
    ensures GrownTimes(h, p, n) == h
  {
    if n > 0 {
      GrowsIffStepSurvives(h, p);
      StuckForever(h, p, n - 1);
    }
  }

  /**
   A share taken away step by step comes back in full exactly when the step still survives rounding
   at the ratio that is left.
   */
  lemma ShareComesBackIff(h: Ratio, p: real)
    requires 0.0 <= p < 1.0
    ensures (exists n: nat :: GrownTimes(h, p, n) == FULL) <==> h == FULL || StepSurvivesRounding(h, p)
  {
    if h == FULL || StepSurvivesRounding(h, p) {
      GrowsByOne(h, p, FULL - h);
    } else {
      forall n: nat
        ensures GrownTimes(h, p, n) != FULL
      {
        StuckForever(h, p, n);
      }
    }
  }

  /** Three conflicts with a step of 90 percent take a resource away for good. */
  lemma ShareLostForGood(n: nat)
    ensures ShrunkTimes(FULL, 0.9, 3) == 0
    ensures GrownTimes(0, 0.9, n) == 0
  {
    assert Shrunk(FULL, 0.9) == 10 && Shrunk(10, 0.9) == 1 && Shrunk(1, 0.9) == 0;
    assert ShrunkTimes(FULL, 0.9, 1) == 10 && ShrunkTimes(FULL, 0.9, 2) == 1;
    StuckForever(0, 0.9, n);
  }
}
