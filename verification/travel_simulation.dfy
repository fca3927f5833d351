/** Travel-time perturbation and piecewise wage pricing of the chosen routes
    (the trial loop of traveldurationsim.py, lifted into functions of the
    route durations and the trial's noise factor). The lognormal draw is a
    parameter: one factor per trial. */
module TravelSimulation {
  import opened Common

  /** Unloading allowance per route, 7.5 minutes in seconds. */
  const UnloadSeconds: real := 450.0
  const SecondsPerHour: real := 3600.0
  const RegularRate: real := 225.0
  const OvertimeRate: real := 275.0
  const RegularHours: real := 4.0

  /** Scales the travel part of a duration by `f`: the unloading allowance
      is removed, the rest multiplied, and the allowance added back. */
  function Perturb(d: real, f: real): (p: real)
    ensures f == 1.0 ==> p == d
    ensures d >= UnloadSeconds && f >= 1.0 ==> p >= d
    ensures d >= UnloadSeconds && 0.0 <= f <= 1.0 ==> UnloadSeconds <= p <= d
    ensures d >= UnloadSeconds && f >= 0.0 ==> p >= UnloadSeconds
    ensures p - d == (d - UnloadSeconds) * (f - 1.0)
  {
    var travel := d - UnloadSeconds;
    assert travel * f - travel == travel * (f - 1.0);
    assert travel >= 0.0 && f >= 1.0 ==> travel * (f - 1.0) >= 0.0 by {
      if travel >= 0.0 && f >= 1.0 { MulNonNegative(travel, f - 1.0); }
    }
    assert travel >= 0.0 && f <= 1.0 ==> travel * (f - 1.0) <= 0.0 by {
      if travel >= 0.0 && f <= 1.0 { MulNonNegative(travel, 1.0 - f); }
    }
    assert travel >= 0.0 && f >= 0.0 ==> travel * f >= 0.0 by {
      if travel >= 0.0 && f >= 0.0 { MulNonNegative(travel, f); }
    }
    travel * f + UnloadSeconds
  }

  lemma MulNonNegative(a: real, b: real)
    requires a >= 0.0 && b >= 0.0
    ensures a * b >= 0.0
  {
  }

  function Hours(seconds: real): (h: real)
    ensures h * SecondsPerHour == seconds
  {
    seconds / SecondsPerHour
  }

  /** Hours beyond the regular four, zero below them. */
  function Overtime(h: real): real
  {
    if h > RegularHours then h - RegularHours else 0.0
  }

  /** Wage for a route of `h` hours: 225 per hour below four hours; from
      four hours on, 225 per hour plus 275 per hour beyond four. */
  function Wage(h: real): (w: real)
    ensures w == RegularRate * h + OvertimeRate * Overtime(h)
    ensures h == RegularHours ==> w == 900.0
    ensures w >= RegularRate * h
  {
    if h < RegularHours then h * RegularRate
    else
      var overtime := h - RegularHours;
      h * RegularRate + overtime * OvertimeRate
  }

  /** The wage never decreases with the hours worked. */
  lemma WageMonotone(h1: real, h2: real)
    requires h1 <= h2
    ensures Wage(h1) <= Wage(h2)
  {
  }

  /** The wage is continuous: it moves by at most 500 per hour of change,
      in particular across the four-hour threshold. */
  lemma WageLipschitz(h1: real, h2: real)
    ensures Abs(Wage(h2) - Wage(h1)) <= 500.0 * Abs(h2 - h1)
  {
  }

  function Abs(x: real): real
  {
    if x < 0.0 then -x else x
  }

  /** Wage of one route in a trial with noise factor `f`. */
  function RouteWage(d: real, f: real): real
  {
    Wage(Hours(Perturb(d, f)))
  }

  /** Total wage of a trial: the sum of its routes' wages, all perturbed by
      the same factor. */
  function TrialCost(durations: seq<real>, f: real): (c: real)
    ensures (forall i :: 0 <= i < |durations| ==> durations[i] >= UnloadSeconds) && f >= 0.0 ==> c >= 0.0
  {
    if |durations| == 0 then 0.0
    else TrialCost(durations[..|durations| - 1], f) + RouteWage(durations[|durations| - 1], f)
  }

  /** Reference cost without noise: the wage function applied directly to
      every route's duration. */
  function BaseCost(durations: seq<real>): real
  {
    if |durations| == 0 then 0.0 else Wage(Hours(durations[0])) + BaseCost(durations[1..])
  }

  /** A factor of 1 reproduces the unperturbed cost. */
  lemma {:induction false} UnitFactorIsBaseCost(durations: seq<real>)
    ensures TrialCost(durations, 1.0) == BaseCost(durations)
    decreases |durations|
  {
    if |durations| > 0 {
      var n := |durations|;
      UnitFactorIsBaseCost(durations[..n - 1]);
      UnitFactorIsBaseCost(durations[1..]);
      if n > 1 {
        assert durations[1..][..n - 2] == durations[..n - 1][1..];
        UnitFactorIsBaseCost(durations[1..][..n - 2]);
      }
    }
  }

  lemma PerturbMonotoneInFactor(d: real, f1: real, f2: real)
    requires d >= UnloadSeconds && f1 <= f2
    ensures Perturb(d, f1) <= Perturb(d, f2)
  {
    MulNonNegative(d - UnloadSeconds, f2 - f1);
  }

  /** When every route takes at least the unloading allowance, a larger
      noise factor never makes a trial cheaper. */
  lemma {:induction false} TrialCostMonotoneInFactor(durations: seq<real>, f1: real, f2: real)
    requires forall i :: 0 <= i < |durations| ==> durations[i] >= UnloadSeconds
    requires f1 <= f2
    ensures TrialCost(durations, f1) <= TrialCost(durations, f2)
    decreases |durations|
  {
    if |durations| > 0 {
      var n := |durations|;
      TrialCostMonotoneInFactor(durations[..n - 1], f1, f2);
      PerturbMonotoneInFactor(durations[n - 1], f1, f2);
      WageMonotone(Hours(Perturb(durations[n - 1], f1)), Hours(Perturb(durations[n - 1], f2)));
    }
  }

  /** Prices one trial, route by route. */
  method PriceTrial(durations: seq<real>, f: real) returns (total: real)
    ensures total == TrialCost(durations, f)
  {
    total := 0.0;
    var i := 0;
    while i < |durations|
      invariant 0 <= i <= |durations|
      invariant total == TrialCost(durations[..i], f)
    {
      assert durations[..i + 1][..i] == durations[..i];
      total := total + RouteWage(durations[i], f);
      i := i + 1;
    }
    assert durations[..|durations|] == durations;
  }

  /** The trial loop: trial `j` draws factor `factors[j]` and applies it to
      both the weekday and the Saturday routes. */
  method RunTrials(week: seq<real>, sat: seq<real>, factors: seq<real>) returns (weekCost: seq<real>, satCost: seq<real>)
    ensures |weekCost| == |factors| && |satCost| == |factors|
    ensures forall j :: 0 <= j < |factors| ==> weekCost[j] == TrialCost(week, factors[j])
    ensures forall j :: 0 <= j < |factors| ==> satCost[j] == TrialCost(sat, factors[j])
  {
    weekCost := [];
    satCost := [];
    var j := 0;
    while j < |factors|
      invariant 0 <= j <= |factors|
      invariant |weekCost| == j && |satCost| == j
      invariant forall j' :: 0 <= j' < j ==> weekCost[j'] == TrialCost(week, factors[j'])
      invariant forall j' :: 0 <= j' < j ==> satCost[j'] == TrialCost(sat, factors[j'])
    {
      var w := PriceTrial(week, factors[j]);
      var s := PriceTrial(sat, factors[j]);
      weekCost := weekCost + [w];
      satCost := satCost + [s];
      j := j + 1;
    }
  }

  function Min(xs: seq<real>): (m: real)
    requires |xs| > 0
    ensures forall i :: 0 <= i < |xs| ==> m <= xs[i]
    ensures m in xs
  {
    if |xs| == 1 then xs[0]
    else var rest := Min(xs[1..]); if xs[0] <= rest then xs[0] else rest
  }

  function Max(xs: seq<real>): (m: real)
    requires |xs| > 0
    ensures forall i :: 0 <= i < |xs| ==> xs[i] <= m
    ensures m in xs
  {
    if |xs| == 1 then xs[0]
    else var rest := Max(xs[1..]); if xs[0] >= rest then xs[0] else rest
  }

  function Mean(xs: seq<real>): real
    requires |xs| > 0
  {
    Sum(xs) / (|xs| as real)
  }

  lemma {:induction false} SumBounds(xs: seq<real>, lo: real, hi: real)
    requires forall i :: 0 <= i < |xs| ==> lo <= xs[i] <= hi
    ensures (|xs| as real) * lo <= Sum(xs) <= (|xs| as real) * hi
  {
    if |xs| > 0 {
      SumBounds(xs[1..], lo, hi);
      assert (|xs| as real) * lo == lo + ((|xs| - 1) as real) * lo;
      assert (|xs| as real) * hi == hi + ((|xs| - 1) as real) * hi;
    }
  }

  /** Over the trials, min <= mean <= max. */
  lemma {:induction false} MinMeanMax(xs: seq<real>)
    requires |xs| > 0
    ensures Min(xs) <= Mean(xs) <= Max(xs)
  {
    var lo, hi := Min(xs), Max(xs);
    assert forall i :: 0 <= i < |xs| ==> lo <= xs[i] <= hi;
    MeanBounds(xs, lo, hi);
  }

  /** A mean lies within any bounds of its elements. */
  lemma MeanBounds(xs: seq<real>, lo: real, hi: real)
    requires |xs| > 0
    requires forall i :: 0 <= i < |xs| ==> lo <= xs[i] <= hi
    ensures lo <= Mean(xs) <= hi
  {
    SumBounds(xs, lo, hi);
    DivisionBounds(Sum(xs), |xs| as real, lo, hi);
  }

  lemma DivisionBounds(s: real, n: real, lo: real, hi: real)
    requires n > 0.0 && n * lo <= s <= n * hi
    ensures lo <= s / n <= hi
  {
    var q := s / n;
    assert q * n == s;
    if q < lo {
      MulNonNegative(lo - q, n);
      assert false;
    }
    if q > hi {
      MulNonNegative(q - hi, n);
      assert false;
    }
  }

  /** With a noise-free factor (every trial's factor equal), every trial
      costs the same, so the spread max - min is zero. */
  lemma ConstantFactorHasNoSpread(durations: seq<real>, factors: seq<real>, costs: seq<real>)
    requires |factors| > 0 && |costs| == |factors|
    requires forall j :: 0 <= j < |factors| ==> factors[j] == factors[0]
    requires forall j :: 0 <= j < |factors| ==> costs[j] == TrialCost(durations, factors[j])
    ensures Max(costs) - Min(costs) == 0.0
  {
    assert forall j :: 0 <= j < |costs| ==> costs[j] == costs[0];
  }

  /** A trial of routes lasting exactly four hours, with factor 1, prices
      every route at 900 with no overtime. */
  lemma {:induction false} FourHourRoutesCostRegularRate(durations: seq<real>)
    requires forall i :: 0 <= i < |durations| ==> durations[i] == 4.0 * SecondsPerHour
    ensures TrialCost(durations, 1.0) == 900.0 * (|durations| as real)
    decreases |durations|
  {
    if |durations| > 0 {
      FourHourRoutesCostRegularRate(durations[..|durations| - 1]);
    }
  }
}
