/** The immunity convolution of one entity's dose series: every day's cohort
    adds its size times the efficacy curve's value, taken at the days since
    that cohort's day, to every day of the series; the sum is then scaled per
    million. The one-dose variant convolves every dose; the two-dose variant
    runs the second-dose backlog first and convolves only the new first doses. */
module Immunity {
  import opened Common
  import opened Efficacy
  import opened Backlog

  /** Daily doses are given per million inhabitants; dividing by this turns
      the accumulated immunity into immunity per person. */
  const PerMillion: real := 1_000_000.0

  /** Days since the shot of day i, as seen on day x; 0 before the shot. */
  function DaysSince(x: nat, i: nat): (d: nat)
    ensures d <= x
    ensures x >= i ==> d + i == x
    ensures x < i ==> d == 0
  {
    if x >= i then x - i else 0
  }

  function AsReal(w: seq<nat>): (r: seq<real>)
    ensures |r| == |w| && forall i :: 0 <= i < |w| ==> r[i] == w[i] as real
  {
    if |w| == 0 then [] else AsReal(w[..|w| - 1]) + [w[|w| - 1] as real]
  }

  /** Immunity on day x contributed by the cohorts of days 0 .. k-1, before scaling. */
  function Accum(w: seq<real>, eff: nat -> real, k: nat, x: nat): real
    requires k <= |w|
  {
    if k == 0 then 0.0 else Accum(w, eff, k - 1, x) + w[k - 1] * eff(DaysSince(x, k - 1))
  }

  predicate NonNegative(w: seq<real>)
  {
    forall i :: 0 <= i < |w| ==> 0.0 <= w[i]
  }

  /** What every efficacy curve of the engine satisfies: no protection on the
      day of the shot, never decreasing, never above full protection. */
  ghost predicate CurveShape(eff: nat -> real)
  {
    && eff(0) == 0.0
    && (forall a: nat, b: nat :: a <= b ==> eff(a) <= eff(b))
    && (forall a: nat :: 0.0 <= eff(a) <= 1.0)
  }

  // ---------------------------------------------------------------------
  // Properties of the convolution.

  /** Causality: doses given on day x or later add nothing to day x. */
  lemma {:induction false} AccumCausal(w: seq<real>, eff: nat -> real, k: nat, x: nat)
    requires eff(0) == 0.0 && x <= k <= |w|
    ensures Accum(w, eff, k, x) == Accum(w, eff, x, x)
    decreases k
  {
    if k > x {
      AccumCausal(w, eff, k - 1, x);
      assert DaysSince(x, k - 1) == 0;
    }
  }

  /** With non-negative doses and a non-decreasing curve, immunity never
      falls from one day to a later one. */
  lemma {:induction false} AccumNonDecreasing(w: seq<real>, eff: nat -> real, k: nat, x: nat, y: nat)
    requires k <= |w| && NonNegative(w) && x <= y
    requires forall a: nat, b: nat :: a <= b ==> eff(a) <= eff(b)
    ensures Accum(w, eff, k, x) <= Accum(w, eff, k, y)
    decreases k
  {
    if k > 0 {
      AccumNonDecreasing(w, eff, k - 1, x, y);
      var i := k - 1;
      assert DaysSince(x, i) <= DaysSince(y, i);
      assert eff(DaysSince(x, i)) <= eff(DaysSince(y, i));
      MulNonNegative(w[i], eff(DaysSince(y, i)) - eff(DaysSince(x, i)));
    }
  }

  /** With a curve within [0, 1], immunity lies between 0 and the doses given so far. */
  lemma {:induction false} AccumBounds(w: seq<real>, eff: nat -> real, k: nat, x: nat)
    requires k <= |w| && NonNegative(w)
    requires forall a: nat :: 0.0 <= eff(a) <= 1.0
    ensures 0.0 <= Accum(w, eff, k, x) <= RealSumTo(w, k)
    decreases k
  {
    if k > 0 {
      AccumBounds(w, eff, k - 1, x);
      var e := eff(DaysSince(x, k - 1));
      MulNonNegative(w[k - 1], e);
      MulNonNegative(w[k - 1], 1.0 - e);
    }
  }

  /** Fewer doses on every day never give more immunity: in particular the
      new first doses of the backlog never beat all doses as first doses
      under the same curve. */
  lemma {:induction false} AccumMonotoneInDoses(w: seq<real>, v: seq<real>, eff: nat -> real, k: nat, x: nat)
    requires k <= |w| == |v|
    requires forall i :: 0 <= i < |w| ==> 0.0 <= w[i] <= v[i]
    requires forall a: nat :: 0.0 <= eff(a)
    ensures Accum(w, eff, k, x) <= Accum(v, eff, k, x)
    decreases k
  {
    if k > 0 {
      AccumMonotoneInDoses(w, v, eff, k - 1, x);
      MulNonNegative(v[k - 1] - w[k - 1], eff(DaysSince(x, k - 1)));
    }
  }

  /** get_eff(doses, .) of FDF.py / fdf_calculator.py as a curve: both curves
      have the engine's shape. */
  function FdfCurve(doses: int): (eff: nat -> real)
    ensures CurveShape(eff)
  {
    var eff := (d: nat) => GetEff(doses, d);
    assert forall a: nat, b: nat :: a <= b ==> eff(a) <= eff(b) by {
      forall a: nat, b: nat | a <= b ensures eff(a) <= eff(b) {
        GetEffMonotone(doses, a, b);
      }
    }
    InterpolateAtPoint(if doses == 1 then OneDosePoints else TwoDosePoints, 0);
    eff
  }

  /** VACC.one_dose / VACC.two_dose of the old VaccineEfficacy as a curve:
      both curves have the engine's shape. */
  function OldCurve(r: Regimen): (eff: nat -> real)
    ensures CurveShape(eff)
  {
    var eff := (d: nat) => OldGetEff(NewVaccineEfficacy(), r, d);
    assert forall a: nat, b: nat :: a <= b ==> eff(a) <= eff(b) by {
      forall a: nat, b: nat | a <= b ensures eff(a) <= eff(b) {
        OldGetEffMonotone(r, a, b);
      }
    }
    assert forall a: nat :: 0.0 <= eff(a) <= 1.0 by {
      forall a: nat ensures 0.0 <= eff(a) <= 1.0 {
        OldGetEffIsCurve(r, a);
      }
    }
    OldGetEffAtShot(r);
    eff
  }

  // ---------------------------------------------------------------------
  // The computation, in place on the result column.

  /** result[c] += [e * dose for e in map(eff, days_since)] */
  method AddCohort(result: array<real>, i: nat, dose: real, eff: nat -> real)
    modifies result
    ensures forall x :: 0 <= x < result.Length ==> result[x] == old(result[x]) + dose * eff(DaysSince(x, i))
  {
    var x := 0;
    while x < result.Length
      invariant 0 <= x <= result.Length
      invariant forall y :: 0 <= y < x ==> result[y] == old(result[y]) + dose * eff(DaysSince(y, i))
      invariant forall y :: x <= y < result.Length ==> result[y] == old(result[y])
    {
      result[x] := result[x] + dose * eff(DaysSince(x, i));
      x := x + 1;
    }
  }

  /** The result column holds the convolution of the cohorts of days 0 .. k-1. */
  ghost predicate Accumulated(result: array<real>, w: seq<real>, eff: nat -> real, k: nat)
    reads result
    requires k <= |w|
  {
    forall x :: 0 <= x < result.Length ==> result[x] == Accum(w, eff, k, x)
  }

  /** One more day's cohort joins the convolution. */
  method AddDay(result: array<real>, w: seq<real>, eff: nat -> real, i: nat, dose: real)
    requires i < |w| && dose == w[i] && Accumulated(result, w, eff, i)
    modifies result
    ensures Accumulated(result, w, eff, i + 1)
  {
    AddCohort(result, i, dose, eff);
  }

  /** result /= 1e6 */
  method ScalePerMillion(result: array<real>)
    modifies result
    ensures forall x :: 0 <= x < result.Length ==> result[x] == old(result[x]) / PerMillion
  {
    var x := 0;
    while x < result.Length
      invariant 0 <= x <= result.Length
      invariant forall y :: 0 <= y < x ==> result[y] == old(result[y]) / PerMillion
      invariant forall y :: x <= y < result.Length ==> result[y] == old(result[y])
    {
      result[x] := result[x] / PerMillion;
      x := x + 1;
    }
  }

  /** The finished convolution, scaled per million. */
  method ScaleAccumulated(result: array<real>, w: seq<real>, eff: nat -> real)
    requires result.Length <= |w| && Accumulated(result, w, eff, |w|)
    modifies result
    ensures forall x :: 0 <= x < result.Length ==> result[x] == Accum(w, eff, |w|, x) / PerMillion
  {
    ScalePerMillion(result);
  }

  /** calc_immunity_1d for one entity: every day's doses are a cohort. */
  method CalcImmunity1d(doses: seq<nat>, eff: nat -> real) returns (result: array<real>)
    ensures fresh(result) && result.Length == |doses|
    ensures forall x :: 0 <= x < |doses| ==> result[x] == Accum(AsReal(doses), eff, |doses|, x) / PerMillion
  {
    var w := AsReal(doses);
    result := new real[|doses|](_ => 0.0);
    var i := 0;
    while i < |doses|
      invariant 0 <= i <= |doses|
      invariant Accumulated(result, w, eff, i)
    {
      AddDay(result, w, eff, i, w[i]);
      i := i + 1;
    }
    ScaleAccumulated(result, w, eff);
  }

  /** The state of calc_immunity_2d after the first i days: the backlog
      holds the queue of day i and the column the convolution of the new
      first doses of days 0 .. i-1. */
  ghost predicate TwoDoseProgress(backlog: SecondDoseBacklog, result: array<real>, totals: seq<nat>,
                                  w: seq<real>, eff: nat -> real, i: nat)
    reads backlog, result
  {
    && i <= |totals| == |w|
    && backlog.Valid()
    && backlog.slots == Slots(totals, backlog.daysBetweenShots, i)
    && Accumulated(result, w, eff, i)
  }

  /** One day of calc_immunity_2d: the backlog serves the returning cohort,
      and the new first doses join the convolution. */
  method TwoDoseDay(backlog: SecondDoseBacklog, result: array<real>, totals: seq<nat>,
                    w: seq<real>, eff: nat -> real, i: nat)
    requires i < |totals| && TwoDoseProgress(backlog, result, totals, w, eff, i)
    requires w == AsReal(Firsts(totals, backlog.daysBetweenShots))
    modifies backlog, result
    ensures TwoDoseProgress(backlog, result, totals, w, eff, i + 1)
  {
    var newFirst := backlog.AdvanceOn(totals, i);
    AddDay(result, w, eff, i, newFirst as real);
  }

  /** calc_immunity_2d for one entity: the backlog decides each day's new
      first doses, and only those are convolved with the curve. */
  method CalcImmunity2d(totals: seq<nat>, n: nat, eff: nat -> real) returns (result: array<real>)
    requires n >= 2
    ensures fresh(result) && result.Length == |totals|
    ensures forall x :: 0 <= x < |totals| ==>
      result[x] == Accum(AsReal(Firsts(totals, n)), eff, |totals|, x) / PerMillion
  {
    var w := AsReal(Firsts(totals, n));
    var backlog := new SecondDoseBacklog(n);
    result := new real[|totals|](_ => 0.0);
    var i := 0;
    while i < |w|
      invariant fresh(backlog) && backlog.daysBetweenShots == n
      invariant TwoDoseProgress(backlog, result, totals, w, eff, i)
    {
      TwoDoseDay(backlog, result, totals, w, eff, i);
      i := i + 1;
    }
    assert i == |w|;
    ScaleAccumulated(result, w, eff);
  }

  // ---------------------------------------------------------------------
  // What the computed columns satisfy.

  /** Per-person immunity of a one-dose column: between 0 and the doses per
      million given so far (divided by a million), and never falling. */
  lemma Immunity1dProperties(doses: seq<nat>, eff: nat -> real, x: nat, y: nat)
    requires CurveShape(eff) && x <= y < |doses|
    ensures var acc := (z: nat) requires z < |doses| => Accum(AsReal(doses), eff, |doses|, z);
      && 0.0 <= acc(x) <= RealSumTo(AsReal(doses), |doses|)
      && acc(x) <= acc(y)
      && acc(x) == Accum(AsReal(doses), eff, x, x)
  {
    AccumBounds(AsReal(doses), eff, |doses|, x);
    AccumNonDecreasing(AsReal(doses), eff, |doses|, x, y);
    AccumCausal(AsReal(doses), eff, |doses|, x);
  }

  /** Reserving doses for second shots: the two-dose column, fed only new
      first doses, is never above the column obtained by feeding every dose
      to the same curve. */
  lemma BacklogNeverAddsCohorts(totals: seq<nat>, n: nat, eff: nat -> real, x: nat)
    requires n >= 2 && forall a: nat :: 0.0 <= eff(a)
    ensures Accum(AsReal(Firsts(totals, n)), eff, |totals|, x) <= Accum(AsReal(totals), eff, |totals|, x)
  {
    forall i | 0 <= i < |totals|
      ensures 0.0 <= AsReal(Firsts(totals, n))[i] <= AsReal(totals)[i]
    {
      DailyConservation(totals, n, i);
    }
    AccumMonotoneInDoses(AsReal(Firsts(totals, n)), AsReal(totals), eff, |totals|, x);
  }
}
