/** Efficacy curves: immunity as a function of days since the first shot.
    A curve is given by control points (day, efficacy); the engine precomputes
    one value per integer day by linear interpolation between neighbouring
    control points, holds the last value after the last control point, and
    answers lookups past the end of the table with a clamped value. */
module Efficacy {

  datatype ControlPoint = ControlPoint(day: nat, eff: real)

  /** The dosing track a lookup asks for. */
  datatype Regimen = OneDose | TwoDose

  /** Control-point days start at 0 and strictly increase. */
  predicate ValidCurve(pts: seq<ControlPoint>)
  {
    |pts| >= 1 && pts[0].day == 0 && StrictDays(pts)
  }

  predicate StrictDays(pts: seq<ControlPoint>)
  {
    forall i, j :: 0 <= i < j < |pts| ==> pts[i].day < pts[j].day
  }

  /** Efficacy values never decrease from one control point to the next. */
  predicate NonDecreasingEff(pts: seq<ControlPoint>)
  {
    forall i, j :: 0 <= i < j < |pts| ==> pts[i].eff <= pts[j].eff
  }

  function LastPoint(pts: seq<ControlPoint>): ControlPoint
    requires |pts| >= 1
  {
    pts[|pts| - 1]
  }

  /** The straight line through a and b, evaluated at day t. */
  function Lerp(a: ControlPoint, b: ControlPoint, t: nat): real
    requires a.day < b.day
  {
    a.eff + (b.eff - a.eff) * (((t - a.day) as real) / ((b.day - a.day) as real))
  }

  /** Smallest control value. */
  function MinEff(pts: seq<ControlPoint>): real
    requires |pts| >= 1
  {
    if |pts| == 1 then pts[0].eff
    else var rest := MinEff(pts[1..]); if pts[0].eff <= rest then pts[0].eff else rest
  }

  /** Largest control value. */
  function MaxEff(pts: seq<ControlPoint>): real
    requires |pts| >= 1
  {
    if |pts| == 1 then pts[0].eff
    else var rest := MaxEff(pts[1..]); if pts[0].eff >= rest then pts[0].eff else rest
  }

  /** Piecewise-linear interpolation between bracketing control points, held
      constant after the last one. It never leaves the range of the control
      values. */
  function Interpolate(pts: seq<ControlPoint>, t: nat): (e: real)
    requires |pts| >= 1 && StrictDays(pts) && pts[0].day <= t
    ensures MinEff(pts) <= e <= MaxEff(pts)
    decreases |pts|
  {
    if |pts| == 1 then pts[0].eff
    else
      assert MinEff(pts[1..]) <= pts[1..][0].eff <= MaxEff(pts[1..]);
      if t <= pts[1].day then
        LerpWithin(pts[0], pts[1], t);
        Lerp(pts[0], pts[1], t)
      else
        StrictDaysTail(pts);
        Interpolate(pts[1..], t)
  }

  lemma StrictDaysTail(pts: seq<ControlPoint>)
    requires |pts| >= 2 && StrictDays(pts)
    ensures StrictDays(pts[1..]) && pts[1..][0].day == pts[1].day
  {
    assert forall k :: 0 <= k < |pts| - 1 ==> pts[1..][k] == pts[k + 1];
  }

  lemma MulNonNegative(x: real, y: real)
    requires 0.0 <= x && 0.0 <= y
    ensures 0.0 <= x * y
  {
  }

  /** On any segment the line stays between the values at its two ends. */
  lemma LerpWithin(a: ControlPoint, b: ControlPoint, t: nat)
    requires a.day <= t <= b.day && a.day < b.day
    ensures a.eff <= Lerp(a, b, t) <= b.eff || b.eff <= Lerp(a, b, t) <= a.eff
  {
    if a.eff <= b.eff {
      LerpBetween(a, b, t);
    } else {
      var frac := ((t - a.day) as real) / ((b.day - a.day) as real);
      assert 0.0 <= frac <= 1.0;
      MulNonNegative(a.eff - b.eff, frac);
      MulNonNegative(a.eff - b.eff, 1.0 - frac);
    }
  }

  /** On a segment whose end points rise, the line stays between them and rises. */
  lemma LerpBetween(a: ControlPoint, b: ControlPoint, t: nat)
    requires a.day <= t <= b.day && a.day < b.day && a.eff <= b.eff
    ensures a.eff <= Lerp(a, b, t) <= b.eff
  {
    var frac := ((t - a.day) as real) / ((b.day - a.day) as real);
    assert 0.0 <= frac <= 1.0;
    MulNonNegative(b.eff - a.eff, frac);
    MulNonNegative(b.eff - a.eff, 1.0 - frac);
  }

  lemma LerpMonotone(a: ControlPoint, b: ControlPoint, t1: nat, t2: nat)
    requires a.day < b.day && a.eff <= b.eff && t1 <= t2
    ensures Lerp(a, b, t1) <= Lerp(a, b, t2)
  {
    var span := (b.day - a.day) as real;
    var f1 := ((t1 - a.day) as real) / span;
    var f2 := ((t2 - a.day) as real) / span;
    assert f1 <= f2;
    MulNonNegative(b.eff - a.eff, f2 - f1);
  }

  /** The interpolated curve passes through every control point. */
  lemma {:induction false} InterpolateAtPoint(pts: seq<ControlPoint>, k: nat)
    requires |pts| >= 1 && StrictDays(pts) && k < |pts|
    ensures pts[0].day <= pts[k].day
    ensures Interpolate(pts, pts[k].day) == pts[k].eff
    decreases |pts|
  {
    if k == 0 {
      if |pts| > 1 {
        assert Lerp(pts[0], pts[1], pts[0].day) == pts[0].eff;
      }
    } else {
      StrictDaysTail(pts);
      InterpolateAtPoint(pts[1..], k - 1);
      assert pts[1..][k - 1] == pts[k];
      if pts[k].day <= pts[1].day {
        assert k == 1;
        assert Lerp(pts[0], pts[1], pts[1].day) == pts[1].eff;
      }
    }
  }

  /** Immunity never decays: from the last control point on, the curve is flat. */
  lemma {:induction false} InterpolatePlateau(pts: seq<ControlPoint>, t: nat)
    requires |pts| >= 1 && StrictDays(pts) && LastPoint(pts).day <= t
    ensures pts[0].day <= t
    ensures Interpolate(pts, t) == LastPoint(pts).eff
    decreases |pts|
  {
    InterpolateAtPoint(pts, |pts| - 1);
    if |pts| > 1 {
      StrictDaysTail(pts);
      assert LastPoint(pts[1..]) == LastPoint(pts);
      if t <= pts[1].day {
        assert |pts| == 2 && t == pts[1].day;
        assert Lerp(pts[0], pts[1], t) == pts[1].eff;
      } else {
        InterpolatePlateau(pts[1..], t);
      }
    }
  }

  lemma NonDecreasingEffTail(pts: seq<ControlPoint>)
    requires |pts| >= 2 && NonDecreasingEff(pts)
    ensures NonDecreasingEff(pts[1..])
  {
    assert forall k :: 0 <= k < |pts| - 1 ==> pts[1..][k] == pts[k + 1];
  }

  /** With rising control points, every interpolated value lies between the
      first and the last control value. */
  lemma {:induction false} InterpolateBounds(pts: seq<ControlPoint>, t: nat)
    requires |pts| >= 1 && StrictDays(pts) && NonDecreasingEff(pts) && pts[0].day <= t
    ensures pts[0].eff <= Interpolate(pts, t) <= LastPoint(pts).eff
    decreases |pts|
  {
    if |pts| > 1 {
      StrictDaysTail(pts);
      NonDecreasingEffTail(pts);
      assert LastPoint(pts[1..]) == LastPoint(pts);
      InterpolateBounds(pts[1..], pts[1].day);
      if t <= pts[1].day {
        LerpBetween(pts[0], pts[1], t);
      } else {
        InterpolateBounds(pts[1..], t);
      }
    }
  }

  /** With rising control points, the interpolated curve is non-decreasing. */
  lemma {:induction false} InterpolateMonotone(pts: seq<ControlPoint>, t1: nat, t2: nat)
    requires |pts| >= 1 && StrictDays(pts) && NonDecreasingEff(pts)
    requires pts[0].day <= t1 <= t2
    ensures Interpolate(pts, t1) <= Interpolate(pts, t2)
    decreases |pts|
  {
    if |pts| > 1 {
      StrictDaysTail(pts);
      NonDecreasingEffTail(pts);
      if t2 <= pts[1].day {
        LerpMonotone(pts[0], pts[1], t1, t2);
      } else if t1 <= pts[1].day {
        LerpBetween(pts[0], pts[1], t1);
        InterpolateBounds(pts[1..], t2);
      } else {
        InterpolateMonotone(pts[1..], t1, t2);
      }
    }
  }

  /** Two curves with the same first k+1 control points agree up to the k-th
      control day: the shared rise is shared by construction. */
  lemma {:induction false} InterpolateSharedPrefix(a: seq<ControlPoint>, b: seq<ControlPoint>, k: nat, t: nat)
    requires k < |a| && k < |b| && a[..k + 1] == b[..k + 1]
    requires StrictDays(a) && StrictDays(b) && a[0].day <= t <= a[k].day
    ensures b[0].day <= t
    ensures Interpolate(a, t) == Interpolate(b, t)
    decreases k
  {
    assert a[0] == a[..k + 1][0] == b[..k + 1][0] == b[0];
    if k > 0 {
      assert a[1] == a[..k + 1][1] == b[..k + 1][1] == b[1];
      if t > a[1].day {
        StrictDaysTail(a);
        StrictDaysTail(b);
        assert a[1..][..k] == a[1..k + 1] == b[1..k + 1] == b[1..][..k];
        assert a[1..][k - 1] == a[k];
        InterpolateSharedPrefix(a[1..], b[1..], k - 1, t);
      }
    }
  }

  // ---------------------------------------------------------------------
  // The precomputed table and its clamped lookups.

  /** One interpolated value per integer day 0 .. rows-1. */
  function EffTable(pts: seq<ControlPoint>, rows: nat): (table: seq<real>)
    requires ValidCurve(pts)
    ensures |table| == rows
    ensures forall k :: 0 <= k < |pts| && pts[k].day < rows ==> table[pts[k].day] == pts[k].eff
  {
    var table := seq(rows, d requires 0 <= d => Interpolate(pts, d));
    forall k | 0 <= k < |pts| && pts[k].day < rows
      ensures table[pts[k].day] == pts[k].eff
    {
      InterpolateAtPoint(pts, k);
    }
    table
  }

  /** Largest entry of a non-empty table. */
  function SeqMax(s: seq<real>): (m: real)
    requires |s| >= 1
    ensures m in s
    ensures forall i :: 0 <= i < |s| ==> s[i] <= m
  {
    if |s| == 1 then s[0]
    else
      var rest := SeqMax(s[1..]);
      assert forall i :: 1 <= i < |s| ==> s[i] == s[1..][i - 1];
      if s[0] >= rest then s[0] else rest
  }

  predicate Sorted(s: seq<real>)
  {
    forall i, j :: 0 <= i <= j < |s| ==> s[i] <= s[j]
  }

  /** In a non-decreasing table the maximum is the last entry, so the two
      clamping rules of the engine's versions (maximum, last entry) agree. */
  lemma SortedMaxIsLast(s: seq<real>)
    requires |s| >= 1 && Sorted(s)
    ensures SeqMax(s) == s[|s| - 1]
  {
    var m := SeqMax(s);
    var i :| 0 <= i < |s| && s[i] == m;
    assert s[i] <= s[|s| - 1];
  }

  /** Table lookup that answers every day past the end with the table's
      maximum, as get_eff in FDF.py and fdf_calculator.py does. */
  function LookupClampMax(table: seq<real>, days: nat): (e: real)
    requires |table| >= 1
    ensures e in table
    ensures days < |table| ==> e == table[days]
    ensures days >= |table| ==> forall i :: 0 <= i < |table| ==> table[i] <= e
  {
    if days > |table| - 1 then SeqMax(table) else table[days]
  }

  /** Table lookup that answers every day past the end with the table's last
      entry, as VaccineEfficacy.__get_eff in old/FDF.py does. */
  function LookupClampLast(table: seq<real>, days: nat): (e: real)
    requires |table| >= 1
    ensures e in table
    ensures days < |table| ==> e == table[days]
    ensures days >= |table| ==> e == table[|table| - 1]
  {
    if days > |table| - 1 then table[|table| - 1] else table[days]
  }

  lemma TableSorted(pts: seq<ControlPoint>, rows: nat)
    requires ValidCurve(pts) && NonDecreasingEff(pts)
    ensures Sorted(EffTable(pts, rows))
  {
    var table := EffTable(pts, rows);
    forall i, j | 0 <= i <= j < |table| ensures table[i] <= table[j] {
      InterpolateMonotone(pts, i, j);
    }
  }

  /** Clamping to the maximum reproduces the interpolated curve on every day,
      provided the table reaches the last control point. */
  lemma LookupClampMaxIsCurve(pts: seq<ControlPoint>, rows: nat, days: nat)
    requires ValidCurve(pts) && NonDecreasingEff(pts) && LastPoint(pts).day < rows
    ensures LookupClampMax(EffTable(pts, rows), days) == Interpolate(pts, days)
  {
    var table := EffTable(pts, rows);
    if days > rows - 1 {
      TableSorted(pts, rows);
      SortedMaxIsLast(table);
      InterpolatePlateau(pts, rows - 1);
      InterpolatePlateau(pts, days);
    }
  }

  /** Clamping to the last entry reproduces the interpolated curve on every
      day, monotone or not, provided the table reaches the last control point. */
  lemma LookupClampLastIsCurve(pts: seq<ControlPoint>, rows: nat, days: nat)
    requires ValidCurve(pts) && LastPoint(pts).day < rows
    ensures LookupClampLast(EffTable(pts, rows), days) == Interpolate(pts, days)
  {
    if days > rows - 1 {
      InterpolatePlateau(pts, rows - 1);
      InterpolatePlateau(pts, days);
    }
  }

  // ---------------------------------------------------------------------
  // The curves of FDF.py and fdf_calculator.py.

  const BaseImmunity: real := 0.0
  /** x: days from the first shot to the first-dose plateau, and the gap between shots. */
  const DaysBetweenShots: nat := 21
  const EffAfterFirst: real := 0.65
  /** y: further days until the one-dose curve reaches its own plateau. */
  const OneDosePlateauDays: nat := 35
  const EffAfterFirstPlateau: real := 0.85
  /** z: days from the second shot until its full effect. */
  const SecondDoseDays: nat := 14
  const EffAfterSecond: real := 0.98
  /** Number of rows of the precomputed table: x + y + z. */
  const TableRows: nat := DaysBetweenShots + OneDosePlateauDays + SecondDoseDays

  const OneDosePoints: seq<ControlPoint> := [
    ControlPoint(0, BaseImmunity),
    ControlPoint(DaysBetweenShots, EffAfterFirst),
    ControlPoint(DaysBetweenShots + OneDosePlateauDays, EffAfterFirstPlateau)
  ]

  const TwoDosePoints: seq<ControlPoint> := [
    ControlPoint(0, 0.0),
    ControlPoint(DaysBetweenShots, EffAfterFirst),
    ControlPoint(DaysBetweenShots + SecondDoseDays, EffAfterSecond)
  ]

  /** get_eff: the one-dose table when doses == 1, the two-dose table otherwise. */
  function GetEff(doses: int, days: nat): (e: real)
    ensures 0.0 <= e <= 1.0
    ensures e == Interpolate(if doses == 1 then OneDosePoints else TwoDosePoints, days)
  {
    var pts := if doses == 1 then OneDosePoints else TwoDosePoints;
    LookupClampMaxIsCurve(pts, TableRows, days);
    InterpolateBounds(pts, days);
    LookupClampMax(EffTable(pts, TableRows), days)
  }

  /** Both curves start at (0, 0) and share (21, 0.65): on days 0..21 they coincide. */
  lemma FdfCurvesShareRise(t: nat)
    requires t <= DaysBetweenShots
    ensures GetEff(1, t) == GetEff(2, t)
  {
    assert OneDosePoints[..2] == TwoDosePoints[..2];
    InterpolateSharedPrefix(OneDosePoints, TwoDosePoints, 1, t);
  }

  /** Past its plateau each curve is flat at its maximum, also far beyond the table. */
  lemma FdfPlateaus(t: nat)
    ensures t >= 56 ==> GetEff(1, t) == 0.85
    ensures t >= 35 ==> GetEff(2, t) == 0.98
  {
    if t >= 56 { InterpolatePlateau(OneDosePoints, t); }
    if t >= 35 { InterpolatePlateau(TwoDosePoints, t); }
  }

  /** Day 10 lies 10/21 of the way up the first segment; day 1000 is clamped. */
  lemma GetEffSamples()
    ensures GetEff(1, 10) == 0.65 * 10.0 / 21.0
    ensures GetEff(1, 1000) == 0.85
    ensures GetEff(2, 0) == 0.0
  {
    FdfPlateaus(1000);
  }

  /** Each curve is non-decreasing in the days since the shot. */
  lemma GetEffMonotone(doses: int, t1: nat, t2: nat)
    requires t1 <= t2
    ensures GetEff(doses, t1) <= GetEff(doses, t2)
  {
    InterpolateMonotone(if doses == 1 then OneDosePoints else TwoDosePoints, t1, t2);
  }

  // ---------------------------------------------------------------------
  // VaccineEfficacy of old/FDF.py: curves built from a shared first-dose prefix.

  datatype VaccineEfficacy = VaccineEfficacy(
    daysBetweenShots: nat,
    oneDose: seq<ControlPoint>,
    twoDose: seq<ControlPoint>,
    oneDoseTable: seq<real>,
    twoDoseTable: seq<real>)

  /** days_between_shots of the old VaccineEfficacy. */
  const OldDaysBetweenShots: nat := 21

  function OldFirstDose(daysBetweenShots: nat): seq<ControlPoint>
  {
    [ControlPoint(0, BaseImmunity), ControlPoint(7, BaseImmunity + 0.005), ControlPoint(daysBetweenShots, 0.75)]
  }

  /** Latest control day of a non-empty list of control points. */
  function MaxDay(pts: seq<ControlPoint>): (m: nat)
    requires |pts| >= 1
    ensures exists k :: 0 <= k < |pts| && pts[k].day == m
    ensures forall k :: 0 <= k < |pts| ==> pts[k].day <= m
  {
    if |pts| == 1 then pts[0].day
    else
      var rest := MaxDay(pts[1..]);
      assert forall k :: 1 <= k < |pts| ==> pts[k] == pts[1..][k - 1];
      if pts[0].day >= rest then pts[0].day else rest
  }

  /** The one-dose curve: the first-dose rise, then flat at 0.75 from day
      dbs + 10. Whenever the second shot comes after day 7 it is a curve. */
  function OldOneDosePoints(dbs: nat): (pts: seq<ControlPoint>)
    ensures |pts| == 4 && pts[..3] == OldFirstDose(dbs)
    ensures LastPoint(pts) == ControlPoint(dbs + 10, 0.75)
    ensures dbs > 7 ==> ValidCurve(pts) && NonDecreasingEff(pts)
  {
    var pts := OldFirstDose(dbs) + [ControlPoint(dbs + 10, 0.75)];
    assert pts[..3] == OldFirstDose(dbs);
    if dbs > 7 then FourPointCurve(pts); pts else pts
  }

  /** The two-dose curve: the first-dose rise, then 0.90 at day dbs + 14.
      Whenever the second shot comes after day 7 it is a curve. */
  function OldTwoDosePoints(dbs: nat): (pts: seq<ControlPoint>)
    ensures |pts| == 4 && pts[..3] == OldFirstDose(dbs)
    ensures LastPoint(pts) == ControlPoint(dbs + 14, 0.90)
    ensures dbs > 7 ==> ValidCurve(pts) && NonDecreasingEff(pts)
  {
    var pts := OldFirstDose(dbs) + [ControlPoint(dbs + 14, 0.90)];
    assert pts[..3] == OldFirstDose(dbs);
    if dbs > 7 then FourPointCurve(pts); pts else pts
  }

  /** Four control points with strictly increasing days from 0 and
      non-decreasing efficacy form a curve. */
  lemma FourPointCurve(pts: seq<ControlPoint>)
    requires |pts| == 4 && pts[0].day == 0
    requires pts[0].day < pts[1].day < pts[2].day < pts[3].day
    requires pts[0].eff <= pts[1].eff <= pts[2].eff <= pts[3].eff
    ensures ValidCurve(pts) && NonDecreasingEff(pts)
  {
  }

  lemma OldPointsWellFormed()
    ensures OldOneDosePoints(21) == [ControlPoint(0, 0.0), ControlPoint(7, 0.005), ControlPoint(21, 0.75), ControlPoint(31, 0.75)]
    ensures OldTwoDosePoints(21) == [ControlPoint(0, 0.0), ControlPoint(7, 0.005), ControlPoint(21, 0.75), ControlPoint(35, 0.90)]
    ensures ValidCurve(OldOneDosePoints(21)) && ValidCurve(OldTwoDosePoints(21))
    ensures NonDecreasingEff(OldOneDosePoints(21)) && NonDecreasingEff(OldTwoDosePoints(21))
  {
  }

  /** The constructor of VaccineEfficacy: both curves extend the same first-dose
      prefix, and the tables span days 0 .. latest control day of either curve. */
  function NewVaccineEfficacy(): (v: VaccineEfficacy)
    ensures v.daysBetweenShots == 21
    ensures v.oneDose == OldOneDosePoints(21) && v.twoDose == OldTwoDosePoints(21)
    ensures |v.oneDoseTable| == |v.twoDoseTable| == 36
  {
    var dbs := OldDaysBetweenShots;
    var one := OldOneDosePoints(dbs);
    var two := OldTwoDosePoints(dbs);
    OldPointsWellFormed();
    var maxDays := MaxDay(one + two);
    assert (one + two)[7].day == 35;
    VaccineEfficacy(dbs, one, two, EffTable(one, maxDays + 1), EffTable(two, maxDays + 1))
  }

  /** VaccineEfficacy.one_dose / two_dose (through __get_eff). */
  function OldGetEff(v: VaccineEfficacy, r: Regimen, days: nat): (e: real)
    requires |v.oneDoseTable| >= 1 && |v.twoDoseTable| >= 1
    ensures var table := if r == OneDose then v.oneDoseTable else v.twoDoseTable;
      e in table && (days < |table| ==> e == table[days])
  {
    LookupClampLast(if r == OneDose then v.oneDoseTable else v.twoDoseTable, days)
  }

  /** The old lookup is the interpolated curve: in [0, 1], the same for both
      regimens through day 21, and flat at 0.75 / 0.90 from day 31 / 35 on. */
  lemma OldGetEffIsCurve(r: Regimen, days: nat)
    ensures var v := NewVaccineEfficacy();
      var pts := if r == OneDose then v.oneDose else v.twoDose;
      OldGetEff(v, r, days) == Interpolate(pts, days)
      && 0.0 <= OldGetEff(v, r, days) <= 0.9
  {
    var v := NewVaccineEfficacy();
    var pts := if r == OneDose then v.oneDose else v.twoDose;
    OldPointsWellFormed();
    LookupClampLastIsCurve(pts, 36, days);
    InterpolateBounds(pts, days);
  }

  /** Each old curve is non-decreasing in the days since the shot. */
  lemma OldGetEffMonotone(r: Regimen, t1: nat, t2: nat)
    requires t1 <= t2
    ensures var v := NewVaccineEfficacy(); OldGetEff(v, r, t1) <= OldGetEff(v, r, t2)
  {
    var v := NewVaccineEfficacy();
    OldGetEffIsCurve(r, t1);
    OldGetEffIsCurve(r, t2);
    OldPointsWellFormed();
    InterpolateMonotone(if r == OneDose then v.oneDose else v.twoDose, t1, t2);
  }

  /** No protection on the day of the shot. */
  lemma OldGetEffAtShot(r: Regimen)
    ensures OldGetEff(NewVaccineEfficacy(), r, 0) == 0.0
  {
    var v := NewVaccineEfficacy();
    OldGetEffIsCurve(r, 0);
    OldPointsWellFormed();
    InterpolateAtPoint(if r == OneDose then v.oneDose else v.twoDose, 0);
  }

  lemma OldCurvesShareRise(days: nat)
    requires days <= 21
    ensures var v := NewVaccineEfficacy();
      OldGetEff(v, OneDose, days) == OldGetEff(v, TwoDose, days)
  {
    var v := NewVaccineEfficacy();
    OldGetEffIsCurve(OneDose, days);
    OldGetEffIsCurve(TwoDose, days);
    OldPointsWellFormed();
    InterpolateSharedPrefix(v.oneDose, v.twoDose, 2, days);
  }

  lemma OldPlateaus(days: nat)
    ensures var v := NewVaccineEfficacy();
      (days >= 31 ==> OldGetEff(v, OneDose, days) == 0.75)
      && (days >= 35 ==> OldGetEff(v, TwoDose, days) == 0.90)
  {
    var v := NewVaccineEfficacy();
    OldGetEffIsCurve(OneDose, days);
    OldGetEffIsCurve(TwoDose, days);
    OldPointsWellFormed();
    if days >= 31 { InterpolatePlateau(v.oneDose, days); }
    if days >= 35 { InterpolatePlateau(v.twoDose, days); }
  }
}
