/** The age-prioritised variant of the immunity engine: each day's first doses
    go down the age brackets, oldest first, filling each bracket's remaining
    need before the next one gets anything. Every bracket's immunity is the
    convolution of the share of the bracket vaccinated each day with the
    efficacy curve; the entity's total is the population-weighted mean. */
module AgeAllocation {
  import opened Common
  import opened Efficacy
  import opened Backlog
  import opened Immunity

  // ---------------------------------------------------------------------
  // Brackets and their initial need.

  /** Brackets that never get a dose. */
  const Unvaccinated: set<string> := {"0-4", "5-14"}

  /** The brackets come youngest first with the population data; the cascade
      walks them in the reverse order. */
  function PriorityOrder<T>(s: seq<T>): (r: seq<T>)
    ensures |r| == |s|
    ensures forall i :: 0 <= i < |s| ==> r[i] == s[|s| - 1 - i]
  {
    seq(|s|, i requires 0 <= i < |s| => s[|s| - 1 - i])
  }

  /** Everyone in a bracket needs one dose, except the unvaccinated brackets. */
  function InitialNeed(groups: seq<string>, pop: seq<nat>): (need: seq<nat>)
    requires |groups| == |pop|
    ensures |need| == |pop|
    ensures forall g :: 0 <= g < |pop| ==> need[g] <= pop[g]
    ensures forall g :: 0 <= g < |pop| ==> (need[g] == 0 <==> groups[g] in Unvaccinated || pop[g] == 0)
  {
    seq(|pop|, g requires 0 <= g < |pop| => if groups[g] in Unvaccinated then 0 else pop[g])
  }

  // ---------------------------------------------------------------------
  // One day's cascade, as a specification.

  /** Doses still unassigned when the cascade reaches group g. */
  function Avail(need: seq<nat>, supply: nat, g: nat): (a: nat)
    requires g <= |need|
    ensures a <= supply
  {
    if g == 0 then supply
    else
      var before := Avail(need, supply, g - 1);
      before - Min(need[g - 1], before)
  }

  /** Doses group g gets: its whole need if enough are left, else what is left. */
  function Given(need: seq<nat>, supply: nat, g: nat): (n: nat)
    requires g < |need|
    ensures n <= need[g] && n <= Avail(need, supply, g)
  {
    Min(need[g], Avail(need, supply, g))
  }

  /** The day's allocation to every group. */
  function Allot(need: seq<nat>, supply: nat): (given: seq<nat>)
    ensures |given| == |need|
    ensures forall g :: 0 <= g < |need| ==> given[g] == Given(need, supply, g)
  {
    seq(|need|, g requires 0 <= g < |need| => Given(need, supply, g))
  }

  /** What each group still needs after the day. */
  function Remaining(need: seq<nat>, supply: nat): (rest: seq<nat>)
    ensures |rest| == |need|
    ensures forall g {:trigger rest[g]} :: 0 <= g < |need| ==> rest[g] + Given(need, supply, g) == need[g]
  {
    seq(|need|, g requires 0 <= g < |need| => need[g] - Given(need, supply, g))
  }

  /** The cascade hands out doses in order: what is left at group g is the
      supply minus everything needed before g, or nothing once that runs out. */
  lemma {:induction false} AvailClosedForm(need: seq<nat>, supply: nat, g: nat)
    requires g <= |need|
    ensures Avail(need, supply, g) == if SumTo(need, g) <= supply then supply - SumTo(need, g) else 0
  {
    if g > 0 {
      AvailClosedForm(need, supply, g - 1);
    }
  }

  /** No dose is lost or invented: given so far plus what is left is the supply. */
  lemma {:induction false} CascadeConservesTo(need: seq<nat>, supply: nat, g: nat)
    requires g <= |need|
    ensures SumTo(Allot(need, supply), g) + Avail(need, supply, g) == supply
  {
    if g > 0 {
      CascadeConservesTo(need, supply, g - 1);
    }
  }

  /** The day's doses all go to groups or are left over, and the groups get as
      many as they can: the whole supply, or every group's whole need. */
  lemma CascadeTotal(need: seq<nat>, supply: nat)
    ensures Sum(Allot(need, supply)) + Avail(need, supply, |need|) == supply
    ensures Sum(Allot(need, supply)) == Min(supply, Sum(need))
  {
    CascadeConservesTo(need, supply, |need|);
    AvailClosedForm(need, supply, |need|);
  }

  /** One step of the cascade: a group with more need than what is left takes
      the rest, any other takes its need out of it. */
  lemma AvailStep(need: seq<nat>, supply: nat, g: nat)
    requires g < |need|
    ensures Avail(need, supply, g + 1) == if need[g] >= Avail(need, supply, g) then 0 else Avail(need, supply, g) - need[g]
  {
  }

  /** Doses only run down along the cascade. */
  lemma {:induction false} AvailNonIncreasing(need: seq<nat>, supply: nat, g: nat, h: nat)
    requires g <= h <= |need|
    ensures Avail(need, supply, h) <= Avail(need, supply, g)
  {
    if g < h {
      AvailNonIncreasing(need, supply, g, h - 1);
    }
  }

  /** Strict priority: a group left short ends the day's cascade, every later
      group gets nothing. */
  lemma CascadePriority(need: seq<nat>, supply: nat, g: nat, h: nat)
    requires g < h < |need| && Given(need, supply, g) < need[g]
    ensures Given(need, supply, h) == 0
  {
    assert Avail(need, supply, g + 1) == 0;
    AvailNonIncreasing(need, supply, g + 1, h);
  }

  /** Doses are left over only when every group got its whole need. */
  lemma CascadeLeftover(need: seq<nat>, supply: nat)
    ensures Avail(need, supply, |need|) > 0 ==> forall g :: 0 <= g < |need| ==> Given(need, supply, g) == need[g]
  {
    if Avail(need, supply, |need|) > 0 {
      forall g | 0 <= g < |need|
        ensures Given(need, supply, g) == need[g]
      {
        AvailNonIncreasing(need, supply, g + 1, |need|);
      }
    }
  }

  /** A group out of doses runs dry for good, from its own bracket on. */
  lemma Exhausted(need: seq<nat>, supply: nat, g: nat)
    requires g <= |need| && Avail(need, supply, g) == 0
    ensures forall h :: g <= h < |need| ==> Given(need, supply, h) == 0
    ensures Avail(need, supply, |need|) == 0
  {
    forall h | g <= h < |need|
      ensures Given(need, supply, h) == 0
    {
      AvailNonIncreasing(need, supply, g, h);
    }
    AvailNonIncreasing(need, supply, g, |need|);
  }

  /** The cascade has dealt with groups 0 .. g-1 of need0: given and cur hold
      their allocation and remaining need; later groups are untouched. */
  ghost predicate Progress(need0: seq<nat>, supply: nat, given: seq<nat>, cur: seq<nat>, g: nat)
  {
    && |given| == |cur| == |need0| && g <= |need0|
    && (forall k :: 0 <= k < g ==> given[k] == Given(need0, supply, k) && cur[k] + given[k] == need0[k])
    && (forall k :: g <= k < |need0| ==> given[k] == 0 && cur[k] == need0[k])
  }

  /** A group that needs nothing is passed over. */
  lemma ProgressSkip(need0: seq<nat>, supply: nat, given: seq<nat>, cur: seq<nat>, g: nat)
    requires Progress(need0, supply, given, cur, g) && g < |need0| && need0[g] == 0
    ensures Progress(need0, supply, given, cur, g + 1)
  {
  }

  /** A group with need gets its allocation. */
  lemma ProgressServe(need0: seq<nat>, supply: nat, given: seq<nat>, cur: seq<nat>, g: nat, n: nat)
    requires Progress(need0, supply, given, cur, g) && g < |need0| && n == Given(need0, supply, g)
    ensures Progress(need0, supply, given[g := n], cur[g := need0[g] - n], g + 1)
  {
  }

  /** Once every group is dealt with, or the doses ran out, the allocation is
      the specified one. */
  lemma ProgressDone(need0: seq<nat>, supply: nat, given: seq<nat>, cur: seq<nat>, g: nat)
    requires Progress(need0, supply, given, cur, g)
    requires g == |need0| || Avail(need0, supply, g) == 0
    ensures given == Allot(need0, supply) && cur == Remaining(need0, supply)
    ensures Avail(need0, supply, g) == Avail(need0, supply, |need0|)
  {
    if g < |need0| {
      Exhausted(need0, supply, g);
    }
    var rest := Remaining(need0, supply);
    assert forall k :: 0 <= k < |need0| ==> cur[k] == rest[k];
  }

  /** One day of the cascade, in place on the need vector: groups with no need
      are skipped, a group whose need exceeds what is left gets the rest and
      stops the cascade, any other group is filled. The given list is one
      entry per group, zero for the groups the cascade did not reach. */
  method AllocateDay(need: array<nat>, supply: nat) returns (given: seq<nat>, leftover: nat)
    modifies need
    ensures given == Allot(old(need[..]), supply)
    ensures need[..] == Remaining(old(need[..]), supply)
    ensures leftover == Avail(old(need[..]), supply, need.Length)
  {
    ghost var need0 := need[..];
    given := Zeros(need.Length);
    var left := supply;
    var g := 0;
    while g < need.Length
      invariant Progress(need0, supply, given, need[..], g)
      invariant left == Avail(need0, supply, g)
    {
      var want := need[g];
      AvailStep(need0, supply, g);
      if want == 0 {
        ProgressSkip(need0, supply, given, need[..], g);
        g := g + 1;
        continue;
      }
      if want > left {
        ProgressServe(need0, supply, given, need[..], g, left);
        given := given[g := left];
        need[g] := want - left;
        left := 0;
        g := g + 1;
        break;
      }
      ProgressServe(need0, supply, given, need[..], g, want);
      given := given[g := want];
      need[g] := 0;
      left := left - want;
      g := g + 1;
    }
    ProgressDone(need0, supply, given, need[..], g);
    leftover := left;
  }

  // ---------------------------------------------------------------------
  // Day after day: the need vector carries over.

  /** Need of every group after the days 0 .. j-1. */
  function NeedAfter(need0: seq<nat>, supplies: seq<nat>, j: nat): (need: seq<nat>)
    requires j <= |supplies|
    ensures |need| == |need0|
  {
    if j == 0 then need0 else Remaining(NeedAfter(need0, supplies, j - 1), supplies[j - 1])
  }

  /** First doses group g gets on day d. */
  function GivenOn(need0: seq<nat>, supplies: seq<nat>, d: nat, g: nat): nat
    requires d < |supplies| && g < |need0|
  {
    Given(NeedAfter(need0, supplies, d), supplies[d], g)
  }

  /** Daily first doses of group g. */
  function GroupDoses(need0: seq<nat>, supplies: seq<nat>, g: nat): (c: seq<nat>)
    requires g < |need0|
    ensures |c| == |supplies|
    ensures forall d :: 0 <= d < |supplies| ==> c[d] == GivenOn(need0, supplies, d, g)
  {
    seq(|supplies|, d requires 0 <= d < |supplies| => GivenOn(need0, supplies, d, g))
  }

  /** Nobody gets a first dose twice: what a group got so far and what it
      still needs add up to its initial need. */
  lemma {:induction false} NeedAccounting(need0: seq<nat>, supplies: seq<nat>, j: nat, g: nat)
    requires j <= |supplies| && g < |need0|
    ensures SumTo(GroupDoses(need0, supplies, g), j) + NeedAfter(need0, supplies, j)[g] == need0[g]
  {
    if j > 0 {
      NeedAccounting(need0, supplies, j - 1, g);
      var prev := NeedAfter(need0, supplies, j - 1);
      assert NeedAfter(need0, supplies, j) == Remaining(prev, supplies[j - 1]);
      assert GroupDoses(need0, supplies, g)[j - 1] == Given(prev, supplies[j - 1], g);
    }
  }

  /** Share of a bracket vaccinated by n first doses: n / population. It is
      never negative. */
  function Share(n: nat, pop: nat): (p: real)
    ensures 0.0 <= p
  {
    if pop == 0 then 0.0 else n as real / pop as real
  }

  /** A share is a fraction of the bracket: scaled back by the population it
      is the number of doses, and it is at most 1 when the doses do not exceed
      the population. */
  lemma ShareScales(n: nat, pop: nat)
    requires pop > 0
    ensures Share(n, pop) * pop as real == n as real
    ensures n <= pop ==> Share(n, pop) <= 1.0
  {
  }

  /** Daily shares of a bracket of population pop. */
  function Shares(counts: seq<nat>, pop: nat): (w: seq<real>)
    ensures |w| == |counts|
    ensures forall d :: 0 <= d < |counts| ==> w[d] == Share(counts[d], pop)
  {
    seq(|counts|, d requires 0 <= d < |counts| => Share(counts[d], pop))
  }

  /** Adding one more scaled term keeps a scaled sum scaled. */
  lemma ScaledStep(r: real, w: real, p: real, a: real, b: real)
    requires r * p == a && w * p == b
    ensures (r + w) * p == a + b
  {
  }

  /** The shares add up to the share of the bracket vaccinated so far. */
  lemma {:induction false} SharesSum(counts: seq<nat>, pop: nat, j: nat)
    requires j <= |counts| && pop > 0
    ensures RealSumTo(Shares(counts, pop), j) * pop as real == SumTo(counts, j) as real
  {
    if j > 0 {
      SharesSum(counts, pop, j - 1);
      SharesStep(counts, pop, j);
    }
  }

  lemma SharesStep(counts: seq<nat>, pop: nat, j: nat)
    requires 0 < j <= |counts| && pop > 0
    requires RealSumTo(Shares(counts, pop), j - 1) * pop as real == SumTo(counts, j - 1) as real
    ensures RealSumTo(Shares(counts, pop), j) * pop as real == SumTo(counts, j) as real
  {
    var w := Shares(counts, pop);
    ShareScales(counts[j - 1], pop);
    ScaledStep(RealSumTo(w, j - 1), w[j - 1], pop as real, SumTo(counts, j - 1) as real, counts[j - 1] as real);
  }

  lemma {:induction false} ZeroShares(w: seq<real>, k: nat)
    requires k <= |w| && forall d :: 0 <= d < |w| ==> w[d] == 0.0
    ensures RealSumTo(w, k) == 0.0
  {
    if k > 0 {
      ZeroShares(w, k - 1);
    }
  }

  /** Shares are never negative and, as long as the doses do not exceed the
      population, add up to at most the whole bracket. */
  lemma SharesAtMostOne(counts: seq<nat>, pop: nat)
    requires Sum(counts) <= pop
    ensures NonNegative(Shares(counts, pop))
    ensures RealSumTo(Shares(counts, pop), |counts|) <= 1.0
  {
    var w := Shares(counts, pop);
    forall d | 0 <= d < |w|
      ensures 0.0 <= w[d]
    {
      if pop > 0 {
        ShareScales(counts[d], pop);
      }
    }
    if pop > 0 {
      SharesSum(counts, pop, |counts|);
      ShareScales(Sum(counts), pop);
    } else {
      ZeroShares(w, |counts|);
    }
  }

  /** Daily shares of group g, the weights of its immunity convolution. */
  function GroupShares(need0: seq<nat>, pop: seq<nat>, supplies: seq<nat>, g: nat): (w: seq<real>)
    requires g < |need0| == |pop|
    ensures |w| == |supplies|
  {
    Shares(GroupDoses(need0, supplies, g), pop[g])
  }

  /** Every bracket's immunity stays within [0, 1]. */
  lemma GroupImmunityBounds(need0: seq<nat>, pop: seq<nat>, supplies: seq<nat>, eff: nat -> real, g: nat, x: nat)
    requires g < |need0| == |pop| && need0[g] <= pop[g]
    requires forall a: nat :: 0.0 <= eff(a) <= 1.0
    ensures 0.0 <= Accum(GroupShares(need0, pop, supplies, g), eff, |supplies|, x) <= 1.0
  {
    var counts := GroupDoses(need0, supplies, g);
    NeedAccounting(need0, supplies, |supplies|, g);
    SharesAtMostOne(counts, pop[g]);
    AccumBounds(Shares(counts, pop[g]), eff, |supplies|, x);
  }

  // ---------------------------------------------------------------------
  // The population-weighted total.

  /** Sum of value times population over the first k groups. */
  function WeightedSumTo(values: seq<real>, pop: seq<nat>, k: nat): real
    requires k <= |values| == |pop|
  {
    if k == 0 then 0.0 else WeightedSumTo(values, pop, k - 1) + values[k - 1] * pop[k - 1] as real
  }

  /** The Total column: population-weighted mean of the brackets' immunity;
      there is none when the entity has no population. */
  function WeightedMean(values: seq<real>, pop: seq<nat>): (m: Option<real>)
    requires |values| == |pop|
    ensures m.Some? <==> Sum(pop) > 0
  {
    if Sum(pop) == 0 then None else Some(WeightedSumTo(values, pop, |pop|) / Sum(pop) as real)
  }

  lemma {:induction false} WeightedSumBounds(values: seq<real>, pop: seq<nat>, k: nat)
    requires k <= |values| == |pop|
    requires forall g :: 0 <= g < |values| ==> 0.0 <= values[g] <= 1.0
    ensures 0.0 <= WeightedSumTo(values, pop, k) <= SumTo(pop, k) as real
  {
    if k > 0 {
      WeightedSumBounds(values, pop, k - 1);
      MulNonNegative(values[k - 1], pop[k - 1] as real);
      MulNonNegative(1.0 - values[k - 1], pop[k - 1] as real);
    }
  }

  /** A weighted mean of values within [0, 1] lies within [0, 1]. */
  lemma WeightedMeanBounds(values: seq<real>, pop: seq<nat>)
    requires |values| == |pop|
    requires forall g :: 0 <= g < |values| ==> 0.0 <= values[g] <= 1.0
    ensures var m := WeightedMean(values, pop); m.Some? ==> 0.0 <= m.value <= 1.0
  {
    WeightedSumBounds(values, pop, |pop|);
  }

  /** No group gets more first doses in a day than its population. */
  lemma GivenWithinPopulation(need0: seq<nat>, pop: seq<nat>, supplies: seq<nat>, i: nat, g: nat)
    requires i < |supplies| && g < |need0| == |pop| && need0[g] <= pop[g]
    ensures GivenOn(need0, supplies, i, g) <= pop[g]
  {
    NeedAccounting(need0, supplies, i, g);
  }

  // ---------------------------------------------------------------------
  // The computation, in place on the bracket columns.

  /** result[country, grp] += [e * p for e in map(eff, days_since)] */
  method AddCohortColumn(result: array2<real>, g: nat, i: nat, p: real, eff: nat -> real)
    requires g < result.Length1
    modifies result
    ensures forall x, h :: 0 <= x < result.Length0 && 0 <= h < result.Length1 ==>
      result[x, h] == if h == g then old(result[x, h]) + p * eff(DaysSince(x, i)) else old(result[x, h])
  {
    var x := 0;
    while x < result.Length0
      invariant 0 <= x <= result.Length0
      invariant forall y, h :: 0 <= y < result.Length0 && 0 <= h < result.Length1 ==>
        result[y, h] == if h == g && y < x then old(result[y, h]) + p * eff(DaysSince(y, i)) else old(result[y, h])
    {
      result[x, g] := result[x, g] + p * eff(DaysSince(x, i));
      x := x + 1;
    }
  }

  /** The weights of every bracket's convolution: its daily shares. */
  ghost function AgeWeights(need0: seq<nat>, pop: seq<nat>, supplies: seq<nat>): (ws: seq<seq<real>>)
    requires |need0| == |pop|
    ensures |ws| == |pop|
    ensures forall g :: 0 <= g < |pop| ==> ws[g] == GroupShares(need0, pop, supplies, g) && |ws[g]| == |supplies|
  {
    seq(|pop|, g requires 0 <= g < |pop| => GroupShares(need0, pop, supplies, g))
  }

  /** ws holds, day by day, every group's share of the day's doses. */
  ghost predicate WeightsFor(ws: seq<seq<real>>, need0: seq<nat>, pop: seq<nat>, supplies: seq<nat>)
    requires |need0| == |pop|
  {
    && |ws| == |pop|
    && (forall g :: 0 <= g < |pop| ==> |ws[g]| == |supplies|)
    && (forall g, d {:trigger GivenOn(need0, supplies, d, g)} :: 0 <= g < |pop| && 0 <= d < |supplies| ==>
          ws[g][d] == Share(GivenOn(need0, supplies, d, g), pop[g]))
  }

  lemma AgeWeightsFor(need0: seq<nat>, pop: seq<nat>, supplies: seq<nat>)
    requires |need0| == |pop|
    ensures WeightsFor(AgeWeights(need0, pop, supplies), need0, pop, supplies)
  {
  }

  /** Every bracket column holds the convolution of its weights of days 0 .. k-1. */
  ghost predicate AgeAccumulated(result: array2<real>, ws: seq<seq<real>>, eff: nat -> real, k: nat)
    reads result
    requires |ws| == result.Length1 && forall g :: 0 <= g < |ws| ==> k <= |ws[g]|
  {
    forall x, g :: 0 <= x < result.Length0 && 0 <= g < result.Length1 ==>
      result[x, g] == Accum(ws[g], eff, k, x)
  }

  /** Midway through day i: groups before g already hold the day's cohort. */
  ghost predicate ColumnsAt(result: array2<real>, ws: seq<seq<real>>, eff: nat -> real, i: nat, g: nat)
    reads result
    requires |ws| == result.Length1 && forall h :: 0 <= h < |ws| ==> i < |ws[h]|
  {
    forall x, h :: 0 <= x < result.Length0 && 0 <= h < result.Length1 ==>
      result[x, h] == Accum(ws[h], eff, if h < g then i + 1 else i, x)
  }

  /** Group g's cohort of day i joins its column, p = n / population: a group
      that got no dose that day is passed over. */
  method AddGroupDay(result: array2<real>, ghost ws: seq<seq<real>>, eff: nat -> real, i: nat, g: nat, n: nat, pop: nat)
    requires |ws| == result.Length1 && g < |ws| && forall h :: 0 <= h < |ws| ==> i < |ws[h]|
    requires n <= pop && ws[g][i] == Share(n, pop)
    requires ColumnsAt(result, ws, eff, i, g)
    modifies result
    ensures ColumnsAt(result, ws, eff, i, g + 1)
  {
    if n > 0 {
      var p := n as real / pop as real;
      AddCohortColumn(result, g, i, p, eff);
    }
  }

  /** The day's allocation to group g is its GivenOn. */
  lemma AllotOn(need0: seq<nat>, supplies: seq<nat>, i: nat, g: nat)
    requires i < |supplies| && g < |need0|
    ensures Allot(NeedAfter(need0, supplies, i), supplies[i])[g] == GivenOn(need0, supplies, i, g)
  {
  }

  /** The need vector holds v. */
  ghost predicate NeedIs(need: array<nat>, v: seq<nat>)
    reads need
  {
    need.Length == |v| && forall k :: 0 <= k < need.Length ==> need[k] == v[k]
  }

  /** The cascade of day i on the entity's need vector. */
  method CascadeOn(need: array<nat>, need0: seq<nat>, supplies: seq<nat>, i: nat, supply: nat) returns (given: seq<nat>)
    requires i < |supplies| && supply == supplies[i]
    requires need.Length == |need0| && NeedIs(need, NeedAfter(need0, supplies, i))
    modifies need
    ensures NeedIs(need, NeedAfter(need0, supplies, i + 1))
    ensures |given| == |need0| && forall g :: 0 <= g < |need0| ==> given[g] == GivenOn(need0, supplies, i, g)
  {
    assert need[..] == NeedAfter(need0, supplies, i);
    var leftover;
    given, leftover := AllocateDay(need, supply);
    forall g | 0 <= g < |need0|
      ensures given[g] == GivenOn(need0, supplies, i, g)
    {
      AllotOn(need0, supplies, i, g);
    }
  }

  /** The day's allocation, seen as shares of the brackets, is the day's
      weight of every bracket's convolution. */
  lemma DayShares(need0: seq<nat>, pop: seq<nat>, supplies: seq<nat>, ws: seq<seq<real>>, i: nat, given: seq<nat>)
    requires i < |supplies| && |need0| == |pop| == |given|
    requires forall g :: 0 <= g < |pop| ==> need0[g] <= pop[g]
    requires WeightsFor(ws, need0, pop, supplies)
    requires forall g :: 0 <= g < |need0| ==> given[g] == GivenOn(need0, supplies, i, g)
    ensures forall g :: 0 <= g < |pop| ==> given[g] <= pop[g] && ws[g][i] == Share(given[g], pop[g])
  {
    forall g | 0 <= g < |pop|
      ensures given[g] <= pop[g]
    {
      GivenWithinPopulation(need0, pop, supplies, i, g);
    }
  }

  /** for grp, n in get_one: result[country, grp] += p * eff, p = n / population */
  method AddDayCohorts(result: array2<real>, ghost ws: seq<seq<real>>, eff: nat -> real, i: nat, given: seq<nat>, pop: seq<nat>)
    requires |ws| == result.Length1 == |given| == |pop| && forall h :: 0 <= h < |ws| ==> i < |ws[h]|
    requires forall g :: 0 <= g < |pop| ==> given[g] <= pop[g] && ws[g][i] == Share(given[g], pop[g])
    requires AgeAccumulated(result, ws, eff, i)
    modifies result
    ensures AgeAccumulated(result, ws, eff, i + 1)
  {
    var g := 0;
    while g < |given|
      invariant 0 <= g <= |given|
      invariant ColumnsAt(result, ws, eff, i, g)
    {
      AddGroupDay(result, ws, eff, i, g, given[g], pop[g]);
      g := g + 1;
    }
  }

  /** The state of calc_immunity_*_age after the first i days of one
      entity: need holds what every group still needs, and every bracket
      column the convolution of its shares of days 0 .. i-1. */
  ghost predicate AgeRun(result: array2<real>, need: array<nat>, need0: seq<nat>, pop: seq<nat>, supplies: seq<nat>,
                         ws: seq<seq<real>>, eff: nat -> real, i: nat)
    reads result, need
  {
    && i <= |supplies|
    && need.Length == |need0| == |pop| == result.Length1
    && (forall g :: 0 <= g < |pop| ==> need0[g] <= pop[g])
    && WeightsFor(ws, need0, pop, supplies)
    && NeedIs(need, NeedAfter(need0, supplies, i))
    && AgeAccumulated(result, ws, eff, i)
  }

  /** One day of calc_immunity_*_age for one entity: the cascade, then every
      group's cohort joins its column. */
  method AgeDay(result: array2<real>, need: array<nat>, need0: seq<nat>, pop: seq<nat>, supplies: seq<nat>, ghost ws: seq<seq<real>>,
                eff: nat -> real, i: nat, supply: nat)
    requires i < |supplies| && supply == supplies[i]
    requires AgeRun(result, need, need0, pop, supplies, ws, eff, i)
    modifies result, need
    ensures AgeRun(result, need, need0, pop, supplies, ws, eff, i + 1)
  {
    var given := CascadeOn(need, need0, supplies, i, supply);
    DayShares(need0, pop, supplies, ws, i, given);
    AddDayCohorts(result, ws, eff, i, given, pop);
  }

  /** One day's row of bracket values. */
  function Row(result: array2<real>, x: nat): (r: seq<real>)
    reads result
    requires x < result.Length0
    ensures |r| == result.Length1
    ensures forall g :: 0 <= g < result.Length1 ==> r[g] == result[x, g]
  {
    seq(result.Length1, g requires 0 <= g < result.Length1 reads result => result[x, g])
  }

  /** The Total column, day by day. */
  method TotalColumn(result: array2<real>, pop: seq<nat>) returns (total: seq<Option<real>>)
    requires result.Length1 == |pop|
    ensures |total| == result.Length0
    ensures forall x :: 0 <= x < result.Length0 ==> total[x] == WeightedMean(Row(result, x), pop)
  {
    total := [];
    var x := 0;
    while x < result.Length0
      invariant 0 <= x <= result.Length0 && |total| == x
      invariant forall y :: 0 <= y < x ==> total[y] == WeightedMean(Row(result, y), pop)
    {
      total := total + [WeightedMean(Row(result, x), pop)];
      x := x + 1;
    }
  }

  /** The brackets in priority order, their populations and the initial need,
      also as the mutable need vector of the run. */
  method AgeSetUp(brackets: seq<string>, population: seq<nat>)
    returns (groups: seq<string>, pop: seq<nat>, need0: seq<nat>, need: array<nat>)
    requires |brackets| == |population|
    ensures groups == PriorityOrder(brackets) && pop == PriorityOrder(population)
    ensures need0 == InitialNeed(groups, pop)
    ensures |groups| == |pop| == |need0| && forall g :: 0 <= g < |pop| ==> need0[g] <= pop[g]
    ensures fresh(need) && NeedIs(need, need0)
  {
    groups := PriorityOrder(brackets);
    pop := PriorityOrder(population);
    need0 := InitialNeed(groups, pop);
    need := new nat[|need0|](g requires 0 <= g < |need0| => need0[g]);
  }

  /** The day loop of calc_immunity_1d_age: every day's doses go down the cascade. */
  method RunAgeDays(result: array2<real>, need: array<nat>, need0: seq<nat>, pop: seq<nat>, supplies: seq<nat>,
                    ghost ws: seq<seq<real>>, eff: nat -> real)
    requires AgeRun(result, need, need0, pop, supplies, ws, eff, 0)
    modifies result, need
    ensures AgeRun(result, need, need0, pop, supplies, ws, eff, |supplies|)
  {
    var i := 0;
    while i < |supplies|
      invariant AgeRun(result, need, need0, pop, supplies, ws, eff, i)
    {
      AgeDay(result, need, need0, pop, supplies, ws, eff, i, supplies[i]);
      i := i + 1;
    }
  }

  /** calc_immunity_1d_age for one entity: every day's doses go down the
      cascade as first doses, under the one-dose curve. */
  method CalcImmunity1dAge(brackets: seq<string>, population: seq<nat>, doses: seq<nat>)
    returns (groups: seq<string>, result: array2<real>, total: seq<Option<real>>)
    requires |brackets| == |population|
    ensures groups == PriorityOrder(brackets)
    ensures fresh(result) && result.Length0 == |doses| && result.Length1 == |groups|
    ensures var pop := PriorityOrder(population);
      forall x, g :: 0 <= x < |doses| && 0 <= g < |groups| ==>
        result[x, g] == Accum(GroupShares(InitialNeed(groups, pop), pop, doses, g), OldCurve(OneDose), |doses|, x)
    ensures |total| == |doses|
    ensures forall x :: 0 <= x < |doses| ==> total[x] == WeightedMean(Row(result, x), PriorityOrder(population))
  {
    var pop, need0, need;
    groups, pop, need0, need := AgeSetUp(brackets, population);
    ghost var ws := AgeWeights(need0, pop, doses);
    AgeWeightsFor(need0, pop, doses);
    result := new real[|doses|, |groups|]((_, _) => 0.0);
    RunAgeDays(result, need, need0, pop, doses, ws, OldCurve(OneDose));
    total := TotalColumn(result, pop);
  }

  /** One day of calc_immunity_2d_age: the backlog gives the day's new first
      doses, which go down the cascade. */
  method AgeDay2d(backlog: SecondDoseBacklog, result: array2<real>, need: array<nat>, need0: seq<nat>, pop: seq<nat>,
                  totals: seq<nat>, firsts: seq<nat>, ghost ws: seq<seq<real>>, eff: nat -> real, i: nat)
    requires backlog.Valid() && i < |totals| && backlog.slots == Slots(totals, backlog.daysBetweenShots, i)
    requires firsts == Firsts(totals, backlog.daysBetweenShots)
    requires AgeRun(result, need, need0, pop, firsts, ws, eff, i)
    modifies backlog, result, need
    ensures backlog.Valid() && backlog.slots == Slots(totals, backlog.daysBetweenShots, i + 1)
    ensures AgeRun(result, need, need0, pop, firsts, ws, eff, i + 1)
  {
    var newFirst := backlog.AdvanceOn(totals, i);
    AgeDay(result, need, need0, pop, firsts, ws, eff, i, newFirst);
  }

  /** The day loop of calc_immunity_2d_age, with the entity's backlog. */
  method RunAgeDays2d(result: array2<real>, need: array<nat>, need0: seq<nat>, pop: seq<nat>,
                      totals: seq<nat>, firsts: seq<nat>, ghost ws: seq<seq<real>>, eff: nat -> real)
    requires firsts == Firsts(totals, OldDaysBetweenShots)
    requires AgeRun(result, need, need0, pop, firsts, ws, eff, 0)
    modifies result, need
    ensures AgeRun(result, need, need0, pop, firsts, ws, eff, |totals|)
  {
    var backlog := new SecondDoseBacklog(OldDaysBetweenShots);
    var i := 0;
    while i < |totals|
      invariant i <= |totals|
      invariant backlog.Valid() && backlog.daysBetweenShots == OldDaysBetweenShots
      invariant backlog.slots == Slots(totals, OldDaysBetweenShots, i)
      invariant AgeRun(result, need, need0, pop, firsts, ws, eff, i)
    {
      AgeDay2d(backlog, result, need, need0, pop, totals, firsts, ws, eff, i);
      i := i + 1;
    }
  }

  /** calc_immunity_2d_age for one entity: the second-dose backlog runs first,
      and only the day's new first doses go down the cascade, under the
      two-dose curve. */
  method CalcImmunity2dAge(brackets: seq<string>, population: seq<nat>, totals: seq<nat>)
    returns (groups: seq<string>, result: array2<real>, total: seq<Option<real>>)
    requires |brackets| == |population|
    ensures groups == PriorityOrder(brackets)
    ensures fresh(result) && result.Length0 == |totals| && result.Length1 == |groups|
    ensures var pop := PriorityOrder(population);
      var firsts := Firsts(totals, OldDaysBetweenShots);
      forall x, g :: 0 <= x < |totals| && 0 <= g < |groups| ==>
        result[x, g] == Accum(GroupShares(InitialNeed(groups, pop), pop, firsts, g), OldCurve(TwoDose), |totals|, x)
    ensures |total| == |totals|
    ensures forall x :: 0 <= x < |totals| ==> total[x] == WeightedMean(Row(result, x), PriorityOrder(population))
  {
    var pop, need0, need;
    groups, pop, need0, need := AgeSetUp(brackets, population);
    var firsts := Firsts(totals, OldDaysBetweenShots);
    ghost var ws := AgeWeights(need0, pop, firsts);
    AgeWeightsFor(need0, pop, firsts);
    result := new real[|totals|, |groups|]((_, _) => 0.0);
    RunAgeDays2d(result, need, need0, pop, totals, firsts, ws, OldCurve(TwoDose));
    total := TotalColumn(result, pop);
  }

  /** What the age-resolved columns satisfy, for any curve of the engine's
      shape: every bracket's immunity and the population-weighted total lie
      within [0, 1]. */
  lemma AgeImmunityInUnitInterval(groups: seq<string>, pop: seq<nat>, supplies: seq<nat>, eff: nat -> real, x: nat)
    requires |groups| == |pop| && CurveShape(eff)
    ensures var need0 := InitialNeed(groups, pop);
      var values := seq(|pop|, g requires 0 <= g < |pop| => Accum(GroupShares(need0, pop, supplies, g), eff, |supplies|, x));
      && (forall g :: 0 <= g < |pop| ==> 0.0 <= values[g] <= 1.0)
      && var m := WeightedMean(values, pop); m.Some? ==> 0.0 <= m.value <= 1.0
  {
    var need0 := InitialNeed(groups, pop);
    var values := seq(|pop|, g requires 0 <= g < |pop| => Accum(GroupShares(need0, pop, supplies, g), eff, |supplies|, x));
    forall g | 0 <= g < |pop|
      ensures 0.0 <= values[g] <= 1.0
    {
      GroupImmunityBounds(need0, pop, supplies, eff, g, x);
    }
    WeightedMeanBounds(values, pop);
  }
}
