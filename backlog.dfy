/** The second-dose backlog of one entity: a FIFO with one slot per day until
    a first-dose cohort becomes eligible for its second dose. Each day the
    front slot is the second-dose demand; second doses are served first, and
    the day's new first doses join at the back. */
module Backlog {
  import opened Common

  /** What one day of one entity produces: new first doses, second doses
      given, and the backlog afterwards. */
  datatype DayResult = DayResult(newFirst: nat, second: nat, slots: seq<nat>)

  /** One day: pop the front slot (today's demand); on a shortage give no new
      first doses and add the unmet demand to the new front slot; otherwise
      the rest of the supply becomes new first doses; append them at the back. */
  function Step(slots: seq<nat>, total: nat): (d: DayResult)
    requires |slots| >= 2
    ensures |d.slots| == |slots|
    ensures d.newFirst + d.second == total
    ensures d.second == Min(slots[0], total)
    ensures d.slots[|slots| - 1] == d.newFirst
  {
    var need := slots[0];
    var rest := slots[1..];
    if need > total then
      DayResult(0, total, rest[0 := rest[0] + (need - total)] + [0])
    else
      DayResult(total - need, need, rest + [total - need])
  }

  /** A day moves doses between the backlog and the second-dose count without
      creating or losing any: what enters is the new first doses. */
  lemma StepConserves(slots: seq<nat>, total: nat)
    requires |slots| >= 2
    ensures var d := Step(slots, total); Sum(d.slots) + d.second == Sum(slots) + d.newFirst
  {
    var need := slots[0];
    var rest := slots[1..];
    var d := Step(slots, total);
    SumFront(slots);
    if need > total {
      assert d.slots == rest[0 := rest[0] + (need - total)] + [0];
      SumCarried(rest, need - total);
      assert d.second == total && d.newFirst == 0;
    } else {
      assert d.slots == rest + [total - need];
      SumSnoc(rest, total - need);
      assert d.second == need && d.newFirst == total - need;
    }
  }

  lemma SumFront(s: seq<nat>)
    requires |s| >= 1
    ensures Sum(s) == s[0] + Sum(s[1..])
  {
    assert s == [s[0]] + s[1..];
    SumCons(s[0], s[1..]);
  }

  lemma SumCarried(s: seq<nat>, extra: nat)
    requires |s| >= 1
    ensures Sum(s[0 := s[0] + extra] + [0]) == Sum(s) + extra
  {
    SumUpdate(s, 0, s[0] + extra);
    SumSnoc(s[0 := s[0] + extra], 0);
  }

  /** Every slot moves one place forward; only the front one can grow. */
  lemma StepSlots(slots: seq<nat>, total: nat)
    requires |slots| >= 2
    ensures forall k :: 1 <= k < |slots| - 1 ==> Step(slots, total).slots[k] == slots[k + 1]
    ensures Step(slots, total).slots[0] == slots[1] + (if slots[0] > total then slots[0] - total else 0)
  {
  }

  /** The backlog after days 0 .. j-1, starting from n empty slots. */
  function Slots(totals: seq<nat>, n: nat, j: nat): (s: seq<nat>)
    requires n >= 2 && j <= |totals|
    ensures |s| == n
    decreases j
  {
    if j == 0 then Zeros(n) else Step(Slots(totals, n, j - 1), totals[j - 1]).slots
  }

  /** What day d does with its doses, given the backlog the earlier days left. */
  function Day(totals: seq<nat>, n: nat, d: nat): (r: DayResult)
    requires n >= 2 && d < |totals|
    ensures r.newFirst + r.second == totals[d]
    ensures r.slots == Slots(totals, n, d + 1)
  {
    Step(Slots(totals, n, d), totals[d])
  }

  /** The first-dose series of days 0 .. j-1 of one entity: what the
      immunity convolution is fed with (new_vacs). */
  function FirstsTo(totals: seq<nat>, n: nat, j: nat): (f: seq<nat>)
    requires n >= 2 && j <= |totals|
    ensures |f| == j
    ensures forall d {:trigger f[d], Day(totals, n, d)} :: 0 <= d < j ==> f[d] == Day(totals, n, d).newFirst
  {
    if j == 0 then [] else FirstsTo(totals, n, j - 1) + [Day(totals, n, j - 1).newFirst]
  }

  /** The second-dose series of days 0 .. j-1 of one entity. */
  function SecondsTo(totals: seq<nat>, n: nat, j: nat): (s: seq<nat>)
    requires n >= 2 && j <= |totals|
    ensures |s| == j
    ensures forall d {:trigger s[d], Day(totals, n, d)} :: 0 <= d < j ==> s[d] == Day(totals, n, d).second
  {
    if j == 0 then [] else SecondsTo(totals, n, j - 1) + [Day(totals, n, j - 1).second]
  }

  /** The first-dose series of one entity. */
  function Firsts(totals: seq<nat>, n: nat): (f: seq<nat>)
    requires n >= 2
    ensures |f| == |totals|
    ensures forall d {:trigger f[d], Day(totals, n, d)} :: 0 <= d < |totals| ==> f[d] == Day(totals, n, d).newFirst
  {
    FirstsTo(totals, n, |totals|)
  }

  /** The second-dose series of one entity. */
  function Seconds(totals: seq<nat>, n: nat): (s: seq<nat>)
    requires n >= 2
    ensures |s| == |totals|
    ensures forall d {:trigger s[d], Day(totals, n, d)} :: 0 <= d < |totals| ==> s[d] == Day(totals, n, d).second
  {
    SecondsTo(totals, n, |totals|)
  }

  /** Every day's doses are split exactly into first and second doses. */
  lemma DailyConservation(totals: seq<nat>, n: nat, d: nat)
    requires n >= 2 && d < |totals|
    ensures Firsts(totals, n)[d] + Seconds(totals, n)[d] == totals[d]
  {
    var day := Day(totals, n, d);
  }

  /** Nobody is lost: every first dose given in days 0 .. j-1 has either been
      matched by a second dose or is still waiting in the backlog. */
  lemma {:induction false} RunConserves(totals: seq<nat>, n: nat, j: nat)
    requires n >= 2 && j <= |totals|
    ensures Sum(Slots(totals, n, j)) + SumTo(Seconds(totals, n), j) == SumTo(Firsts(totals, n), j)
    decreases j
  {
    if j == 0 {
      SumZeros(n);
    } else {
      RunConserves(totals, n, j - 1);
      StepConserves(Slots(totals, n, j - 1), totals[j - 1]);
      var day := Day(totals, n, j - 1);
    }
  }

  /** First doses of day d, or 0 for a day before the series starts. */
  function FirstOn(totals: seq<nat>, n: nat, d: int): nat
    requires n >= 2 && d < |totals|
  {
    if 0 <= d then Day(totals, n, d).newFirst else 0
  }

  /** Second-dose demand popped on day j: the front slot after days 0 .. j-1. */
  function Demand(totals: seq<nat>, n: nat, j: nat): nat
    requires n >= 2 && j <= |totals|
  {
    Slots(totals, n, j)[0]
  }

  /** What a demand exceeding the day's supply leaves unmet. */
  function Shortfall(need: nat, total: nat): nat
  {
    if need > total then need - total else 0
  }

  /** Demand left unmet on day j-1, which the backlog carries to day j's front slot. */
  function Carry(totals: seq<nat>, n: nat, j: nat): nat
    requires n >= 2 && j <= |totals|
  {
    if j == 0 then 0 else Shortfall(Demand(totals, n, j - 1), totals[j - 1])
  }

  /** Delay exactness: after j days the slot k days ahead (k >= 1) holds
      exactly the first doses of day j + k - n. A first dose given on day d
      is therefore owed its second dose on day d + n, not a day earlier or later. */
  lemma {:induction false} QueueShape(totals: seq<nat>, n: nat, j: nat)
    requires n >= 2 && j <= |totals|
    ensures forall k :: 1 <= k < n ==> Slots(totals, n, j)[k] == FirstOn(totals, n, j + k - n)
    decreases j
  {
    if j > 0 {
      QueueShape(totals, n, j - 1);
      forall k | 1 <= k < n
        ensures Slots(totals, n, j)[k] == FirstOn(totals, n, j + k - n)
      {
        SlotMoves(totals, n, j, k);
      }
    }
  }

  /** One step of QueueShape for one slot. */
  lemma SlotMoves(totals: seq<nat>, n: nat, j: nat, k: nat)
    requires n >= 2 && 0 < j <= |totals| && 1 <= k < n
    requires k < n - 1 ==> Slots(totals, n, j - 1)[k + 1] == FirstOn(totals, n, j - 1 + (k + 1) - n)
    ensures Slots(totals, n, j)[k] == FirstOn(totals, n, j + k - n)
  {
    var prev := Slots(totals, n, j - 1);
    StepSlots(prev, totals[j - 1]);
    if k < n - 1 {
      assert Slots(totals, n, j)[k] == prev[k + 1];
      assert j - 1 + (k + 1) - n == j + k - n;
    } else {
      assert Slots(totals, n, j)[k] == Day(totals, n, j - 1).newFirst;
      assert j + k - n == j - 1;
    }
  }

  /** The front slot after j days is the cohort of day j - n plus the demand
      left unmet the day before. */
  lemma FrontSlot(totals: seq<nat>, n: nat, j: nat)
    requires n >= 2 && j <= |totals|
    ensures Demand(totals, n, j) == FirstOn(totals, n, j - n) + Carry(totals, n, j)
  {
    if j > 0 {
      var prev := Slots(totals, n, j - 1);
      QueueShape(totals, n, j - 1);
      assert prev[1] == FirstOn(totals, n, j - 1 + 1 - n);
      assert j - 1 + 1 - n == j - n;
      StepSlots(prev, totals[j - 1]);
    }
  }

  /** Before the first cohort matures there is no second-dose demand. */
  lemma {:induction false} NoDemandBeforeGap(totals: seq<nat>, n: nat, j: nat)
    requires n >= 2 && j <= |totals| && j < n
    ensures Demand(totals, n, j) == 0
    decreases j
  {
    FrontSlot(totals, n, j);
    if j > 0 {
      NoDemandBeforeGap(totals, n, j - 1);
    }
  }

  /** During the first n days every dose is a first dose. */
  lemma AllFirstBeforeGap(totals: seq<nat>, n: nat, d: nat)
    requires n >= 2 && d < |totals| && d < n
    ensures Firsts(totals, n)[d] == totals[d] && Seconds(totals, n)[d] == 0
  {
    NoDemandBeforeGap(totals, n, d);
    var day := Day(totals, n, d);
  }

  /** The first day's cohort comes back exactly n days later: the demand on
      day n is that cohort and nothing else. */
  lemma FirstCohortReturns(totals: seq<nat>, n: nat)
    requires n >= 2 && n <= |totals|
    ensures Demand(totals, n, n) == totals[0]
  {
    FrontSlot(totals, n, n);
    NoDemandBeforeGap(totals, n, n - 1);
    NoDemandBeforeGap(totals, n, 0);
  }

  /** A cohort of a first doses on day 0, no doses until day n, and b < a
      doses on day n: all b are second doses, none is a first dose, and
      a - b second doses are still owed at the front of the backlog on day
      n + 1 (e.g. a = 100, b = 60, n = 21 leaves 40 owed). */
  lemma ShortageCarries(totals: seq<nat>, n: nat, a: nat, b: nat)
    requires n >= 2 && |totals| == n + 1 && b < a
    requires totals[0] == a && totals[n] == b
    requires forall d :: 1 <= d < n ==> totals[d] == 0
    ensures Seconds(totals, n)[n] == b && Firsts(totals, n)[n] == 0
    ensures Demand(totals, n, n + 1) == a - b
    ensures forall d :: 0 <= d < n ==> Seconds(totals, n)[d] == 0
  {
    forall d | 0 <= d < n ensures Seconds(totals, n)[d] == 0 {
      AllFirstBeforeGap(totals, n, d);
    }
    FirstCohortReturns(totals, n);
    FrontSlot(totals, n, n + 1);
    NoDemandBeforeGap(totals, n, 1);
    assert FirstOn(totals, n, 1) == 0;
  }

  /** The backlog of one entity, updated in place one day at a time. */
  class SecondDoseBacklog {
    const daysBetweenShots: nat
    var slots: seq<nat>

    ghost predicate Valid()
      reads this
    {
      daysBetweenShots >= 2 && |slots| == daysBetweenShots
    }

    /** deque([0] * daysBetweenShots) */
    constructor (daysBetweenShots: nat)
      requires daysBetweenShots >= 2
      ensures Valid() && this.daysBetweenShots == daysBetweenShots
      ensures slots == Zeros(daysBetweenShots)
    {
      this.daysBetweenShots := daysBetweenShots;
      slots := Zeros(daysBetweenShots);
    }

    /** popleft, serve second doses first, carry any shortfall onto the new
        front slot, append the day's new first doses. */
    method Advance(total: nat) returns (newFirst: nat)
      requires Valid()
      modifies this
      ensures Valid()
      ensures var day := Step(old(slots), total);
        newFirst == day.newFirst && slots == day.slots
    {
      var need := slots[0];
      slots := slots[1..];
      if need > total {
        newFirst := 0;
        slots := slots[0 := slots[0] + (need - total)];
      } else {
        newFirst := total - need;
      }
      slots := slots + [newFirst];
    }

    /** Advance on day i of a whole series: the backlog follows Slots and the
        day's new first doses are those of Firsts. */
    method AdvanceOn(totals: seq<nat>, i: nat) returns (newFirst: nat)
      requires Valid() && i < |totals| && slots == Slots(totals, daysBetweenShots, i)
      modifies this
      ensures Valid() && slots == Slots(totals, daysBetweenShots, i + 1)
      ensures newFirst == Firsts(totals, daysBetweenShots)[i]
    {
      ghost var day := Day(totals, daysBetweenShots, i);
      newFirst := Advance(totals[i]);
    }
  }
}
