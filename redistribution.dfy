/** Redistribution of a frame of daily doses per (dose, age group) column by
    a priority list: second doses (and first doses, when asked) go to the
    pair at the back of the list, every pair takes at most what its group
    still lacks, and the overflow moves on to the next pair at the back of
    the list; a pair whose group is complete leaves the list. */
module Redistribution {
  import opened Common

  /** Dose labels of the frame's columns. */
  const D1: string := "1D"
  const D2: string := "2D"

  /** A column of the dose frame: which dose, for which age group. */
  datatype Column = Column(dose: string, group: string)

  datatype RedistError =
    | EmptyFrame         // the frame has no row to take the counter's shape from
    | PriorityListEmpty  // the back of an empty priority list was asked for
    | NotInPriorities    // a completed pair was not in the list to be removed

  predicate Distinct<T(==)>(s: seq<T>)
  {
    forall i, j :: 0 <= i < j < |s| ==> s[i] != s[j]
  }

  /** The default order, lowest priority first: the list is consumed from its back. */
  const DefaultPriorities: seq<Column> := [
    Column(D2, "25-34"),
    Column(D2, "35-44"),
    Column(D2, "55-64"),
    Column(D1, "25-34"),
    Column(D2, "45-54"),
    Column(D1, "35-44"),
    Column(D2, "65-74"),
    Column(D1, "45-54"),
    Column(D2, "75-84"),
    Column(D1, "55-64"),
    Column(D1, "65-74"),
    Column(D2, "85-99"),
    Column(D1, "75-84"),
    Column(D1, "85-99")
  ]

  /** Share of a dose a group is credited with under fractional dosing. */
  const FractionalDoses: map<string, real> := map[
    "25-34" := 0.25,
    "35-44" := 0.25,
    "45-54" := 0.25,
    "55-64" := 0.5,
    "65-74" := 0.75,
    "75-84" := 1.0,
    "85-99" := 1.0
  ]

  /** A missing or empty priority list falls back to the default order; a
      given one is used as it is. The working list is never empty at the start. */
  function PriorityList(priority: seq<Column>): (p: seq<Column>)
    ensures |p| > 0
    ensures |priority| > 0 ==> p == priority
    ensures |priority| == 0 ==> p == DefaultPriorities
  {
    if |priority| == 0 then DefaultPriorities else priority
  }

  /** The default order lists every dose of every group once, the most
      exposed group's first dose at the back, and every listed group has a
      fraction within (0, 1]. */
  lemma DefaultPrioritiesWellFormed()
    ensures |DefaultPriorities| == 14 && Distinct(DefaultPriorities)
    ensures DefaultPriorities[13] == Column(D1, "85-99")
    ensures forall i :: 0 <= i < 14 ==> DefaultPriorities[i].dose in {D1, D2}
    ensures forall i :: 0 <= i < 14 ==> DefaultPriorities[i].group in FractionalDoses
    ensures forall g :: g in FractionalDoses ==> 0.0 < FractionalDoses[g] <= 1.0
  {
    var p := DefaultPriorities;
    forall i, j | 0 <= i < j < |p| ensures p[i] != p[j] {
      assert p[i].dose[0] != p[j].dose[0] || p[i].group[0] != p[j].group[0];
    }
  }

  // ---------------------------------------------------------------------
  // get_remainder_d

  /** How much of a batch a pair takes, and how much moves on. */
  datatype Split = Split(missing: nat, remainder: nat)

  /** int(missing * (1 - fraction)): the part of an assigned batch that a
      fractionally dosed group passes on, truncated toward zero. */
  function Overflow(missing: nat, fraction: real): (o: nat)
    requires 0.0 < fraction <= 1.0
    ensures o as real <= missing as real * (1.0 - fraction) < o as real + 1.0
    ensures missing > 0 ==> o < missing
  {
    var x := missing as real * (1.0 - fraction);
    assert 0.0 <= x;
    x.Floor
  }

  /** A batch of vacc doses offered to a pair whose group still lacks
      population - have doses. */
  function GetRemainder(have: nat, population: nat, vacc: nat, fractional: bool, fraction: real): (s: Split)
    requires have <= population && 0.0 < fraction <= 1.0
    ensures s.missing <= vacc && s.missing <= population - have
    ensures s.missing == vacc || s.missing == population - have
    ensures !fractional ==> s.missing + s.remainder == vacc
    ensures fractional ==> s.missing + s.remainder == vacc + Overflow(s.missing, fraction)
    ensures s.missing > 0 ==> s.remainder < vacc
    ensures s.missing == 0 ==> s.remainder == vacc
  {
    var missing := Min(vacc, population - have);
    var remainder := vacc - missing;
    Split(missing, if fractional then remainder + Overflow(missing, fraction) else remainder)
  }

  // ---------------------------------------------------------------------
  // The state of one run.

  /** The frame's columns, the populations and the dosing mode. */
  datatype Config = Config(cols: seq<Column>, pop: map<string, nat>, fractional: bool)

  /** have_d: doses given so far per column; the priority list; row_new: the
      output row being filled. */
  datatype State = State(have: seq<nat>, priorities: seq<Column>, row: seq<nat>)

  /** What the lookups of a run need: every column's group has a
      population (and a fraction, under fractional dosing). */
  predicate WellFormed(cfg: Config)
  {
    && (forall k :: 0 <= k < |cfg.cols| ==> cfg.cols[k].group in cfg.pop)
    && (cfg.fractional ==> forall k :: 0 <= k < |cfg.cols| ==> cfg.cols[k].group in FractionalDoses)
    && (forall g :: g in FractionalDoses ==> 0.0 < FractionalDoses[g] <= 1.0)
  }

  function PopOf(cfg: Config, k: nat): nat
    requires WellFormed(cfg) && k < |cfg.cols|
  {
    cfg.pop[cfg.cols[k].group]
  }

  function FractionOf(cfg: Config, k: nat): (f: real)
    requires WellFormed(cfg) && k < |cfg.cols|
    ensures 0.0 < f <= 1.0
  {
    if cfg.fractional then FractionalDoses[cfg.cols[k].group] else 1.0
  }

  /** The column of a listed pair. */
  function IndexOf(cols: seq<Column>, c: Column): (i: nat)
    requires c in cols
    ensures i < |cols| && cols[i] == c
    ensures forall j :: 0 <= j < i ==> cols[j] != c
  {
    if cols[0] == c then 0 else 1 + IndexOf(cols[1..], c)
  }

  /** priorities.remove(c): the first occurrence goes; None if c is not listed. */
  function RemoveFirst(s: seq<Column>, c: Column): (r: Option<seq<Column>>)
    ensures r.None? <==> c !in s
    ensures r.Some? ==> |r.value| + 1 == |s|
  {
    if c !in s then None
    else
      var i := IndexOf(s, c);
      Some(s[..i] + s[i + 1..])
  }

  /** Removing a pair from a list without repeats keeps every other pair
      and leaves no repeats. */
  lemma RemoveFirstKeeps(s: seq<Column>, c: Column)
    requires c in s && Distinct(s)
    ensures Distinct(RemoveFirst(s, c).value)
    ensures forall x :: x in RemoveFirst(s, c).value <==> x in s && x != c
  {
    var i := IndexOf(s, c);
    var rest := s[..i] + s[i + 1..];
    assert RemoveFirst(s, c).value == rest;
    assert forall j :: 0 <= j < |rest| ==> rest[j] == if j < i then s[j] else s[j + 1];
    forall x | x in s && x != c ensures x in rest {
      var j :| 0 <= j < |s| && s[j] == x;
      assert rest[if j < i then j else j - 1] == x;
    }
  }

  /** A pair's group is complete: it got as many doses as it has people. */
  predicate Full(cfg: Config, have: seq<nat>, k: nat)
    requires WellFormed(cfg) && k < |cfg.cols| && k < |have|
  {
    have[k] >= PopOf(cfg, k)
  }

  /** What every step keeps: no column ever holds more doses than its
      group's population, the list holds distinct columns, and every listed
      pair still lacks doses (a complete pair has left the list). */
  predicate Inv(cfg: Config, st: State)
  {
    && WellFormed(cfg)
    && |st.have| == |cfg.cols| && |st.row| == |cfg.cols|
    && (forall k :: 0 <= k < |cfg.cols| ==> st.have[k] <= PopOf(cfg, k))
    && Distinct(st.priorities)
    && (forall p :: p in st.priorities ==> p in cfg.cols)
    && (forall k :: 0 <= k < |cfg.cols| && cfg.cols[k] in st.priorities ==> st.have[k] < PopOf(cfg, k))
  }

  /** The pair at the back of the list: priorities[-1]. */
  function Next(cfg: Config, st: State): (k: nat)
    requires Inv(cfg, st) && |st.priorities| > 0
    ensures k < |cfg.cols| && cfg.cols[k] == st.priorities[|st.priorities| - 1]
    ensures !Full(cfg, st.have, k)
  {
    IndexOf(cfg.cols, st.priorities[|st.priorities| - 1])
  }

  /** Total population over the columns: what the counters can reach at most. */
  function PopsTo(cfg: Config, k: nat): nat
    requires WellFormed(cfg) && k <= |cfg.cols|
  {
    if k == 0 then 0 else PopsTo(cfg, k - 1) + PopOf(cfg, k - 1)
  }

  lemma {:induction false} HaveBelowPops(cfg: Config, have: seq<nat>, k: nat)
    requires WellFormed(cfg) && |have| == |cfg.cols| && k <= |have|
    requires forall j :: 0 <= j < |have| ==> have[j] <= PopOf(cfg, j)
    ensures SumTo(have, k) <= PopsTo(cfg, k)
  {
    if k > 0 {
      HaveBelowPops(cfg, have, k - 1);
    }
  }

  /** How many doses the columns can still take; each assignment lowers it. */
  function Room(cfg: Config, st: State): nat
    requires Inv(cfg, st)
  {
    HaveBelowPops(cfg, st.have, |st.have|);
    PopsTo(cfg, |cfg.cols|) - Sum(st.have)
  }

  // ---------------------------------------------------------------------
  // assign_d and the while loop, as specification.

  /** assign_d: the counter and the output row of column k grow by m; the
      pair leaves the list when its group becomes complete. */
  function AssignD(cfg: Config, st: State, k: nat, m: nat): (r: Result<State, RedistError>)
    requires Inv(cfg, st) && k < |cfg.cols| && 0 < m && st.have[k] + m <= PopOf(cfg, k)
    ensures r.Failure? <==> st.have[k] + m == PopOf(cfg, k) && cfg.cols[k] !in st.priorities
    ensures r.Failure? ==> r.error == NotInPriorities
    ensures r.Success? ==> Inv(cfg, r.value)
    ensures r.Success? ==> r.value.have == st.have[k := st.have[k] + m] && r.value.row == st.row[k := st.row[k] + m]
  {
    var have := st.have[k := st.have[k] + m];
    var row := st.row[k := st.row[k] + m];
    if have[k] >= PopOf(cfg, k) then
      match RemoveFirst(st.priorities, cfg.cols[k])
      case None => Failure(NotInPriorities)
      case Some(rest) =>
        RemoveFirstKeeps(st.priorities, cfg.cols[k]);
        Success(State(have, rest, row))
    else
      Success(State(have, st.priorities, row))
  }

  /** assign_d keeps every listed pair but the one it completes. */
  lemma AssignDKeeps(cfg: Config, st: State, k: nat, m: nat)
    requires Inv(cfg, st) && k < |cfg.cols| && 0 < m && st.have[k] + m <= PopOf(cfg, k)
    requires AssignD(cfg, st, k, m).Success?
    ensures var r := AssignD(cfg, st, k, m).value;
      forall p :: p in r.priorities <==> p in st.priorities && (p != cfg.cols[k] || !Full(cfg, r.have, k))
  {
    if st.have[k] + m >= PopOf(cfg, k) {
      RemoveFirstKeeps(st.priorities, cfg.cols[k]);
    }
  }

  /** One pass of the loop body: get_remainder_d on the current pair, assign_d
      when it takes anything. */
  function Take(cfg: Config, st: State, cur: nat, vacc: nat): (r: Result<State, RedistError>)
    requires Inv(cfg, st) && cur < |cfg.cols|
    ensures r.Success? ==> Inv(cfg, r.value)
    ensures r.Failure? ==> r.error == NotInPriorities
  {
    var split := GetRemainder(st.have[cur], PopOf(cfg, cur), vacc, cfg.fractional, FractionOf(cfg, cur));
    if split.missing > 0 then AssignD(cfg, st, cur, split.missing) else Success(st)
  }

  /** Whatever a pass assigns is taken from the room left. */
  lemma TakeRoom(cfg: Config, st: State, cur: nat, vacc: nat)
    requires Inv(cfg, st) && cur < |cfg.cols| && Take(cfg, st, cur, vacc).Success?
    ensures Room(cfg, Take(cfg, st, cur, vacc).value)
      + GetRemainder(st.have[cur], PopOf(cfg, cur), vacc, cfg.fractional, FractionOf(cfg, cur)).missing
      == Room(cfg, st)
  {
    var split := GetRemainder(st.have[cur], PopOf(cfg, cur), vacc, cfg.fractional, FractionOf(cfg, cur));
    if split.missing > 0 {
      SumUpdate(st.have, cur, st.have[cur] + split.missing);
    }
  }

  /** The while loop of one column's batch: offer what is left to the
      current pair and, while some of the batch is left, move on to the
      pair at the back of the list. */
  function Place(cfg: Config, st: State, cur: nat, vacc: nat): (r: Result<State, RedistError>)
    requires Inv(cfg, st) && cur < |cfg.cols|
    ensures r.Success? ==> Inv(cfg, r.value)
    ensures r.Failure? ==> r.error != EmptyFrame
    decreases Room(cfg, st), if Full(cfg, st.have, cur) then 1 else 0
  {
    if vacc == 0 then Success(st)
    else
      var split := GetRemainder(st.have[cur], PopOf(cfg, cur), vacc, cfg.fractional, FractionOf(cfg, cur));
      var taken := Take(cfg, st, cur, vacc);
      if taken.Failure? || split.remainder == 0 then taken
      else if |taken.value.priorities| == 0 then Failure(PriorityListEmpty)
      else
        var st' := taken.value;
        TakeRoom(cfg, st, cur, vacc);
        Place(cfg, st', Next(cfg, st'), split.remainder)
  }

  /** The same loop as the code has it: after every pass the back of the
      list is read, also when nothing of the batch is left. */
  function PlaceAsWritten(cfg: Config, st: State, cur: nat, vacc: nat): (r: Result<State, RedistError>)
    requires Inv(cfg, st) && cur < |cfg.cols|
    ensures r.Success? ==> Inv(cfg, r.value)
    decreases Room(cfg, st), if Full(cfg, st.have, cur) then 1 else 0
  {
    if vacc == 0 then Success(st)
    else
      var split := GetRemainder(st.have[cur], PopOf(cfg, cur), vacc, cfg.fractional, FractionOf(cfg, cur));
      var taken := Take(cfg, st, cur, vacc);
      if taken.Failure? then taken
      else if |taken.value.priorities| == 0 then Failure(PriorityListEmpty)
      else
        var st' := taken.value;
        TakeRoom(cfg, st, cur, vacc);
        PlaceAsWritten(cfg, st', Next(cfg, st'), split.remainder)
  }

  /** Reading the back of the list only while doses are left changes no
      batch that the code as written places: it differs only where the
      code fails. */
  lemma {:induction false} PlaceAsWrittenAgrees(cfg: Config, st: State, cur: nat, vacc: nat)
    requires Inv(cfg, st) && cur < |cfg.cols| && PlaceAsWritten(cfg, st, cur, vacc).Success?
    ensures Place(cfg, st, cur, vacc) == PlaceAsWritten(cfg, st, cur, vacc)
    decreases Room(cfg, st), if Full(cfg, st.have, cur) then 1 else 0
  {
    if vacc > 0 {
      var split := GetRemainder(st.have[cur], PopOf(cfg, cur), vacc, cfg.fractional, FractionOf(cfg, cur));
      var t := Take(cfg, st, cur, vacc).value;
      TakeRoom(cfg, st, cur, vacc);
      if split.remainder > 0 {
        PlaceAsWrittenAgrees(cfg, t, Next(cfg, t), split.remainder);
      }
    }
  }

  /** A single 85-99 second-dose column with five people, none dosed yet. */
  const FitConfig: Config := Config([Column(D2, "85-99")], map["85-99" := 5], false)
  const FitState: State := State([0], [Column(D2, "85-99")], [0])

  /** Five doses complete the group and empty the list. */
  lemma FitTake()
    ensures Inv(FitConfig, FitState)
    ensures Take(FitConfig, FitState, 0, 5) == Success(State([5], [], [5]))
  {
    var cfg, st := FitConfig, FitState;
    assert PopOf(cfg, 0) == 5 && FractionOf(cfg, 0) == 1.0;
    assert GetRemainder(0, 5, 5, false, 1.0) == Split(5, 0);
    assert st.have[0 := 5] == [5] && st.row[0 := 5] == [5];
    assert RemoveFirst([Column(D2, "85-99")], Column(D2, "85-99")) == Some([]);
    assert AssignD(cfg, st, 0, 5) == Success(State([5], [], [5]));
  }

  /** Five doses for that column: the batch fits exactly, yet the code as
      written fails reading the back of the emptied list, while the loop
      above places it. */
  lemma PlaceAsWrittenExactFit()
    ensures Inv(FitConfig, FitState)
    ensures PlaceAsWritten(FitConfig, FitState, 0, 5) == Failure(PriorityListEmpty)
    ensures Place(FitConfig, FitState, 0, 5) == Success(State([5], [], [5]))
  {
    FitTake();
    assert GetRemainder(0, 5, 5, false, 1.0) == Split(5, 0);
  }

  /** Without fractional dosing, a batch the current pair can take whole is
      placed there whole, and the batch ends. */
  lemma PlaceFits(cfg: Config, st: State, cur: nat, vacc: nat)
    requires Inv(cfg, st) && cur < |cfg.cols| && !cfg.fractional
    requires cfg.cols[cur] in st.priorities && vacc <= PopOf(cfg, cur) - st.have[cur]
    ensures Place(cfg, st, cur, vacc).Success?
    ensures Place(cfg, st, cur, vacc).value.have == st.have[cur := st.have[cur] + vacc]
    ensures Place(cfg, st, cur, vacc).value.row == st.row[cur := st.row[cur] + vacc]
  {
    if vacc > 0 {
      TakeEffect(cfg, st, cur, vacc);
    }
  }

  /** One pass moves doses into the current column's counter and output
      cell alike, and the list loses at most that pair, only when complete. */
  lemma TakeEffect(cfg: Config, st: State, cur: nat, vacc: nat)
    requires Inv(cfg, st) && cur < |cfg.cols| && Take(cfg, st, cur, vacc).Success?
    ensures var split := GetRemainder(st.have[cur], PopOf(cfg, cur), vacc, cfg.fractional, FractionOf(cfg, cur));
      var t := Take(cfg, st, cur, vacc).value;
      && t.have == st.have[cur := st.have[cur] + split.missing]
      && t.row == st.row[cur := st.row[cur] + split.missing]
      && (forall p :: p in t.priorities <==> p in st.priorities && (p != cfg.cols[cur] || !Full(cfg, t.have, cur)))
  {
    var split := GetRemainder(st.have[cur], PopOf(cfg, cur), vacc, cfg.fractional, FractionOf(cfg, cur));
    if split.missing > 0 {
      AssignDKeeps(cfg, st, cur, split.missing);
    }
  }

  /** Every dose a batch places lands in the counter and in the output cell
      of the same column; counters only grow; the list only loses pairs, and
      only pairs whose group has become complete. */
  lemma {:induction false} PlaceEffect(cfg: Config, st: State, cur: nat, vacc: nat)
    requires Inv(cfg, st) && cur < |cfg.cols| && Place(cfg, st, cur, vacc).Success?
    ensures var res := Place(cfg, st, cur, vacc).value;
      && (forall k :: 0 <= k < |cfg.cols| ==> st.have[k] <= res.have[k] && res.have[k] + st.row[k] == st.have[k] + res.row[k])
      && (forall p :: p in res.priorities ==> p in st.priorities)
    decreases Room(cfg, st), if Full(cfg, st.have, cur) then 1 else 0
  {
    if vacc > 0 {
      var split := GetRemainder(st.have[cur], PopOf(cfg, cur), vacc, cfg.fractional, FractionOf(cfg, cur));
      var t := Take(cfg, st, cur, vacc).value;
      TakeEffect(cfg, st, cur, vacc);
      TakeRoom(cfg, st, cur, vacc);
      if split.remainder > 0 {
        PlaceEffect(cfg, t, Next(cfg, t), split.remainder);
      }
    }
  }

  /** A pair leaves the list only once its group is complete. */
  lemma {:induction false} PlaceDropsOnlyFull(cfg: Config, st: State, cur: nat, vacc: nat)
    requires Inv(cfg, st) && Distinct(cfg.cols) && cur < |cfg.cols| && Place(cfg, st, cur, vacc).Success?
    ensures var res := Place(cfg, st, cur, vacc).value;
      forall k :: 0 <= k < |cfg.cols| && cfg.cols[k] in st.priorities && cfg.cols[k] !in res.priorities ==> Full(cfg, res.have, k)
    decreases Room(cfg, st), if Full(cfg, st.have, cur) then 1 else 0
  {
    if vacc > 0 {
      var split := GetRemainder(st.have[cur], PopOf(cfg, cur), vacc, cfg.fractional, FractionOf(cfg, cur));
      var t := Take(cfg, st, cur, vacc).value;
      TakeEffect(cfg, st, cur, vacc);
      TakeRoom(cfg, st, cur, vacc);
      if split.remainder > 0 {
        PlaceEffect(cfg, t, Next(cfg, t), split.remainder);
        PlaceDropsOnlyFull(cfg, t, Next(cfg, t), split.remainder);
      }
    }
  }

  /** Without fractional dosing a batch is placed whole; with it, the output
      row gains at least the batch (the overflow is handed out on top). */
  lemma {:induction false} PlaceTotal(cfg: Config, st: State, cur: nat, vacc: nat)
    requires Inv(cfg, st) && cur < |cfg.cols| && Place(cfg, st, cur, vacc).Success?
    ensures !cfg.fractional ==> Sum(Place(cfg, st, cur, vacc).value.row) == Sum(st.row) + vacc
    ensures cfg.fractional ==> Sum(Place(cfg, st, cur, vacc).value.row) >= Sum(st.row) + vacc
    decreases Room(cfg, st), if Full(cfg, st.have, cur) then 1 else 0
  {
    if vacc > 0 {
      var split := GetRemainder(st.have[cur], PopOf(cfg, cur), vacc, cfg.fractional, FractionOf(cfg, cur));
      var t := Take(cfg, st, cur, vacc).value;
      TakeEffect(cfg, st, cur, vacc);
      TakeRoom(cfg, st, cur, vacc);
      SumUpdate(st.row, cur, st.row[cur] + split.missing);
      if split.remainder > 0 {
        PlaceTotal(cfg, t, Next(cfg, t), split.remainder);
      }
    }
  }

  /** The pair a batch is offered first gets all its group still lacks, up
      to the whole batch, before anything moves on. */
  lemma PlaceServesFirst(cfg: Config, st: State, cur: nat, vacc: nat)
    requires Inv(cfg, st) && cur < |cfg.cols| && Place(cfg, st, cur, vacc).Success?
    ensures Place(cfg, st, cur, vacc).value.row[cur] >= st.row[cur] + Min(vacc, PopOf(cfg, cur) - st.have[cur])
  {
    if vacc > 0 {
      var split := GetRemainder(st.have[cur], PopOf(cfg, cur), vacc, cfg.fractional, FractionOf(cfg, cur));
      var t := Take(cfg, st, cur, vacc).value;
      TakeEffect(cfg, st, cur, vacc);
      if split.remainder > 0 {
        PlaceEffect(cfg, t, Next(cfg, t), split.remainder);
      }
    }
  }

  // ---------------------------------------------------------------------
  // When a batch fails.

  /** What the group of column k still lacks. */
  function Gap(cfg: Config, have: seq<nat>, k: nat): nat
    requires WellFormed(cfg) && k < |cfg.cols| && k < |have|
  {
    if have[k] <= PopOf(cfg, k) then PopOf(cfg, k) - have[k] else 0
  }

  /** What the groups of the listed pairs among columns 0 .. k-1 still lack. */
  function ListedRoom(cfg: Config, have: seq<nat>, prio: seq<Column>, k: nat): nat
    requires WellFormed(cfg) && |have| == |cfg.cols| && k <= |cfg.cols|
  {
    if k == 0 then 0
    else ListedRoom(cfg, have, prio, k - 1) + (if cfg.cols[k - 1] in prio then Gap(cfg, have, k - 1) else 0)
  }

  /** Every dose a batch can still place: what the listed pairs lack, plus
      what the pair it is offered first lacks when that one is not listed. */
  function Reach(cfg: Config, st: State, cur: nat): nat
    requires Inv(cfg, st) && cur < |cfg.cols|
  {
    (if cfg.cols[cur] in st.priorities then 0 else Gap(cfg, st.have, cur))
      + ListedRoom(cfg, st.have, st.priorities, |cfg.cols|)
  }

  /** The first pass does not complete a pair that is not listed (whose
      removal would fail): the pair is listed, takes part of the batch only,
      or lacks nothing. */
  predicate Admits(cfg: Config, st: State, cur: nat, vacc: nat)
    requires Inv(cfg, st) && cur < |cfg.cols|
  {
    cfg.cols[cur] in st.priorities || vacc < Gap(cfg, st.have, cur) || Gap(cfg, st.have, cur) == 0
  }

  /** Nothing listed, nothing lacking. */
  lemma {:induction false} ListedRoomEmpty(cfg: Config, have: seq<nat>, k: nat)
    requires WellFormed(cfg) && |have| == |cfg.cols| && k <= |cfg.cols|
    ensures ListedRoom(cfg, have, [], k) == 0
  {
    if k > 0 {
      ListedRoomEmpty(cfg, have, k - 1);
    }
  }

  /** Dropping column cur's pair from the list (and changing its counter)
      takes exactly what its group lacked out of the listed room. */
  lemma {:induction false} ListedRoomRemove(cfg: Config, have: seq<nat>, prio: seq<Column>,
                                             have': seq<nat>, prio': seq<Column>, cur: nat, k: nat)
    requires WellFormed(cfg) && Distinct(cfg.cols) && cur < |cfg.cols| && k <= |cfg.cols|
    requires |have| == |cfg.cols| == |have'|
    requires forall j :: 0 <= j < |cfg.cols| && j != cur ==> have'[j] == have[j]
    requires cfg.cols[cur] in prio
    requires forall p :: p in prio' <==> p in prio && p != cfg.cols[cur]
    ensures ListedRoom(cfg, have', prio', k) + (if cur < k then Gap(cfg, have, cur) else 0)
      == ListedRoom(cfg, have, prio, k)
  {
    if k > 0 {
      ListedRoomRemove(cfg, have, prio, have', prio', cur, k - 1);
      if k - 1 != cur {
        assert cfg.cols[k - 1] != cfg.cols[cur];
        assert Gap(cfg, have', k - 1) == Gap(cfg, have, k - 1);
      }
    }
  }

  /** A listed pair's lack is part of the listed room. */
  lemma ListedRoomCovers(cfg: Config, st: State, cur: nat)
    requires Inv(cfg, st) && Distinct(cfg.cols) && cur < |cfg.cols| && cfg.cols[cur] in st.priorities
    ensures Gap(cfg, st.have, cur) <= ListedRoom(cfg, st.have, st.priorities, |cfg.cols|)
  {
    RemoveFirstKeeps(st.priorities, cfg.cols[cur]);
    ListedRoomRemove(cfg, st.have, st.priorities, st.have, RemoveFirst(st.priorities, cfg.cols[cur]).value, cur, |cfg.cols|);
  }

  /** A batch fails on an unlisted pair exactly when its first pass
      completes a pair that is not listed: every later pass serves a pair
      taken from the list. */
  lemma {:induction false} PlaceRejects(cfg: Config, st: State, cur: nat, vacc: nat)
    requires Inv(cfg, st) && cur < |cfg.cols|
    ensures Place(cfg, st, cur, vacc) == Failure(NotInPriorities) <==> !Admits(cfg, st, cur, vacc)
    decreases Room(cfg, st), if Full(cfg, st.have, cur) then 1 else 0
  {
    if vacc > 0 {
      var split := GetRemainder(st.have[cur], PopOf(cfg, cur), vacc, cfg.fractional, FractionOf(cfg, cur));
      var taken := Take(cfg, st, cur, vacc);
      if taken.Success? && split.remainder > 0 && |taken.value.priorities| > 0 {
        var t := taken.value;
        TakeRoom(cfg, st, cur, vacc);
        PlaceRejects(cfg, t, Next(cfg, t), split.remainder);
      }
    }
  }

  /** Without fractional dosing, a batch runs out of listed pairs exactly
      when it is larger than every dose it can still place. */
  lemma {:induction false} PlaceRunsOut(cfg: Config, st: State, cur: nat, vacc: nat)
    requires Inv(cfg, st) && Distinct(cfg.cols) && cur < |cfg.cols| && !cfg.fractional
    ensures Place(cfg, st, cur, vacc) == Failure(PriorityListEmpty)
      <==> Admits(cfg, st, cur, vacc) && vacc > Reach(cfg, st, cur)
    decreases Room(cfg, st), if Full(cfg, st.have, cur) then 1 else 0
  {
    if vacc > 0 {
      var split := GetRemainder(st.have[cur], PopOf(cfg, cur), vacc, cfg.fractional, FractionOf(cfg, cur));
      var taken := Take(cfg, st, cur, vacc);
      var n := |cfg.cols|;
      if cfg.cols[cur] in st.priorities {
        ListedRoomCovers(cfg, st, cur);
      }
      if taken.Success? && split.remainder > 0 {
        var t := taken.value;
        TakeEffect(cfg, st, cur, vacc);
        if cfg.cols[cur] in st.priorities {
          ListedRoomRemove(cfg, st.have, st.priorities, t.have, t.priorities, cur, n);
        } else {
          assert t == st;
        }
        if |t.priorities| == 0 {
          ListedRoomEmpty(cfg, t.have, n);
        } else {
          TakeRoom(cfg, st, cur, vacc);
          PlaceRunsOut(cfg, t, Next(cfg, t), split.remainder);
        }
      }
    }
  }

  /** Without fractional dosing, a batch is placed exactly when its first
      pass does not complete an unlisted pair and it fits into what the
      listed pairs (and the first one) still lack. */
  lemma PlaceSucceeds(cfg: Config, st: State, cur: nat, vacc: nat)
    requires Inv(cfg, st) && Distinct(cfg.cols) && cur < |cfg.cols| && !cfg.fractional
    ensures Place(cfg, st, cur, vacc).Success? <==> Admits(cfg, st, cur, vacc) && vacc <= Reach(cfg, st, cur)
  {
    PlaceRejects(cfg, st, cur, vacc);
    PlaceRunsOut(cfg, st, cur, vacc);
  }

  /** Where a column's batch is first offered: second doses, and first doses
      when they are redistributed too, go to the pair at the back of the
      list; other first doses to their own column. */
  function Start(cfg: Config, distrFirst: bool, st: State, k: nat): (r: Result<nat, RedistError>)
    requires Inv(cfg, st) && k < |cfg.cols|
    ensures r.Success? ==> r.value < |cfg.cols|
    ensures cfg.cols[k].dose == D2 || distrFirst ==>
      (r.Success? <==> |st.priorities| > 0)
      && (r.Success? ==> cfg.cols[r.value] == st.priorities[|st.priorities| - 1] && !Full(cfg, st.have, r.value))
    ensures cfg.cols[k].dose != D2 && !distrFirst ==> r == Success(k)
    ensures r.Failure? ==> r.error == PriorityListEmpty
  {
    if cfg.cols[k].dose == D2 || distrFirst then
      if |st.priorities| == 0 then Failure(PriorityListEmpty) else Success(Next(cfg, st))
    else
      Success(k)
  }

  /** The columns k .. of one input row, in the frame's column order. */
  function RowFrom(cfg: Config, distrFirst: bool, st: State, row: seq<nat>, k: nat): (r: Result<State, RedistError>)
    requires Inv(cfg, st) && |row| == |cfg.cols| && k <= |cfg.cols|
    ensures r.Success? ==> Inv(cfg, r.value)
    ensures r.Failure? ==> r.error != EmptyFrame
    ensures r.Success? ==> forall c :: 0 <= c < |cfg.cols| ==>
      st.have[c] <= r.value.have[c] && r.value.have[c] + st.row[c] == st.have[c] + r.value.row[c]
    ensures r.Success? && !cfg.fractional ==> Sum(r.value.row) == Sum(st.row) + SumFrom(row, k)
    ensures r.Success? && cfg.fractional ==> Sum(r.value.row) >= Sum(st.row) + SumFrom(row, k)
    decreases |cfg.cols| - k
  {
    if k == |cfg.cols| then Success(st)
    else
      var start := Start(cfg, distrFirst, st, k);
      if start.Failure? then Failure(start.error)
      else
        var placed := Place(cfg, st, start.value, row[k]);
        if placed.Failure? then placed
        else
          PlaceEffect(cfg, st, start.value, row[k]);
          PlaceTotal(cfg, st, start.value, row[k]);
          RowFrom(cfg, distrFirst, placed.value, row, k + 1)
  }


  /** Doses given to column c over the rows of a frame. */
  function ColumnTotal(out: seq<seq<nat>>, c: nat): nat
    requires forall i :: 0 <= i < |out| ==> c < |out[i]|
  {
    if |out| == 0 then 0 else out[0][c] + ColumnTotal(out[1..], c)
  }

  /** The frame's rows in order, the counters and the list carried from one
      row to the next: one output row per input row, each carrying its input
      row's doses (at least them, under fractional dosing), and no column
      given more than its group still lacks. */
  function Rows(cfg: Config, distrFirst: bool, have: seq<nat>, priorities: seq<Column>, rows: seq<seq<nat>>)
    : (r: Result<seq<seq<nat>>, RedistError>)
    requires Inv(cfg, State(have, priorities, Zeros(|cfg.cols|)))
    requires forall i :: 0 <= i < |rows| ==> |rows[i]| == |cfg.cols|
    ensures r.Failure? ==> r.error != EmptyFrame
    ensures r.Success? ==> |r.value| == |rows| && forall i :: 0 <= i < |rows| ==> |r.value[i]| == |cfg.cols|
    ensures r.Success? ==> forall i :: 0 <= i < |rows| ==>
      if cfg.fractional then Sum(r.value[i]) >= Sum(rows[i]) else Sum(r.value[i]) == Sum(rows[i])
    ensures r.Success? ==> forall c :: 0 <= c < |cfg.cols| ==> have[c] + ColumnTotal(r.value, c) <= PopOf(cfg, c)
    decreases |rows|
  {
    if |rows| == 0 then Success([])
    else
      var n := |cfg.cols|;
      var done := RowFrom(cfg, distrFirst, State(have, priorities, Zeros(n)), rows[0], 0);
      if done.Failure? then Failure(done.error)
      else
        var rest := Rows(cfg, distrFirst, done.value.have, done.value.priorities, rows[1..]);
        if rest.Failure? then rest
        else
          SumSplit(rows[0], 0);
          SumZeros(n);
          ColumnTotalCons(cfg, have, done.value.have, done.value.row, rest.value);
          Success([done.value.row] + rest.value)
  }

  /** A row placed on top of counters have, leaving them at have', followed
      by rows that stay within what have' leaves: the whole stays within
      what have leaves. */
  lemma ColumnTotalCons(cfg: Config, have: seq<nat>, have': seq<nat>, row: seq<nat>, rest: seq<seq<nat>>)
    requires WellFormed(cfg) && |have| == |have'| == |row| == |cfg.cols|
    requires forall i :: 0 <= i < |rest| ==> |rest[i]| == |cfg.cols|
    requires forall c :: 0 <= c < |cfg.cols| ==> have[c] <= have'[c] && have'[c] + Zeros(|cfg.cols|)[c] == have[c] + row[c]
    requires forall c :: 0 <= c < |cfg.cols| ==> have'[c] + ColumnTotal(rest, c) <= PopOf(cfg, c)
    ensures forall c :: 0 <= c < |cfg.cols| ==> have[c] + ColumnTotal([row] + rest, c) <= PopOf(cfg, c)
  {
    var out := [row] + rest;
    assert out[1..] == rest;
    forall c | 0 <= c < |cfg.cols| ensures have[c] + ColumnTotal(out, c) <= PopOf(cfg, c) {
      assert Zeros(|cfg.cols|)[c] == 0;
    }
  }

  /** What redistribute_doses asks of its inputs: the frame's columns are
      distinct (the counter is keyed by column), every row has one count per
      column, every listed pair is a column whose group has people, and no
      pair is listed twice (otherwise the loop would never end). */
  predicate Ready(cfg: Config, priority: seq<Column>, rows: seq<seq<nat>>)
  {
    && WellFormed(cfg)
    && Distinct(cfg.cols)
    && (forall i :: 0 <= i < |rows| ==> |rows[i]| == |cfg.cols|)
    && Distinct(PriorityList(priority))
    && (forall p :: p in PriorityList(priority) ==> p in cfg.cols && cfg.pop[p.group] > 0)
  }

  /** redistribute_doses: the frame of redistributed doses, or the error
      that stops it. A completed run gives one output row per input row, one
      cell per column; no column is given more doses than its group has
      people; and each output row carries the doses of its input row (at
      least them, under fractional dosing). */
  function Redistribute(cfg: Config, distrFirst: bool, priority: seq<Column>, rows: seq<seq<nat>>): (r: Result<seq<seq<nat>>, RedistError>)
    requires Ready(cfg, priority, rows)
    ensures r == Failure(EmptyFrame) <==> |rows| == 0
    ensures r.Success? ==> |r.value| == |rows| && forall i :: 0 <= i < |rows| ==> |r.value[i]| == |cfg.cols|
    ensures r.Success? ==> forall i :: 0 <= i < |rows| ==>
      if cfg.fractional then Sum(r.value[i]) >= Sum(rows[i]) else Sum(r.value[i]) == Sum(rows[i])
    ensures r.Success? ==> forall c :: 0 <= c < |cfg.cols| ==> ColumnTotal(r.value, c) <= PopOf(cfg, c)
  {
    if |rows| == 0 then Failure(EmptyFrame)
    else
      var st := State(Zeros(|cfg.cols|), PriorityList(priority), Zeros(|cfg.cols|));
      assert Inv(cfg, st);
      Rows(cfg, distrFirst, st.have, st.priorities, rows)
  }

  /** When every batch from column k on starts at the back of the list
      (second doses, or all doses under distr_first), no pass serves an
      unlisted pair, so the row never fails on one. */
  lemma {:induction false} RowFromListedStarts(cfg: Config, distrFirst: bool, st: State, row: seq<nat>, k: nat)
    requires Inv(cfg, st) && |row| == |cfg.cols| && k <= |cfg.cols|
    requires distrFirst || forall j :: k <= j < |cfg.cols| ==> cfg.cols[j].dose == D2
    ensures RowFrom(cfg, distrFirst, st, row, k) != Failure(NotInPriorities)
    decreases |cfg.cols| - k
  {
    if k < |cfg.cols| {
      RowStep(cfg, distrFirst, st, row, k);
      var start := Start(cfg, distrFirst, st, k);
      if start.Success? {
        PlaceRejects(cfg, st, start.value, row[k]);
        var placed := Place(cfg, st, start.value, row[k]);
        if placed.Success? {
          RowFromListedStarts(cfg, distrFirst, placed.value, row, k + 1);
        }
      }
    }
  }

  /** The same for every row of the frame. */
  lemma {:induction false} RowsListedStarts(cfg: Config, distrFirst: bool, have: seq<nat>, priorities: seq<Column>, rows: seq<seq<nat>>)
    requires Inv(cfg, State(have, priorities, Zeros(|cfg.cols|)))
    requires forall i :: 0 <= i < |rows| ==> |rows[i]| == |cfg.cols|
    requires distrFirst || forall j :: 0 <= j < |cfg.cols| ==> cfg.cols[j].dose == D2
    ensures Rows(cfg, distrFirst, have, priorities, rows) != Failure(NotInPriorities)
    decreases |rows|
  {
    if |rows| > 0 {
      var done := RowFrom(cfg, distrFirst, State(have, priorities, Zeros(|cfg.cols|)), rows[0], 0);
      RowFromListedStarts(cfg, distrFirst, State(have, priorities, Zeros(|cfg.cols|)), rows[0], 0);
      if done.Success? {
        RowsListedStarts(cfg, distrFirst, done.value.have, done.value.priorities, rows[1..]);
      }
    }
  }

  /** With distr_first, or a frame of second doses only, redistribute_doses
      never fails removing an unlisted pair: it can fail only on an empty
      frame or an emptied list. */
  lemma RedistributeListedStarts(cfg: Config, distrFirst: bool, priority: seq<Column>, rows: seq<seq<nat>>)
    requires Ready(cfg, priority, rows)
    requires distrFirst || forall j :: 0 <= j < |cfg.cols| ==> cfg.cols[j].dose == D2
    ensures Redistribute(cfg, distrFirst, priority, rows) != Failure(NotInPriorities)
  {
    if |rows| > 0 {
      var st := State(Zeros(|cfg.cols|), PriorityList(priority), Zeros(|cfg.cols|));
      assert Inv(cfg, st);
      RowsListedStarts(cfg, distrFirst, st.have, st.priorities, rows);
    }
  }

  // ---------------------------------------------------------------------
  // The procedure itself: loops that update the counter, the list and the
  // output row step by step.

  /** What the loop of one batch keeps: the state is well formed and the
      loop run from here ends as the whole batch does. */
  ghost predicate Batching(cfg: Config, st: State, cur: nat, vacc: nat, goal: Result<State, RedistError>)
  {
    Inv(cfg, st) && cur < |cfg.cols| && Place(cfg, st, cur, vacc) == goal
  }

  /** A round either assigns doses, lowering the room left, or finds its
      pair complete and moves on to one that is not. */
  predicate Progress(cfg: Config, st: State, cur: nat, st': State, cur': nat)
    requires Inv(cfg, st) && Inv(cfg, st') && cur < |cfg.cols| && cur' < |cfg.cols|
  {
    || Room(cfg, st') < Room(cfg, st)
    || (Room(cfg, st') == Room(cfg, st) && Full(cfg, st.have, cur) && !Full(cfg, st'.have, cur'))
  }

  /** After a pass that fails, the batch ends with that failure. */
  lemma RoundFails(cfg: Config, st: State, cur: nat, vacc: nat, goal: Result<State, RedistError>)
    requires Batching(cfg, st, cur, vacc, goal) && vacc > 0 && Take(cfg, st, cur, vacc).Failure?
    ensures goal == Take(cfg, st, cur, vacc)
  {
  }

  /** After a pass that leaves nothing of the batch, the batch ends there. */
  lemma RoundEnds(cfg: Config, st: State, cur: nat, vacc: nat, goal: Result<State, RedistError>)
    requires Batching(cfg, st, cur, vacc, goal) && vacc > 0
    requires GetRemainder(st.have[cur], PopOf(cfg, cur), vacc, cfg.fractional, FractionOf(cfg, cur)).remainder == 0
    ensures goal == Take(cfg, st, cur, vacc)
  {
  }

  /** After a pass that empties the list with doses left, the batch ends
      reading the back of an empty list. */
  lemma RoundEmpties(cfg: Config, st: State, cur: nat, vacc: nat, goal: Result<State, RedistError>)
    requires Batching(cfg, st, cur, vacc, goal) && vacc > 0
    requires GetRemainder(st.have[cur], PopOf(cfg, cur), vacc, cfg.fractional, FractionOf(cfg, cur)).remainder > 0
    requires Take(cfg, st, cur, vacc).Success? && |Take(cfg, st, cur, vacc).value.priorities| == 0
    ensures goal == Failure(PriorityListEmpty)
  {
  }

  /** After any other pass, the loop goes on from the pair at the back of
      the list with what is left of the batch, and it has progressed. */
  lemma RoundContinues(cfg: Config, st: State, cur: nat, vacc: nat, goal: Result<State, RedistError>)
    requires Batching(cfg, st, cur, vacc, goal) && vacc > 0
    requires GetRemainder(st.have[cur], PopOf(cfg, cur), vacc, cfg.fractional, FractionOf(cfg, cur)).remainder > 0
    requires Take(cfg, st, cur, vacc).Success? && |Take(cfg, st, cur, vacc).value.priorities| > 0
    ensures var t := Take(cfg, st, cur, vacc).value;
      var split := GetRemainder(st.have[cur], PopOf(cfg, cur), vacc, cfg.fractional, FractionOf(cfg, cur));
      && Batching(cfg, t, Next(cfg, t), split.remainder, goal)
      && Progress(cfg, st, cur, t, Next(cfg, t))
  {
    TakeRoom(cfg, st, cur, vacc);
  }

  /** The while loop of one column's batch: offer what is left to the
      current pair, then, while doses are left, read the next pair from the
      back of the list. */
  method PlaceBatch(cfg: Config, st0: State, cur0: nat, vacc0: nat) returns (r: Result<State, RedistError>)
    requires Inv(cfg, st0) && cur0 < |cfg.cols|
    ensures r == Place(cfg, st0, cur0, vacc0)
  {
    var st: State, cur: nat, vacc: nat := st0, cur0, vacc0;
    while vacc > 0
      invariant Batching(cfg, st, cur, vacc, Place(cfg, st0, cur0, vacc0))
      decreases Room(cfg, st), if Full(cfg, st.have, cur) then 1 else 0
    {
      var split := GetRemainder(st.have[cur], PopOf(cfg, cur), vacc, cfg.fractional, FractionOf(cfg, cur));
      var taken := Take(cfg, st, cur, vacc);
      if taken.Failure? {
        RoundFails(cfg, st, cur, vacc, Place(cfg, st0, cur0, vacc0));
        return taken;
      }
      if split.remainder == 0 {
        RoundEnds(cfg, st, cur, vacc, Place(cfg, st0, cur0, vacc0));
        return taken;
      }
      if |taken.value.priorities| == 0 {
        RoundEmpties(cfg, st, cur, vacc, Place(cfg, st0, cur0, vacc0));
        return Failure(PriorityListEmpty);
      }
      RoundContinues(cfg, st, cur, vacc, Place(cfg, st0, cur0, vacc0));
      st, cur, vacc := taken.value, Next(cfg, taken.value), split.remainder;
    }
    r := Success(st);
  }

  /** One column of a row, as RowFrom takes it. */
  lemma RowStep(cfg: Config, distrFirst: bool, st: State, row: seq<nat>, k: nat)
    requires Inv(cfg, st) && |row| == |cfg.cols| && k < |cfg.cols|
    ensures var start := Start(cfg, distrFirst, st, k);
      && (start.Failure? ==> RowFrom(cfg, distrFirst, st, row, k) == Failure(start.error))
      && (start.Success? && Place(cfg, st, start.value, row[k]).Failure? ==>
            RowFrom(cfg, distrFirst, st, row, k) == Place(cfg, st, start.value, row[k]))
      && (start.Success? && Place(cfg, st, start.value, row[k]).Success? ==>
            RowFrom(cfg, distrFirst, st, row, k) == RowFrom(cfg, distrFirst, Place(cfg, st, start.value, row[k]).value, row, k + 1))
  {
  }

  /** One row of the frame: a zeroed output row, filled column by column
      in the frame's column order. */
  method ProcessRow(cfg: Config, distrFirst: bool, have: seq<nat>, priorities: seq<Column>, row: seq<nat>)
    returns (r: Result<State, RedistError>)
    requires Inv(cfg, State(have, priorities, Zeros(|cfg.cols|))) && |row| == |cfg.cols|
    ensures r == RowFrom(cfg, distrFirst, State(have, priorities, Zeros(|cfg.cols|)), row, 0)
  {
    var st := State(have, priorities, Zeros(|cfg.cols|));
    var k := 0;
    while k < |cfg.cols|
      invariant k <= |cfg.cols| && Inv(cfg, st)
      invariant RowFrom(cfg, distrFirst, st, row, k) == RowFrom(cfg, distrFirst, State(have, priorities, Zeros(|cfg.cols|)), row, 0)
    {
      RowStep(cfg, distrFirst, st, row, k);
      var start := Start(cfg, distrFirst, st, k);
      if start.Failure? {
        return Failure(start.error);
      }
      var placed := PlaceBatch(cfg, st, start.value, row[k]);
      if placed.Failure? {
        return placed;
      }
      st := placed.value;
      k := k + 1;
    }
    r := Success(st);
  }

  /** Rows done so far, ahead of the outcome of the rest. */
  function Prepend(out: seq<seq<nat>>, r: Result<seq<seq<nat>>, RedistError>): Result<seq<seq<nat>>, RedistError>
  {
    match r
    case Success(rest) => Success(out + rest)
    case Failure(e) => Failure(e)
  }

  /** The counter and the list carry over to the next row's zeroed output row. */
  lemma FreshRow(cfg: Config, st: State)
    requires Inv(cfg, st)
    ensures Inv(cfg, State(st.have, st.priorities, Zeros(|cfg.cols|)))
  {
  }

  lemma PrependNothing(r: Result<seq<seq<nat>>, RedistError>)
    ensures Prepend([], r) == r
  {
    if r.Success? {
      assert [] + r.value == r.value;
    }
  }

  /** One row of the frame, as Rows takes it. */
  /** What is left to do after `i` rows, with `out` the rows already filled. */
  ghost predicate Filling(cfg: Config, distrFirst: bool, goal: Result<seq<seq<nat>>, RedistError>, rows: seq<seq<nat>>,
                          have: seq<nat>, priorities: seq<Column>, out: seq<seq<nat>>, i: nat)
  {
    && i <= |rows|
    && (forall k :: 0 <= k < |rows| ==> |rows[k]| == |cfg.cols|)
    && Inv(cfg, State(have, priorities, Zeros(|cfg.cols|)))
    && goal == Prepend(out, Rows(cfg, distrFirst, have, priorities, rows[i..]))
  }

  /** Filling the first of `rows` either ends the procedure with its error or
      leaves the rest to be filled after it. */
  lemma RowsStep(cfg: Config, distrFirst: bool, have: seq<nat>, priorities: seq<Column>, rows: seq<seq<nat>>,
                 out: seq<seq<nat>>)
    requires Inv(cfg, State(have, priorities, Zeros(|cfg.cols|)))
    requires |rows| > 0 && forall i :: 0 <= i < |rows| ==> |rows[i]| == |cfg.cols|
    ensures var done := RowFrom(cfg, distrFirst, State(have, priorities, Zeros(|cfg.cols|)), rows[0], 0);
      && (done.Failure? ==> Prepend(out, Rows(cfg, distrFirst, have, priorities, rows)) == Failure(done.error))
      && (done.Success? ==>
            Prepend(out, Rows(cfg, distrFirst, have, priorities, rows))
            == Prepend(out + [done.value.row], Rows(cfg, distrFirst, done.value.have, done.value.priorities, rows[1..])))
  {
    var done := RowFrom(cfg, distrFirst, State(have, priorities, Zeros(|cfg.cols|)), rows[0], 0);
    if done.Success? {
      var rest := Rows(cfg, distrFirst, done.value.have, done.value.priorities, rows[1..]);
      if rest.Success? {
        assert out + ([done.value.row] + rest.value) == (out + [done.value.row]) + rest.value;
      }
    }
  }

  /** The same step stated on the loop's own variables. */
  lemma FillingStep(cfg: Config, distrFirst: bool, goal: Result<seq<seq<nat>>, RedistError>, rows: seq<seq<nat>>,
                    have: seq<nat>, priorities: seq<Column>, out: seq<seq<nat>>, i: nat)
    requires Filling(cfg, distrFirst, goal, rows, have, priorities, out, i) && i < |rows|
    ensures var done := RowFrom(cfg, distrFirst, State(have, priorities, Zeros(|cfg.cols|)), rows[i], 0);
      && (done.Failure? ==> goal == Failure(done.error))
      && (done.Success? ==>
            Filling(cfg, distrFirst, goal, rows, done.value.have, done.value.priorities, out + [done.value.row], i + 1))
  {
    var done := RowFrom(cfg, distrFirst, State(have, priorities, Zeros(|cfg.cols|)), rows[i], 0);
    RowsStep(cfg, distrFirst, have, priorities, rows[i..], out);
    assert rows[i..][0] == rows[i] && rows[i..][1..] == rows[i + 1..];
    if done.Success? {
      FreshRow(cfg, done.value);
    }
  }

  /** Before the first row: nothing done, the counter at zero, the list as given. */
  lemma FillingStart(cfg: Config, distrFirst: bool, priority: seq<Column>, rows: seq<seq<nat>>)
    requires Ready(cfg, priority, rows) && |rows| > 0
    ensures Filling(cfg, distrFirst, Redistribute(cfg, distrFirst, priority, rows), rows,
                    Zeros(|cfg.cols|), PriorityList(priority), [], 0)
  {
    var n := |cfg.cols|;
    assert rows[0..] == rows;
    assert Redistribute(cfg, distrFirst, priority, rows) == Rows(cfg, distrFirst, Zeros(n), PriorityList(priority), rows);
    PrependNothing(Rows(cfg, distrFirst, Zeros(n), PriorityList(priority), rows));
  }

  /** After the last row the goal is the rows filled so far. */
  lemma FillingDone(cfg: Config, distrFirst: bool, goal: Result<seq<seq<nat>>, RedistError>, rows: seq<seq<nat>>,
                    have: seq<nat>, priorities: seq<Column>, out: seq<seq<nat>>, i: nat)
    requires Filling(cfg, distrFirst, goal, rows, have, priorities, out, i) && i == |rows|
    ensures goal == Success(out)
  {
    assert rows[i..] == [];
    assert Rows(cfg, distrFirst, have, priorities, rows[i..]) == Success([]);
    assert out + [] == out;
  }

  /** redistribute_doses over a frame given as its rows: the counter starts
      at zero and the list at the given or default order; each row is
      filled in turn. */
  method RedistributeDoses(cfg: Config, distrFirst: bool, priority: seq<Column>, rows: seq<seq<nat>>)
    returns (r: Result<seq<seq<nat>>, RedistError>)
    requires Ready(cfg, priority, rows)
    ensures r == Redistribute(cfg, distrFirst, priority, rows)
  {
    if |rows| == 0 {
      return Failure(EmptyFrame);
    }
    var n := |cfg.cols|;
    var have := Zeros(n);
    var prio := PriorityList(priority);
    var out: seq<seq<nat>> := [];
    var i := 0;
    FillingStart(cfg, distrFirst, priority, rows);
    while i < |rows|
      invariant Filling(cfg, distrFirst, Redistribute(cfg, distrFirst, priority, rows), rows, have, prio, out, i)
    {
      FillingStep(cfg, distrFirst, Redistribute(cfg, distrFirst, priority, rows), rows, have, prio, out, i);
      var done := ProcessRow(cfg, distrFirst, have, prio, rows[i]);
      if done.Failure? {
        return Failure(done.error);
      }
      have, prio, out := done.value.have, done.value.priorities, out + [done.value.row];
      i := i + 1;
    }
    FillingDone(cfg, distrFirst, Redistribute(cfg, distrFirst, priority, rows), rows, have, prio, out, i);
    r := Success(out);
  }
}
