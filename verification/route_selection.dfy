/** The route-selection integer program of Woolworths_LP.py: the store x
    route incidence matrix (`column_generation`), the route costs, and the
    constraints and objective of `solve_lp`. The solver is not modelled: a
    selection is an input, and the model states when it is feasible, what
    it costs and which routes it reports. */
module RouteSelection {
  import opened Common

  /** One row of the candidate-route table. Stop slots hold a store name or
      are missing (NaN). */
  datatype CandidateRoute = CandidateRoute(duration: real, demand: real, stops: seq<Option<string>>)

  /** The table's stop columns: First, Second, Third and Fourth Stop. */
  const StopColumns: nat := 4
  const FleetSize: nat := 60
  /** Cost per second of driving. */
  const CostPerSecond: real := 0.0625
  /** Four hours in seconds. */
  const LongRouteSeconds: real := 14400.0
  const Penalty: real := 2000.0

  /** Stop column `k` of a route; a slot beyond the listed ones is missing. */
  function Slot(r: CandidateRoute, k: nat): Option<string>
  {
    if k < |r.stops| then r.stops[k] else None
  }

  /** `list.index`: the first position of `n`, or None where Python raises. */
  function IndexOf(names: seq<string>, n: string): (r: Option<nat>)
    ensures r.Some? ==> r.value < |names| && names[r.value] == n
    ensures r.Some? ==> forall j :: 0 <= j < r.value ==> names[j] != n
    ensures r.None? <==> n !in names
  {
    if |names| == 0 then None
    else if names[0] == n then Some(0)
    else match IndexOf(names[1..], n)
      case None => None
      case Some(i) => Some(i + 1)
  }

  /** The row of the store named in stop column `k`, if that slot is not
      missing and the name is listed. */
  function SlotRow(stores: seq<string>, r: CandidateRoute, k: nat): Option<nat>
  {
    match Slot(r, k)
    case None => None
    case Some(n) => IndexOf(stores, n)
  }

  /** Route `r` visits store row `s` through one of its first `k` slots. */
  ghost predicate VisitsWithin(stores: seq<string>, r: CandidateRoute, s: nat, k: nat)
  {
    exists k' :: 0 <= k' < k && SlotRow(stores, r, k') == Some(s)
  }

  ghost predicate Visits(stores: seq<string>, r: CandidateRoute, s: nat)
  {
    VisitsWithin(stores, r, s, StopColumns)
  }

  /** Every non-missing stop among the first `k` slots names a listed store. */
  ghost predicate KnownWithin(stores: seq<string>, routes: seq<CandidateRoute>, k: nat)
  {
    forall i, k' :: 0 <= i < |routes| && 0 <= k' < k && Slot(routes[i], k').Some? ==>
      Slot(routes[i], k').value in stores
  }

  /** `n` is the first unlisted stop in scan order: stop column by stop
      column, and route by route within a column. */
  ghost predicate FirstUnknownAt(stores: seq<string>, routes: seq<CandidateRoute>, k: nat, i: nat, n: string)
    requires i < |routes|
  {
    && Slot(routes[i], k) == Some(n)
    && n !in stores
    && KnownWithin(stores, routes, k)
    && forall i' :: 0 <= i' < i && Slot(routes[i'], k).Some? ==> Slot(routes[i'], k).value in stores
  }

  /** `v` is the 0/1 store x route matrix of the candidate table. */
  ghost predicate IsIncidence(stores: seq<string>, routes: seq<CandidateRoute>, v: seq<seq<int>>)
  {
    && |v| == |stores|
    && (forall s :: 0 <= s < |v| ==> |v[s]| == |routes|)
    && forall s, r :: 0 <= s < |v| && 0 <= r < |routes| ==>
         v[s][r] == if Visits(stores, routes[r], s) then 1 else 0
  }

  lemma VisitsWithinStep(stores: seq<string>, r: CandidateRoute, s: nat, k: nat)
    ensures VisitsWithin(stores, r, s, k + 1) <==>
              VisitsWithin(stores, r, s, k) || SlotRow(stores, r, k) == Some(s)
  {
    if VisitsWithin(stores, r, s, k + 1) && SlotRow(stores, r, k) != Some(s) {
      var k' :| 0 <= k' < k + 1 && SlotRow(stores, r, k') == Some(s);
      assert k' < k;
    }
  }

  /** With distinct store names, route `r` visits row `s` exactly when the
      store's name fills one of its stop columns. */
  lemma VisitsIffNamed(stores: seq<string>, r: CandidateRoute, s: nat)
    requires forall a, b :: 0 <= a < b < |stores| ==> stores[a] != stores[b]
    requires s < |stores|
    ensures Visits(stores, r, s) <==> exists k :: 0 <= k < StopColumns && Slot(r, k) == Some(stores[s])
  {
    if exists k :: 0 <= k < StopColumns && Slot(r, k) == Some(stores[s]) {
      var k :| 0 <= k < StopColumns && Slot(r, k) == Some(stores[s]);
      var row := IndexOf(stores, stores[s]);
      assert row.Some? && stores[row.value] == stores[s];
      assert SlotRow(stores, r, k) == Some(s);
    }
  }

  /** `column_generation`: fills the incidence matrix stop column by stop
      column; a stop name missing from the store list raises, reported as
      the failing name. */
  method ColumnGeneration(routes: seq<CandidateRoute>, stores: seq<string>) returns (res: Result<seq<seq<int>>, string>)
    ensures res.Success? <==> KnownWithin(stores, routes, StopColumns)
    ensures res.Success? ==> IsIncidence(stores, routes, res.value)
    ensures res.Failure? ==> res.error !in stores
    ensures res.Failure? ==> exists i, k :: 0 <= i < |routes| && 0 <= k < StopColumns && Slot(routes[i], k) == Some(res.error)
    ensures res.Failure? ==> exists k, i :: 0 <= k < StopColumns && 0 <= i < |routes| && FirstUnknownAt(stores, routes, k, i, res.error)
  {
    var visits: seq<seq<int>> := seq(|stores|, _ => seq(|routes|, _ => 0));
    var k := 0;
    while k < StopColumns
      invariant 0 <= k <= StopColumns
      invariant |visits| == |stores| && forall s :: 0 <= s < |stores| ==> |visits[s]| == |routes|
      invariant forall s, r :: 0 <= s < |stores| && 0 <= r < |routes| ==>
                  visits[s][r] == if VisitsWithin(stores, routes[r], s, k) then 1 else 0
      invariant KnownWithin(stores, routes, k)
    {
      var i := 0;
      while i < |routes|
        invariant 0 <= i <= |routes|
        invariant |visits| == |stores| && forall s :: 0 <= s < |stores| ==> |visits[s]| == |routes|
        invariant forall s, r :: 0 <= s < |stores| && 0 <= r < |routes| ==>
                    visits[s][r] == if VisitsWithin(stores, routes[r], s, if r < i then k + 1 else k) then 1 else 0
        invariant KnownWithin(stores, routes, k)
        invariant forall i' :: 0 <= i' < i && Slot(routes[i'], k).Some? ==> Slot(routes[i'], k).value in stores
      {
        forall s | 0 <= s < |stores|
          ensures VisitsWithin(stores, routes[i], s, k + 1) <==>
                    VisitsWithin(stores, routes[i], s, k) || SlotRow(stores, routes[i], k) == Some(s)
        {
          VisitsWithinStep(stores, routes[i], s, k);
        }
        match Slot(routes[i], k) {
          case None =>
          case Some(n) =>
            var row := IndexOf(stores, n);
            if row.None? {
              assert FirstUnknownAt(stores, routes, k, i, n);
              return Failure(n);
            }
            visits := visits[row.value := visits[row.value][i := 1]];
        }
        i := i + 1;
      }
      k := k + 1;
    }
    return Success(visits);
  }

  /** Cost of one route: 0.0625 per second, plus 2000 when it lasts more
      than four hours and 2000 when its demand exceeds a truck. */
  function RouteCost(duration: real, demand: real): (c: real)
    ensures CostPerSecond * duration <= c <= CostPerSecond * duration + 2.0 * Penalty
    ensures c == CostPerSecond * duration <==> duration <= LongRouteSeconds && demand <= TruckCapacity
    ensures c == CostPerSecond * duration + 2.0 * Penalty <==> duration > LongRouteSeconds && demand > TruckCapacity
    ensures c >= CostPerSecond * duration + Penalty <==> duration > LongRouteSeconds || demand > TruckCapacity
    ensures duration > LongRouteSeconds && demand <= TruckCapacity ==> c == CostPerSecond * duration + Penalty
    ensures duration <= LongRouteSeconds && demand > TruckCapacity ==> c == CostPerSecond * duration + Penalty
  {
    var base := CostPerSecond * duration;
    var withTime := if duration > LongRouteSeconds then base + Penalty else base;
    if demand > TruckCapacity then withTime + Penalty else withTime
  }

  /** A route of exactly four hours and exactly a truck's demand pays no
      penalty. */
  lemma BoundaryRouteHasNoPenalty(duration: real, demand: real)
    requires duration <= LongRouteSeconds && demand <= TruckCapacity
    ensures RouteCost(duration, demand) == CostPerSecond * duration
  {
  }

  /** The formulation: a cost per route, the incidence matrix, and for
      every store whether it carries an exact-cover constraint. */
  datatype Formulation = Formulation(costs: seq<real>, visits: seq<seq<int>>, constrained: seq<bool>)

  ghost predicate WellShaped(f: Formulation)
  {
    && |f.visits| == |f.constrained|
    && forall s :: 0 <= s < |f.visits| ==> |f.visits[s]| == |f.costs|
  }

  /** A row of the demand-by-day table as it is sorted by its "Store"
      column: the store's name, then its weekday and Saturday demands. */
  predicate DemandRow(row: seq<Cell>)
  {
    |row| >= 3 && row[0].Name? && row[1].Num? && row[2].Num?
  }

  /** Reference: the store's demand on the given day type. */
  function DayDemand(row: seq<Cell>, isSaturday: bool): real
    requires DemandRow(row)
  {
    if isSaturday then row[2].value else row[1].value
  }

  /** The column `solve_lp` reads, `int(isSaturday)`: the name column on
      weekdays and the weekday column on Saturdays. */
  function DayColumnAsWritten(isSaturday: bool): nat
  {
    if isSaturday then 1 else 0
  }

  /** The day type's demand column, past the name column. */
  function DayColumn(isSaturday: bool): nat
  {
    if isSaturday then 2 else 1
  }

  /** Which stores get an exact-cover constraint, reading column
      `int(isSaturday)` as the source does: on weekdays every store with a
      name is constrained, and on Saturdays the weekday demand decides. */
  function CoverRowsAsWritten(demand: seq<seq<Cell>>, n: nat, isSaturday: bool): (rows: seq<bool>)
    requires |demand| >= n
    requires forall s :: 0 <= s < n ==> DayColumnAsWritten(isSaturday) < |demand[s]|
    ensures |rows| == n
    ensures !isSaturday ==> forall s :: 0 <= s < n && DemandRow(demand[s]) ==> rows[s]
    ensures isSaturday ==> forall s :: 0 <= s < n && DemandRow(demand[s]) ==>
              (rows[s] <==> DayDemand(demand[s], false) != 0.0)
  {
    seq(n, s requires 0 <= s < n => NonZero(demand[s][DayColumnAsWritten(isSaturday)]))
  }

  /** Which stores get an exact-cover constraint, reading the day type's
      demand column. */
  function CoverRows(demand: seq<seq<Cell>>, n: nat, isSaturday: bool): (rows: seq<bool>)
    requires |demand| >= n
    requires forall s :: 0 <= s < n ==> DayColumn(isSaturday) < |demand[s]|
    ensures |rows| == n
    ensures forall s :: 0 <= s < n && DemandRow(demand[s]) ==>
              (rows[s] <==> DayDemand(demand[s], isSaturday) != 0.0)
  {
    seq(n, s requires 0 <= s < n => NonZero(demand[s][DayColumn(isSaturday)]))
  }

  /** A store that has a weekday demand of zero still gets a weekday cover
      row when column `int(isSaturday)` is read. It gets none when its
      day's demand column is read. On Saturday the two readings differ for
      a store with demand only on Saturdays. */
  lemma IdleStoreIsCoveredAsWritten()
    ensures var demand := [[Name("A"), Num(0.0), Num(5.0)]];
            && CoverRowsAsWritten(demand, 1, false) == [true]
            && CoverRows(demand, 1, false) == [false]
            && CoverRowsAsWritten(demand, 1, true) == [false]
            && CoverRows(demand, 1, true) == [true]
  {
    var demand := [[Name("A"), Num(0.0), Num(5.0)]];
    assert DemandRow(demand[0]);
    assert CoverRowsAsWritten(demand, 1, false)[0];
    assert !CoverRows(demand, 1, false)[0];
    assert !CoverRowsAsWritten(demand, 1, true)[0];
    assert CoverRows(demand, 1, true)[0];
  }

  function Costs(routes: seq<CandidateRoute>): (cs: seq<real>)
    ensures |cs| == |routes|
    ensures forall i :: 0 <= i < |routes| ==> cs[i] == RouteCost(routes[i].duration, routes[i].demand)
  {
    if |routes| == 0 then [] else [RouteCost(routes[0].duration, routes[0].demand)] + Costs(routes[1..])
  }

  /** The formulation part of `solve_lp`. `demand` is the demand-by-day
      table with its rows aligned to `stores`. */
  method Formulate(routes: seq<CandidateRoute>, stores: seq<string>, demand: seq<seq<Cell>>, isSaturday: bool)
    returns (res: Result<Formulation, string>)
    requires |demand| >= |stores|
    requires forall s :: 0 <= s < |stores| ==> DayColumn(isSaturday) < |demand[s]|
    ensures res.Success? <==> KnownWithin(stores, routes, StopColumns)
    ensures res.Success? ==> WellShaped(res.value) && |res.value.costs| == |routes|
    ensures res.Success? ==> IsIncidence(stores, routes, res.value.visits)
    ensures res.Success? ==> forall i :: 0 <= i < |routes| ==>
              res.value.costs[i] == RouteCost(routes[i].duration, routes[i].demand)
    ensures res.Success? ==> res.value.constrained == CoverRows(demand, |stores|, isSaturday)
    ensures res.Success? ==> forall s :: 0 <= s < |stores| && DemandRow(demand[s]) ==>
              (res.value.constrained[s] <==> DayDemand(demand[s], isSaturday) != 0.0)
  {
    var visits := ColumnGeneration(routes, stores);
    if visits.Failure? {
      return Failure(visits.error);
    }
    return Success(Formulation(Costs(routes), visits.value, CoverRows(demand, |stores|, isSaturday)));
  }

  /** Routes whose variable is 1 among the first `n`, in index order. */
  function ChosenUpTo(x: seq<bool>, n: nat): (c: seq<nat>)
    requires n <= |x|
    ensures forall j :: 0 <= j < |c| ==> c[j] < n
  {
    if n == 0 then [] else ChosenUpTo(x, n - 1) + (if x[n - 1] then [n - 1] else [])
  }

  /** The reported routes are listed once each, in increasing order, and
      are exactly those whose variable is 1. */
  lemma {:induction false} ChosenUpToExact(x: seq<bool>, n: nat)
    requires n <= |x|
    ensures var c := ChosenUpTo(x, n);
            && (forall j, j' :: 0 <= j < j' < |c| ==> c[j] < c[j'])
            && forall i :: 0 <= i < n ==> (i in c <==> x[i])
  {
    if n > 0 {
      ChosenUpToExact(x, n - 1);
      var prev := ChosenUpTo(x, n - 1);
      var c := ChosenUpTo(x, n);
      if x[n - 1] {
        assert c == prev + [n - 1];
      } else {
        assert c == prev;
      }
    }
  }

  /** The reported selection: exactly the routes whose variable is 1. */
  function Chosen(x: seq<bool>): seq<nat>
  {
    ChosenUpTo(x, |x|)
  }

  /** `lpSum(route_chosen)` over the first `n` variables. */
  function FleetUpTo(x: seq<bool>, n: nat): nat
    requires n <= |x|
  {
    if n == 0 then 0 else FleetUpTo(x, n - 1) + (if x[n - 1] then 1 else 0)
  }

  /** `lpSum(costs[i] * route_chosen[i])` over the first `n` variables. */
  function ObjectiveUpTo(costs: seq<real>, x: seq<bool>, n: nat): real
    requires n <= |x| == |costs|
  {
    if n == 0 then 0.0 else ObjectiveUpTo(costs, x, n - 1) + (if x[n - 1] then costs[n - 1] else 0.0)
  }

  /** `lpSum(route_chosen[b] * routeVisits[s][b])` over the first `n` variables. */
  function CoverUpTo(row: seq<int>, x: seq<bool>, n: nat): int
    requires n <= |x| == |row|
  {
    if n == 0 then 0 else CoverUpTo(row, x, n - 1) + (if x[n - 1] then row[n - 1] else 0)
  }

  /** Total cost of a list of routes. */
  function CostOf(costs: seq<real>, routes: seq<nat>): real
    requires forall j :: 0 <= j < |routes| ==> routes[j] < |costs|
  {
    if |routes| == 0 then 0.0 else CostOf(costs, routes[..|routes| - 1]) + costs[routes[|routes| - 1]]
  }

  /** How many routes of a list visit the store whose incidence row is `row`. */
  function Visitors(row: seq<int>, routes: seq<nat>): nat
    requires forall j :: 0 <= j < |routes| ==> routes[j] < |row|
  {
    if |routes| == 0 then 0
    else Visitors(row, routes[..|routes| - 1]) + (if row[routes[|routes| - 1]] == 1 then 1 else 0)
  }

  /** The constraints of `solve_lp` for a 0/1 assignment `x`: every store
      with non-zero demand is covered exactly once, and at most 60 trucks. */
  ghost predicate Feasible(f: Formulation, x: seq<bool>)
    requires WellShaped(f)
  {
    && |x| == |f.costs|
    && FleetUpTo(x, |x|) <= FleetSize
    && forall s :: 0 <= s < |f.visits| && f.constrained[s] ==> CoverUpTo(f.visits[s], x, |x|) == 1
  }

  /** The LP objective for a 0/1 assignment: the total cost of the
      reported routes. */
  function Objective(f: Formulation, x: seq<bool>): (o: real)
    requires |x| == |f.costs|
    ensures o == CostOf(f.costs, Chosen(x))
  {
    ObjectiveIsCostOfChosen(f.costs, x, |x|);
    ObjectiveUpTo(f.costs, x, |x|)
  }

  /** The LP's linear objective is the total cost of the reported routes. */
  lemma {:induction false} ObjectiveIsCostOfChosen(costs: seq<real>, x: seq<bool>, n: nat)
    requires n <= |x| == |costs|
    ensures ObjectiveUpTo(costs, x, n) == CostOf(costs, ChosenUpTo(x, n))
  {
    if n > 0 {
      ObjectiveIsCostOfChosen(costs, x, n - 1);
      var prev := ChosenUpTo(x, n - 1);
      var c := ChosenUpTo(x, n);
      if x[n - 1] {
        assert c == prev + [n - 1];
        assert c[..|c| - 1] == prev;
        assert CostOf(costs, c) == CostOf(costs, prev) + costs[n - 1];
      } else {
        assert c == prev;
      }
    }
  }

  /** The fleet sum is the number of reported routes. */
  lemma {:induction false} FleetIsChosenCount(x: seq<bool>, n: nat)
    requires n <= |x|
    ensures FleetUpTo(x, n) == |ChosenUpTo(x, n)|
  {
    if n > 0 {
      FleetIsChosenCount(x, n - 1);
    }
  }

  /** For a 0/1 incidence row, the covering sum counts the reported routes
      that visit the store. */
  lemma {:induction false} CoverCountsVisitors(row: seq<int>, x: seq<bool>, n: nat)
    requires n <= |x| == |row|
    requires forall r :: 0 <= r < |row| ==> row[r] == 0 || row[r] == 1
    ensures CoverUpTo(row, x, n) == Visitors(row, ChosenUpTo(x, n))
  {
    if n > 0 {
      CoverCountsVisitors(row, x, n - 1);
      var prev := ChosenUpTo(x, n - 1);
      var c := ChosenUpTo(x, n);
      if x[n - 1] {
        assert c == prev + [n - 1];
        assert c[..|c| - 1] == prev;
        assert Visitors(row, c) == Visitors(row, prev) + (if row[n - 1] == 1 then 1 else 0);
      } else {
        assert c == prev;
      }
    }
  }

  /** A selection is feasible exactly when at most 60 routes are reported
      and every store with non-zero demand is visited by exactly one of
      them. */
  lemma FeasibleIffExactCover(f: Formulation, x: seq<bool>)
    requires WellShaped(f) && |x| == |f.costs|
    requires forall s, r :: 0 <= s < |f.visits| && 0 <= r < |f.costs| ==> f.visits[s][r] == 0 || f.visits[s][r] == 1
    ensures Feasible(f, x) <==>
              && |Chosen(x)| <= FleetSize
              && forall s :: 0 <= s < |f.visits| && f.constrained[s] ==> Visitors(f.visits[s], Chosen(x)) == 1
  {
    FleetIsChosenCount(x, |x|);
    forall s | 0 <= s < |f.visits|
      ensures CoverUpTo(f.visits[s], x, |x|) == Visitors(f.visits[s], Chosen(x))
    {
      CoverCountsVisitors(f.visits[s], x, |x|);
    }
  }

  /** `optimalRouteData`: the table rows of the reported routes. */
  function ChosenRoutes(routes: seq<CandidateRoute>, x: seq<bool>): (out: seq<CandidateRoute>)
    requires |x| == |routes|
    ensures |out| == |Chosen(x)|
    ensures forall j :: 0 <= j < |out| ==> out[j] == routes[Chosen(x)[j]] && x[Chosen(x)[j]]
  {
    var c := Chosen(x);
    ChosenUpToExact(x, |x|);
    assert forall j :: 0 <= j < |c| ==> c[j] in c;
    seq(|c|, j requires 0 <= j < |c| => routes[c[j]])
  }
}
