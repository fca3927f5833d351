# Woolworths delivery routing — a Dafny model

This project models the core of a daily vehicle-routing pipeline for a
retail distribution network. Four pure computations run on finite tables:

1. **Sector partition and nearest-neighbour route construction**
   (`Route_Generation.py`). Stores are grouped into south, east and west
   sectors around the distribution centre. Greedy 2-, 3- and 4-stop routes
   are built from a duration matrix. Each next stop is the closest eligible
   node, and on a tie the first column in matrix order wins.
2. **Route-selection formulation** (`Woolworths_LP.py`). This covers the store × route
   incidence matrix, the penalised route cost, the exact-cover and
   fleet-size constraints, the objective, and the reported routes for a given 0/1
   assignment.
3. **Demand resampling and the extra-truck surcharge**
   (`Demand_Simulation.py`). The random column draw becomes a
   caller-supplied chooser.
4. **Travel-time perturbation and piecewise wage pricing**
   (`traveldurationsim.py`). The lognormal draw becomes one factor per
   trial, supplied by the caller.

Durations, costs and demands are `real`, so 0.0625, /3600 and the strict
thresholds are exact. The files are:

- `common.dfy`: `Option`, `Result`, `Sum`.
- `sectors.dfy`: `group_coordinates`.
- `route_generation.dfy`: the three route builders.
- `route_selection.dfy`: `column_generation` and the formulation in `solve_lp`.
- `demand_simulation.dfy`: `demand_simulator` and `demand_evaluator`.
- `travel_simulation.dfy`: the trial loop of `traveldurationsim.py`.

Modelling choices:

- The duration table is a square matrix indexed by node number, with a
  depot index. The source instead looks up row labels and uses the
  hard-coded depot row 55 and the column offset `j-1`.
- The source excludes earlier stops by comparing names. The model compares
  indices instead.
- The scan's initial minimum of 1.e10 is kept as `Sentinel`, so a duration
  at or above it is never chosen.

Behaviour of the source that the model keeps as it is:

- An extension excludes the depot and every stop *before* the current
  one. The current stop itself is excluded only by the `> 0` duration
  guard, because its self-duration is zero.
- `demand_simulator` does not recompute route durations from the new
  demand.
- A stop name with no row in the demand table adds 0. It does not raise an
  error.
- The travel simulation strips a fixed 450 s per route before scaling. It
  does not strip a per-unit unloading time.

## Model

| member | source | states |
|---|---|---|
| Sectors.Select | Route_Generation.py:54-57 | A boolean mask keeps exactly the rows satisfying its strict comparison and keeps them in table order (the result is a subsequence of the input). Each such row appears as often as in the table, so duplicate rows are kept. |
| Sectors.SectorMembers | Route_Generation.py:54-62 | Reference sector list: exactly the stores whose strict-comparison sector is the given one, in input order, each as often as in the input. |
| Sectors.GroupStores | Route_Generation.py:54-57 | A store is south iff Lat < depot Lat. It is east iff Lat > depot Lat and Long > depot Long. It is west iff Lat > depot Lat and Long < depot Long. |
| Sectors.GroupStoresMatchesSectors | Route_Generation.py:54-62 | Masking south and north on the whole table and then east/west on the northern rows gives exactly the reference sector lists, in input order. |
| Sectors.SectorsDisjoint | Route_Generation.py:54-57 | No store is in two sectors. A store on the depot latitude, or north of it on the depot longitude, is in none. |
| Sectors.GroupCoordinates | Route_Generation.py:30-64 | The three returned name lists are the names of the reference south, east and west sector lists around the fixed distribution centre, in input order. |
| Sectors.NameInOneSector | Route_Generation.py:54-62 | With distinct store names, no name is listed in two different sectors. |
| Sectors.GroupCoordinatesDisjoint | Route_Generation.py:54-62 | With distinct store names, the three name lists share no name. |
| RouteGeneration.ScanUpTo | Route_Generation.py:98-107 | The column scan returns an eligible column (positive, below 1e10, not the depot, not excluded) no longer than any other eligible column. Among equally short ones it returns the lowest. It returns None exactly when no column is eligible. |
| RouteGeneration.NextStop | Route_Generation.py:100-107 | The chosen successor satisfies the reference "nearest eligible, lowest column on ties" definition. None means no eligible column exists. |
| RouteGeneration.NextStopIsNearest | Route_Generation.py:100-107 | The scan returns `c` if and only if `c` is the nearest eligible stop, so the choice is unique. |
| RouteGeneration.NeverSelfSuccessor | Route_Generation.py:103 | With a zero self-duration, a stop is never its own successor. |
| RouteGeneration.Start | Route_Generation.py:105 | A route's starting duration is the depot→first-stop leg, which is the open path duration of the one-stop route. |
| RouteGeneration.Extend | Route_Generation.py:160-175 | An extension keeps the earlier stops and appends the nearest stop, excluding the depot and the stops before the current one. It keeps the route a greedy chain. An open path duration becomes the longer path's duration, with the return leg exactly when final. |
| RouteGeneration.ExtendAll | Route_Generation.py:160-179 | The builders' outer loop: one extension per input route, in input order, each the single step that `Extend` describes. |
| RouteGeneration.TwoStopRoutes | Route_Generation.py:97-117 | One route per location, in input order. Each starts at its location, has 2 stops, is a greedy chain, and its duration equals depot→first + first→second, plus second→depot iff finalStop. |
| RouteGeneration.ThreeStopRoutes | Route_Generation.py:142-179 | One route per location, in order. Each starts at its location, has 3 stops and is a greedy chain. Its duration is its path duration, with the return leg iff finalStop. |
| RouteGeneration.FourStopRoutes | Route_Generation.py:204-242 | Same as the three-stop builder, with 4 stops. |
| RouteGeneration.TwoStopShape | Route_Generation.py:100-113 | The two-stop route is [location, nearest stop from it excluding only the depot]. Its duration is depot→location + location→next, plus next→depot exactly when final. |
| RouteGeneration.ThreeStopExtendsTwoStop | Route_Generation.py:142-178 | The three-stop route keeps the open two-stop route's stops. Its third stop is the nearest from the second, excluding the first stop and the depot. Its duration is the open two-stop duration + second→third, plus third→depot iff final. |
| RouteGeneration.FourStopExtendsThreeStop | Route_Generation.py:204-241 | The four-stop route keeps the open three-stop route's stops. Its fourth stop is the nearest from the third, excluding the first two stops and the depot. Its duration is the open three-stop duration plus the new leg, plus the return iff final. |
| RouteGeneration.GreedyChainIsSimple | Route_Generation.py:163-169 | On a zero-diagonal matrix, a greedy chain starting away from the depot never visits the depot and never repeats a stop. |
| RouteGeneration.GeneratedRoutesAreSimple | Route_Generation.py:97-232 | Given a zero diagonal and locations other than the depot, every 2-, 3- and 4-stop route has distinct stops and no depot stop. |
| RouteGeneration.TwoStopExample | Route_Generation.py:110-111 | With depot→A = 100, A→B = 50 and B→depot = 80, the final two-stop route from A is [A, B] with duration 230. |
| RouteSelection.IndexOf | Woolworths_LP.py:61-63 | The looked-up position holds the name and is its first occurrence. None exactly when the name is not listed, where `.index` raises. |
| RouteSelection.VisitsIffNamed | Woolworths_LP.py:58-64 | With distinct store names, a route visits row `s` iff that store's name fills one of its four stop columns. |
| RouteSelection.ColumnGeneration | Woolworths_LP.py:35-90 | The matrix has shape #stores × #routes. An entry is 1 iff the route names that store in a non-missing stop slot, and 0 otherwise. It fails iff some non-missing stop is not in the store list. The error is the first such name in scan order: stop column by stop column, and route by route within a column. |
| RouteSelection.RouteCost | Woolworths_LP.py:128-138 | The cost lies between 0.0625·d and 0.0625·d + 4000. It gets no penalty iff d ≤ 14400 and demand ≤ 26, and both penalties iff both thresholds are strictly exceeded. When exactly one threshold is exceeded, the cost is exactly 0.0625·d + 2000. |
| RouteSelection.BoundaryRouteHasNoPenalty | Woolworths_LP.py:132-138 | A duration of exactly 14400 and a demand of exactly 26 add no penalty. |
| RouteSelection.Formulate | Woolworths_LP.py:120-157 | The formulation exists iff every named stop is a listed store. It holds the incidence matrix and the penalised cost of every route. For a demand row of the form (name, weekday, Saturday), the store has an exact-cover row iff its demand for the day type is non-zero. This uses the corrected column, see Findings. |
| RouteSelection.CoverRowsAsWritten | Woolworths_LP.py:155-157 | Reading column `int(isSaturday)` of a (name, weekday, Saturday) table gives every store a cover row on weekdays. On Saturdays the weekday demand decides. |
| RouteSelection.CoverRows | Woolworths_LP.py:155-157 | Reading the day type's demand column, a store gets a cover row iff its demand for that day type is non-zero. |
| RouteSelection.IdleStoreIsCoveredAsWritten | Woolworths_LP.py:156 | A store with weekday demand 0 and Saturday demand 5 gets a weekday cover row and no Saturday cover row as written. It gets the opposite with the day's demand column. |
| RouteSelection.Objective | Woolworths_LP.py:149-152 | The objective of a 0/1 assignment equals the total cost of the reported routes. |
| RouteSelection.Feasible | Woolworths_LP.py:155-160 | Reference constraint set: at most 60 chosen variables, and a covering sum of exactly 1 for every store with a cover row. `FeasibleIffExactCover` characterises it. |
| RouteSelection.ChosenUpToExact | Woolworths_LP.py:167-170 | The reported routes are in increasing order without repeats, and are exactly those whose variable is 1. |
| RouteSelection.ObjectiveIsCostOfChosen | Woolworths_LP.py:149-152 | The linear objective Σ cost·x equals the total cost of the reported routes. |
| RouteSelection.FleetIsChosenCount | Woolworths_LP.py:160 | The fleet sum Σ x is the number of reported routes. |
| RouteSelection.CoverCountsVisitors | Woolworths_LP.py:155-157 | For a 0/1 incidence row, the covering sum counts the reported routes that visit the store. |
| RouteSelection.FeasibleIffExactCover | Woolworths_LP.py:155-160 | An assignment satisfies the constraints iff at most 60 routes are reported and every store with non-zero demand is visited by exactly one reported route. |
| RouteSelection.ChosenRoutes | Woolworths_LP.py:167-174 | The returned rows are the table rows of the reported routes, in order, and each has variable 1. |
| DemandSimulation.DrawColumn | Demand_Simulation.py:67-85 | The drawn column lies in [22, 25) on Saturday and [1, 21) otherwise. |
| DemandSimulation.MatchedDemand | Demand_Simulation.py:81-86 | Reference definition of a stop's demand: every demand-table row carrying the stop's name adds its value in the drawn column. `UnknownStoreAddsNothing`, `ListedStoreAddsDrawnValue` and `MatchedDemandNonNegative` characterise it. |
| DemandSimulation.RouteDemandAsWritten | Demand_Simulation.py:79-86 | The loop's route demand: the drawn demands of positions 3, 4 and 5 only (Second to Fourth Stop), where a NaN cell adds 0. |
| DemandSimulation.FirstStopIgnoredAsWritten | Demand_Simulation.py:80 | The as-written demand does not change whatever the First Stop cell (position 2) holds. |
| DemandSimulation.LoneFirstStopIsDroppedAsWritten | Demand_Simulation.py:80-86 | A route whose only stop is listed with demand 1 gets demand 0 as written, and 1 from the four-column sum. |
| DemandSimulation.RouteDemand | Demand_Simulation.py:79-86 | The route's demand over all four stop columns: the as-written sum plus the First Stop's drawn demand. |
| DemandSimulation.EveryStopIsCounted | Demand_Simulation.py:79-86 | With non-negative history, a route's demand is at least the drawn demand of each of its four named stops, so no stop is dropped. |
| DemandSimulation.DemandSimulator | Demand_Simulation.py:41-88 | Row count and row lengths are preserved, and every cell except Demand is unchanged. Demand is the route's four-column demand, which corrects the loop's three-column scan (see Findings). |
| DemandSimulation.SimulatorIsIdempotent | Demand_Simulation.py:74-86 | Because the demand is reset, simulating again with the same draws returns the same table. Demands do not accumulate. |
| DemandSimulation.UnknownStoreAddsNothing | Demand_Simulation.py:83-86 | A stop name with no row in the demand table adds 0. |
| DemandSimulation.ListedStoreAddsDrawnValue | Demand_Simulation.py:83-86 | A store listed once adds exactly its value in the drawn column. |
| DemandSimulation.MatchedDemandNonNegative | Demand_Simulation.py:79-86 | With non-negative history, every drawn stop demand is non-negative. |
| DemandSimulation.DemandEvaluator | Demand_Simulation.py:91-119 | The result is minCost + 2000 × (number of routes with demand > 26). It is always ≥ minCost, and equals minCost iff no route is over capacity. |
| DemandSimulation.FullTruckIsNotSurcharged | Demand_Simulation.py:116-117 | A route with demand exactly 26 adds nothing. |
| TravelSimulation.Perturb | traveldurationsim.py:22-41 | Factor 1 leaves the duration unchanged. The change is (d − 450)·(f − 1). For d ≥ 450, f ≥ 1 never shortens and 0 ≤ f ≤ 1 never lengthens, nor goes below the 450 s allowance. |
| TravelSimulation.PerturbMonotoneInFactor | traveldurationsim.py:35-41 | For a route at least as long as the allowance, a larger factor gives a perturbed duration at least as long. |
| TravelSimulation.Hours | traveldurationsim.py:44-45 | Hours × 3600 gives back the seconds. |
| TravelSimulation.Wage | traveldurationsim.py:48-60 | The wage equals 225·h + 275·max(0, h − 4), is at least 225·h, and is exactly 900 at h = 4. |
| TravelSimulation.WageMonotone | traveldurationsim.py:48-53 | The wage is non-decreasing in hours. |
| TravelSimulation.WageLipschitz | traveldurationsim.py:48-53 | The wage changes by at most 500 per hour of change, so it is continuous across the four-hour threshold. |
| TravelSimulation.TrialCost | traveldurationsim.py:48-64 | A trial's cost is non-negative when every route lasts at least the 450 s allowance and the factor is non-negative. |
| TravelSimulation.UnitFactorIsBaseCost | traveldurationsim.py:22-64 | A trial with factor 1 costs exactly the wage function applied to the unperturbed durations. |
| TravelSimulation.TrialCostMonotoneInFactor | traveldurationsim.py:35-64 | When every route lasts at least the 450 s allowance, a larger factor never makes a trial cheaper. |
| TravelSimulation.PriceTrial | traveldurationsim.py:48-64 | The route-by-route pricing loop returns the trial's total wage at its factor. |
| TravelSimulation.RunTrials | traveldurationsim.py:29-64 | One cost per factor. Trial j applies factor j to all weekday and all Saturday routes, under the same wage rule. |
| TravelSimulation.MinMeanMax | traveldurationsim.py:66-67 | Over the trials, min ≤ mean ≤ max. |
| TravelSimulation.ConstantFactorHasNoSpread | traveldurationsim.py:29-67 | With every trial's factor equal, max − min of the trial costs is 0. |
| TravelSimulation.FourHourRoutesCostRegularRate | traveldurationsim.py:48-53 | Routes of exactly four hours at factor 1 cost 900 each, with no overtime. |

## Left out

- File I/O (`load_data`, `read_csv`, `to_csv`), printing, `set_printoptions` and the `__main__` drivers. These are I/O and reporting.
- The MIP solve (`LpProblem`, `writeLP`, `solve`, `LpStatus`). This is an external solver. The model states feasibility and the objective for a given assignment, not optimality.
- Random number generation (`np.random.seed`, `randint`, `lognormal`). Draws are parameters: a chooser for demand columns and one factor per trial.
- `travelsimulationvisual.py`: plotting only.
- Route_Generation.py has no single-stop or exhaustive-pair builder, no capacity filter and no demand-driven duration adjustment, so the model has none.
- RouteGeneration.TwoStopRoutes: requires that every step finds an eligible candidate. So do RouteGeneration.ThreeStopRoutes and RouteGeneration.FourStopRoutes, through `ThreeStopReady` and `FourStopReady`. When no candidate exists for a second, third or fourth stop, the source keeps the 1e10 minimum, an empty stop name and a stale or undefined `distanceFrom` (Route_Generation.py:98-113, 161-175, 224-238). That outcome is not reproduced.
- RouteGeneration.NextStop: identifies nodes by index. The source scans rows by label and excludes stops by name, so duplicate labels are not modelled.
- RouteSelection.ChosenRoutes: lists routes in increasing index order. The solver library reports variables sorted by name (`route_10` before `route_2`), and that order is not modelled.
- RouteSelection.Formulate: takes the demand table with its rows already aligned to the store list. The source gets that alignment by dropping row 55 and sorting, which is not modelled. The day-type statements assume the table's columns are (name, weekday demand, Saturday demand), as the sort by "Store" suggests. The CSV itself is not part of this model. It reads column 1 + int(isSaturday), not the source's int(isSaturday). See Findings; `CoverRowsAsWritten` models the source's reading.
- DemandSimulation.DemandSimulator: treats a route row as cells by position, in the documented layout (Duration, Demand, First, Second, Third, Fourth Stop) of Woolworths_LP.py:19-22. The source resets the column *named* "Demand" (Demand_Simulation.py:74) but adds at *position* 1 (line 86). The two coincide only when "Demand" is column 1, and the model assumes they do. The simulator sums all four stop columns, where the source's `range(3, 6)` sums only Second to Fourth Stop. See Findings; `RouteDemandAsWritten` models the source's sum.
- Floating-point rounding. All arithmetic is exact over `real`.

## Findings

| source | as written | input that shows it | evidently intended | confidence | as-written member | corrected member |
|---|---|---|---|---|---|---|
| Woolworths_LP.py:156 | `demand.iloc[i, int(isSaturday)] != 0` reads column 0 on weekdays and column 1 on Saturdays. The demand table has a "Store" column (line 116 sorts by it); when that is column 0, as in the project's other tables, the weekday test reads the name. | A row (name, 0, 5): on a weekday the name compares unequal to 0, so the store gets a cover row despite zero weekday demand. On Saturday its weekday demand 0 is read, so it gets none despite Saturday demand 5. | Read column 1 + `int(isSaturday)`: a store is constrained iff its demand for the day type is non-zero | medium, not executed; depends on the CSV having the store name in column 0 | RouteSelection.IdleStoreIsCoveredAsWritten | RouteSelection.CoverRows |
| Demand_Simulation.py:80 | `for j in range(3, 6)` scans positions 3, 4 and 5 of a route row whose stop columns are positions 2 to 5 (Duration, Demand, First to Fourth Stop, Woolworths_LP.py:19-22). | A route whose only stop is at position 2 (First Stop), with that store listed with demand 1: the simulated demand is 0 instead of 1. | Scan all four stop columns, `range(2, 6)`, so that every stop's drawn demand counts | high, not executed; follows from the documented column order | DemandSimulation.LoneFirstStopIsDroppedAsWritten | DemandSimulation.EveryStopIsCounted |
