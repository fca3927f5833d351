/** Demand resampling for chosen routes and the extra-truck surcharge
    (`demand_simulator` and `demand_evaluator` in Demand_Simulation.py).
    The random column draw is a caller-supplied chooser. */
module DemandSimulation {
  import opened Common

  /** One row of the route table, by column position. */
  type Row = seq<Cell>

  /** Column position of "Demand" in a route row. */
  const DemandColumn: nat := 1
  /** A route row is (Duration, Demand, First, Second, Third, Fourth Stop):
      the four stop columns are FirstStop .. EndScanned - 1. */
  const FirstStop: nat := 2
  /** The loop scans only FirstScanned .. EndScanned - 1 (`range(3, 6)`). */
  const FirstScanned: nat := 3
  const EndScanned: nat := 6
  /** Cost of wet-leasing one extra truck. */
  const ExtraTruck: real := 2000.0

  /** A row of the historical demand table: the store's name in column 0
      and its recorded demands in columns 1, 2, ...; `history[c - 1]` is
      column `c`. */
  datatype DemandRecord = DemandRecord(store: string, history: seq<real>)

  /** Columns 1..24 are the ones any draw can reach. */
  const HistoryColumns: nat := 24

  predicate TableReady(table: seq<DemandRecord>)
  {
    forall k :: 0 <= k < |table| ==> |table[k].history| >= HistoryColumns
  }

  predicate RowsReady(routes: seq<Row>)
  {
    forall i :: 0 <= i < |routes| ==> |routes[i]| >= EndScanned
  }

  /** Bounds `[lo, hi)` of the day type's demand columns. */
  function ColumnRange(isSaturday: bool): (lohi: (nat, nat))
  {
    if isSaturday then (22, 25) else (1, 21)
  }

  /** The draws: for route `i`, stop column `j` and demand-table row `k`,
      an offset into the day type's column range. */
  type Chooser = (nat, nat, nat) -> nat

  /** `np.random.randint(lo, hi)`, made deterministic by the chooser. */
  function DrawColumn(choose: Chooser, isSaturday: bool, i: nat, j: nat, k: nat): (c: nat)
    ensures isSaturday ==> 22 <= c < 25
    ensures !isSaturday ==> 1 <= c < 21
    ensures 1 <= c <= HistoryColumns
  {
    var (lo, hi) := ColumnRange(isSaturday);
    lo + choose(i, j, k) % (hi - lo)
  }

  /** Demand drawn for `store` from table rows k.. : every row carrying the
      store's name contributes the value in its drawn column. */
  function MatchedDemand(table: seq<DemandRecord>, store: string, choose: Chooser, isSaturday: bool,
                         i: nat, j: nat, k: nat): real
    requires TableReady(table) && k <= |table|
    decreases |table| - k
  {
    if k == |table| then 0.0
    else
      var here := if table[k].store == store
                  then table[k].history[DrawColumn(choose, isSaturday, i, j, k) - 1]
                  else 0.0;
      here + MatchedDemand(table, store, choose, isSaturday, i, j, k + 1)
  }

  /** Demand of one stop cell: NaN and anything that is not a name add 0. */
  function StopDemand(table: seq<DemandRecord>, cell: Cell, choose: Chooser, isSaturday: bool, i: nat, j: nat): real
    requires TableReady(table)
  {
    match cell
    case Name(n) => MatchedDemand(table, n, choose, isSaturday, i, j, 0)
    case _ => 0.0
  }

  /** Sum of the stop demands in positions lo .. hi - 1 of a route row. */
  function StopsDemand(table: seq<DemandRecord>, row: Row, choose: Chooser, isSaturday: bool, i: nat, lo: nat, hi: nat): real
    requires TableReady(table) && lo <= hi <= |row|
    decreases hi - lo
  {
    if lo == hi then 0.0
    else StopDemand(table, row[lo], choose, isSaturday, i, lo) + StopsDemand(table, row, choose, isSaturday, i, lo + 1, hi)
  }

  /** Demand of route `i` as the loop computes it: only the Second, Third
      and Fourth Stop columns are summed. */
  function RouteDemandAsWritten(table: seq<DemandRecord>, row: Row, choose: Chooser, isSaturday: bool, i: nat): (d: real)
    requires TableReady(table) && |row| >= EndScanned
    ensures d == StopDemand(table, row[3], choose, isSaturday, i, 3)
               + StopDemand(table, row[4], choose, isSaturday, i, 4)
               + StopDemand(table, row[5], choose, isSaturday, i, 5)
  {
    StopsDemand(table, row, choose, isSaturday, i, FirstScanned, EndScanned)
  }

  /** Demand of route `i`: the sum over all four stop columns. It is the
      as-written sum plus the First Stop's demand. */
  function RouteDemand(table: seq<DemandRecord>, row: Row, choose: Chooser, isSaturday: bool, i: nat): (d: real)
    requires TableReady(table) && |row| >= EndScanned
    ensures d == StopDemand(table, row[FirstStop], choose, isSaturday, i, FirstStop)
               + RouteDemandAsWritten(table, row, choose, isSaturday, i)
  {
    StopsDemand(table, row, choose, isSaturday, i, FirstStop, EndScanned)
  }

  /** The as-written sum never looks at the First Stop column. */
  lemma FirstStopIgnoredAsWritten(table: seq<DemandRecord>, row: Row, choose: Chooser, isSaturday: bool, i: nat, c: Cell)
    requires TableReady(table) && |row| >= EndScanned
    ensures RouteDemandAsWritten(table, row[FirstStop := c], choose, isSaturday, i)
         == RouteDemandAsWritten(table, row, choose, isSaturday, i)
  {
    var row' := row[FirstStop := c];
    assert row'[3] == row[3] && row'[4] == row[4] && row'[5] == row[5];
  }

  /** A one-stop route whose store is listed with demand 1: the as-written
      sum reports 0, the four-column sum reports 1. */
  lemma LoneFirstStopIsDroppedAsWritten()
    ensures var table := [DemandRecord("A", seq(HistoryColumns, _ => 1.0))];
            var row := [Num(100.0), Num(0.0), Name("A"), Missing, Missing, Missing];
            var choose: Chooser := (i, j, k) => 0;
            && RouteDemandAsWritten(table, row, choose, false, 0) == 0.0
            && RouteDemand(table, row, choose, false, 0) == 1.0
  {
    var table := [DemandRecord("A", seq(HistoryColumns, _ => 1.0))];
    var row := [Num(100.0), Num(0.0), Name("A"), Missing, Missing, Missing];
    var choose: Chooser := (i, j, k) => 0;
    assert TableReady(table);
    assert DrawColumn(choose, false, 0, FirstStop, 0) == 1;
    assert MatchedDemand(table, "A", choose, false, 0, FirstStop, 1) == 0.0;
    assert MatchedDemand(table, "A", choose, false, 0, FirstStop, 0) == 1.0;
  }

  /** With non-negative history, the sum over positions lo .. hi - 1 is at
      least the demand of any named stop among them. */
  lemma {:induction false} StopsDemandCoversEach(table: seq<DemandRecord>, row: Row, choose: Chooser, isSaturday: bool,
                                                 i: nat, lo: nat, hi: nat, p: nat)
    requires TableReady(table) && lo <= p < hi <= |row| && row[p].Name?
    requires forall k', c :: 0 <= k' < |table| && 0 <= c < |table[k'].history| ==> table[k'].history[c] >= 0.0
    ensures StopsDemand(table, row, choose, isSaturday, i, lo, hi)
            >= MatchedDemand(table, row[p].text, choose, isSaturday, i, p, 0)
    decreases hi - lo
  {
    StopsNonNegative(table, row, choose, isSaturday, i, lo + 1, hi);
    if lo < p {
      StopsDemandCoversEach(table, row, choose, isSaturday, i, lo + 1, hi, p);
      StopNonNegative(table, row[lo], choose, isSaturday, i, lo);
    }
  }

  lemma StopNonNegative(table: seq<DemandRecord>, cell: Cell, choose: Chooser, isSaturday: bool, i: nat, j: nat)
    requires TableReady(table)
    requires forall k', c :: 0 <= k' < |table| && 0 <= c < |table[k'].history| ==> table[k'].history[c] >= 0.0
    ensures StopDemand(table, cell, choose, isSaturday, i, j) >= 0.0
  {
    if cell.Name? {
      MatchedDemandNonNegative(table, cell.text, choose, isSaturday, i, j, 0);
    }
  }

  lemma {:induction false} StopsNonNegative(table: seq<DemandRecord>, row: Row, choose: Chooser, isSaturday: bool,
                                            i: nat, lo: nat, hi: nat)
    requires TableReady(table) && lo <= hi <= |row|
    requires forall k', c :: 0 <= k' < |table| && 0 <= c < |table[k'].history| ==> table[k'].history[c] >= 0.0
    ensures StopsDemand(table, row, choose, isSaturday, i, lo, hi) >= 0.0
    decreases hi - lo
  {
    if lo < hi {
      StopNonNegative(table, row[lo], choose, isSaturday, i, lo);
      StopsNonNegative(table, row, choose, isSaturday, i, lo + 1, hi);
    }
  }

  /** No stop of a route is dropped: with non-negative history, a route's
      demand is at least the drawn demand of each of its four stops. */
  lemma EveryStopIsCounted(table: seq<DemandRecord>, row: Row, choose: Chooser, isSaturday: bool, i: nat, p: nat)
    requires TableReady(table) && |row| >= EndScanned
    requires FirstStop <= p < EndScanned && row[p].Name?
    requires forall k', c :: 0 <= k' < |table| && 0 <= c < |table[k'].history| ==> table[k'].history[c] >= 0.0
    ensures RouteDemand(table, row, choose, isSaturday, i) >= MatchedDemand(table, row[p].text, choose, isSaturday, i, p, 0)
  {
    StopsDemandCoversEach(table, row, choose, isSaturday, i, FirstStop, EndScanned, p);
  }

  /** `demand_simulator`: resets each route's demand and refills it from
      the draws over all four stop columns (the loop as written scans only
      three, see `RouteDemandAsWritten`); every other cell is left as it
      was. */
  function DemandSimulator(routes: seq<Row>, table: seq<DemandRecord>, isSaturday: bool, choose: Chooser): (out: seq<Row>)
    requires TableReady(table) && RowsReady(routes)
    ensures |out| == |routes| && RowsReady(out)
    ensures forall i :: 0 <= i < |out| ==> |out[i]| == |routes[i]|
    ensures forall i, j :: 0 <= i < |out| && 0 <= j < |out[i]| && j != DemandColumn ==> out[i][j] == routes[i][j]
    ensures forall i :: 0 <= i < |out| ==>
              out[i][DemandColumn] == Num(RouteDemand(table, routes[i], choose, isSaturday, i))
  {
    seq(|routes|, i requires 0 <= i < |routes| =>
      routes[i][DemandColumn := Num(RouteDemand(table, routes[i], choose, isSaturday, i))])
  }

  /** The demand column is reset before summing, so simulating again with
      the same draws changes nothing: demands do not accumulate. */
  lemma SimulatorIsIdempotent(routes: seq<Row>, table: seq<DemandRecord>, isSaturday: bool, choose: Chooser)
    requires TableReady(table) && RowsReady(routes)
    ensures var once := DemandSimulator(routes, table, isSaturday, choose);
            DemandSimulator(once, table, isSaturday, choose) == once
  {
    var once := DemandSimulator(routes, table, isSaturday, choose);
    var twice := DemandSimulator(once, table, isSaturday, choose);
    forall i | 0 <= i < |routes|
      ensures twice[i] == once[i]
    {
      assert once[i][2] == routes[i][2] && once[i][3] == routes[i][3] && once[i][4] == routes[i][4] && once[i][5] == routes[i][5];
      assert RouteDemand(table, once[i], choose, isSaturday, i) == RouteDemand(table, routes[i], choose, isSaturday, i);
    }
  }

  /** A store name with no row in the demand table adds nothing. */
  lemma {:induction false} UnknownStoreAddsNothing(table: seq<DemandRecord>, store: string, choose: Chooser,
                                                   isSaturday: bool, i: nat, j: nat, k: nat)
    requires TableReady(table) && k <= |table|
    requires forall k' :: 0 <= k' < |table| ==> table[k'].store != store
    ensures MatchedDemand(table, store, choose, isSaturday, i, j, k) == 0.0
    decreases |table| - k
  {
    if k < |table| {
      UnknownStoreAddsNothing(table, store, choose, isSaturday, i, j, k + 1);
    }
  }

  /** A store listed once in the demand table contributes exactly its value
      in the drawn column. */
  lemma {:induction false} ListedStoreAddsDrawnValue(table: seq<DemandRecord>, store: string, choose: Chooser,
                                                     isSaturday: bool, i: nat, j: nat, k: nat, row: nat)
    requires TableReady(table) && k <= row < |table| && table[row].store == store
    requires forall k' :: 0 <= k' < |table| && k' != row ==> table[k'].store != store
    ensures MatchedDemand(table, store, choose, isSaturday, i, j, k)
            == table[row].history[DrawColumn(choose, isSaturday, i, j, row) - 1]
    decreases |table| - k
  {
    if k == row {
      UnknownStoreAddsNothingAfter(table, store, choose, isSaturday, i, j, k + 1, row);
    } else {
      ListedStoreAddsDrawnValue(table, store, choose, isSaturday, i, j, k + 1, row);
    }
  }

  lemma {:induction false} UnknownStoreAddsNothingAfter(table: seq<DemandRecord>, store: string, choose: Chooser,
                                                        isSaturday: bool, i: nat, j: nat, k: nat, row: nat)
    requires TableReady(table) && row < k <= |table|
    requires forall k' :: 0 <= k' < |table| && k' != row ==> table[k'].store != store
    ensures MatchedDemand(table, store, choose, isSaturday, i, j, k) == 0.0
    decreases |table| - k
  {
    if k < |table| {
      UnknownStoreAddsNothingAfter(table, store, choose, isSaturday, i, j, k + 1, row);
    }
  }

  /** With non-negative historical demands, every simulated demand is
      non-negative. */
  lemma {:induction false} MatchedDemandNonNegative(table: seq<DemandRecord>, store: string, choose: Chooser,
                                                    isSaturday: bool, i: nat, j: nat, k: nat)
    requires TableReady(table) && k <= |table|
    requires forall k', c :: 0 <= k' < |table| && 0 <= c < |table[k'].history| ==> table[k'].history[c] >= 0.0
    ensures MatchedDemand(table, store, choose, isSaturday, i, j, k) >= 0.0
    decreases |table| - k
  {
    if k < |table| {
      MatchedDemandNonNegative(table, store, choose, isSaturday, i, j, k + 1);
    }
  }

  /** Whether a route's demand cell exceeds a truck's capacity (NaN does not). */
  predicate OverCapacity(row: Row)
    requires |row| > DemandColumn
  {
    row[DemandColumn].Num? && row[DemandColumn].value > TruckCapacity
  }

  /** Reference count of the routes over capacity. */
  function CountOver(routes: seq<Row>): nat
    requires forall i :: 0 <= i < |routes| ==> |routes[i]| > DemandColumn
  {
    if |routes| == 0 then 0 else (if OverCapacity(routes[0]) then 1 else 0) + CountOver(routes[1..])
  }

  /** `demand_evaluator`: adds 2000 to `minCost` for every route whose
      demand exceeds 26, scanning the routes in order. */
  function DemandEvaluator(routes: seq<Row>, minCost: real): (cost: real)
    requires forall i :: 0 <= i < |routes| ==> |routes[i]| > DemandColumn
    ensures cost == minCost + ExtraTruck * (CountOver(routes) as real)
    ensures cost >= minCost
    ensures cost == minCost <==> forall i :: 0 <= i < |routes| ==> !OverCapacity(routes[i])
  {
    if |routes| == 0 then minCost
    else DemandEvaluator(routes[1..], minCost + (if OverCapacity(routes[0]) then ExtraTruck else 0.0))
  }

  /** A route carrying exactly a truck's capacity incurs no surcharge. */
  lemma FullTruckIsNotSurcharged(row: Row, minCost: real)
    requires |row| > DemandColumn && row[DemandColumn] == Num(TruckCapacity)
    ensures DemandEvaluator([row], minCost) == minCost
  {
  }
}
