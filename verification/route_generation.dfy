/** Nearest-neighbour construction of 2-, 3- and 4-stop candidate routes
    (`two_stop_route_generation`, `three_stop_route_generation` and
    `four_stop_route_generation` in Route_Generation.py).

    Nodes are the indices 0..n-1 of a square duration matrix (row = origin,
    column = destination) and one of them is the depot. */
module RouteGeneration {
  import opened Common

  type Matrix = seq<seq<real>>

  predicate WellFormed(m: Matrix, depot: nat)
  {
    depot < |m| && forall i :: 0 <= i < |m| ==> |m[i]| == |m|
  }

  /** The scan's initial minimum (1.e10 seconds): a duration at or above it
      is never chosen. */
  const Sentinel: real := 10000000000.0

  /** A route: its stops in visiting order and its accumulated duration. */
  datatype Route = Route(duration: real, stops: seq<nat>)

  predicate ValidStops(m: Matrix, stops: seq<nat>)
  {
    forall i :: 0 <= i < |stops| ==> stops[i] < |m|
  }

  function Last(stops: seq<nat>): nat
    requires |stops| > 0
  {
    stops[|stops| - 1]
  }

  /** Whether column `c` may follow `cur`: a strictly positive duration
      below the sentinel, not the depot, not an excluded earlier stop. */
  predicate Eligible(m: Matrix, depot: nat, cur: nat, excluded: seq<nat>, c: nat)
    requires WellFormed(m, depot) && cur < |m| && c < |m|
  {
    0.0 < m[cur][c] < Sentinel && c != depot && c !in excluded
  }

  /** The inner column scan over columns 0..k-1: a column replaces the
      current choice only when it is strictly shorter, so the first of
      several equally short columns is kept. */
  function ScanUpTo(m: Matrix, depot: nat, cur: nat, excluded: seq<nat>, k: nat): (best: Option<nat>)
    requires WellFormed(m, depot) && cur < |m| && k <= |m|
    ensures best.Some? ==> best.value < k && Eligible(m, depot, cur, excluded, best.value)
    ensures best.Some? ==> forall c :: 0 <= c < k && Eligible(m, depot, cur, excluded, c) ==>
              m[cur][best.value] < m[cur][c] || (m[cur][best.value] == m[cur][c] && best.value <= c)
    ensures best.None? <==> forall c :: 0 <= c < k ==> !Eligible(m, depot, cur, excluded, c)
  {
    if k == 0 then None
    else
      var prev := ScanUpTo(m, depot, cur, excluded, k - 1);
      var c := k - 1;
      var bound := if prev.Some? then m[cur][prev.value] else Sentinel;
      if m[cur][c] < bound && m[cur][c] > 0.0 && c != depot && c !in excluded then
        assert Eligible(m, depot, cur, excluded, c);
        Some(c)
      else
        assert !Eligible(m, depot, cur, excluded, c) || (prev.Some? && m[cur][prev.value] <= m[cur][c]);
        prev
  }

  /** Reference definition of the chosen stop: eligible, no longer than any
      other eligible column, and the lowest column among equally short ones. */
  ghost predicate IsNearest(m: Matrix, depot: nat, cur: nat, excluded: seq<nat>, c: nat)
    requires WellFormed(m, depot) && cur < |m|
  {
    && c < |m|
    && Eligible(m, depot, cur, excluded, c)
    && forall c' :: 0 <= c' < |m| && Eligible(m, depot, cur, excluded, c') ==>
         m[cur][c] < m[cur][c'] || (m[cur][c] == m[cur][c'] && c <= c')
  }

  /** The stop after `cur`, excluding the depot and `excluded`. */
  function NextStop(m: Matrix, depot: nat, cur: nat, excluded: seq<nat>): (next: Option<nat>)
    requires WellFormed(m, depot) && cur < |m|
    ensures next.Some? ==> IsNearest(m, depot, cur, excluded, next.value)
    ensures next.None? <==> forall c :: 0 <= c < |m| ==> !Eligible(m, depot, cur, excluded, c)
  {
    ScanUpTo(m, depot, cur, excluded, |m|)
  }

  /** The nearest stop is unique: `NextStop` returns `c` exactly when `c`
      satisfies the reference definition. */
  lemma NextStopIsNearest(m: Matrix, depot: nat, cur: nat, excluded: seq<nat>, c: nat)
    requires WellFormed(m, depot) && cur < |m|
    ensures NextStop(m, depot, cur, excluded) == Some(c) <==> IsNearest(m, depot, cur, excluded, c)
  {
    var next := NextStop(m, depot, cur, excluded);
    if IsNearest(m, depot, cur, excluded, c) {
      assert next.Some?;
      assert IsNearest(m, depot, cur, excluded, next.value);
    }
  }

  /** With a zero self-duration, a stop is never chosen as its own successor. */
  lemma NeverSelfSuccessor(m: Matrix, depot: nat, cur: nat, excluded: seq<nat>)
    requires WellFormed(m, depot) && cur < |m| && m[cur][cur] == 0.0
    ensures NextStop(m, depot, cur, excluded) != Some(cur)
  {
  }

  /** Sum of the legs between consecutive stops. */
  function Legs(m: Matrix, stops: seq<nat>): real
    requires ValidStops(m, stops)
    requires forall i :: 0 <= i < |m| ==> |m[i]| == |m|
  {
    if |stops| <= 1 then 0.0 else m[stops[0]][stops[1]] + Legs(m, stops[1..])
  }

  /** Reference duration of a route: depot to the first stop, every leg
      between stops, and the last stop back to the depot when `closed`. */
  function PathDuration(m: Matrix, depot: nat, stops: seq<nat>, closed: bool): real
    requires WellFormed(m, depot) && ValidStops(m, stops) && |stops| > 0
  {
    m[depot][stops[0]] + Legs(m, stops) + (if closed then m[Last(stops)][depot] else 0.0)
  }

  lemma {:induction false} LegsAppend(m: Matrix, stops: seq<nat>, x: nat)
    requires forall i :: 0 <= i < |m| ==> |m[i]| == |m|
    requires ValidStops(m, stops) && |stops| > 0 && x < |m|
    ensures ValidStops(m, stops + [x])
    ensures Legs(m, stops + [x]) == Legs(m, stops) + m[Last(stops)][x]
  {
    var s := stops + [x];
    if |stops| == 1 {
      assert s == [stops[0], x];
      assert Legs(m, s[1..]) == 0.0;
    } else {
      assert s[1..] == stops[1..] + [x];
      LegsAppend(m, stops[1..], x);
    }
  }

  /** Every stop after the first is the nearest stop from its predecessor,
      excluding the depot and all stops before the predecessor. */
  ghost predicate Greedy(m: Matrix, depot: nat, stops: seq<nat>)
    requires WellFormed(m, depot) && ValidStops(m, stops)
  {
    forall k :: 1 <= k < |stops| ==> IsNearest(m, depot, stops[k - 1], stops[..k - 1], stops[k])
  }

  /** The stops before the current (last) one: these are excluded by name
      when the route is extended. */
  function Earlier(r: Route): seq<nat>
    requires |r.stops| > 0
  {
    r.stops[..|r.stops| - 1]
  }

  predicate ValidRoute(m: Matrix, r: Route)
  {
    |r.stops| > 0 && ValidStops(m, r.stops)
  }

  /** Whether the scan from the route's last stop finds a candidate. */
  predicate CanExtend(m: Matrix, depot: nat, r: Route)
    requires WellFormed(m, depot) && ValidRoute(m, r)
  {
    NextStop(m, depot, Last(r.stops), Earlier(r)).Some?
  }

  /** One extension step: append the nearest eligible stop, add the leg to
      it, and add its return leg to the depot when it is the final stop. */
  function Extend(m: Matrix, depot: nat, r: Route, finalStop: bool): (r': Route)
    requires WellFormed(m, depot) && ValidRoute(m, r) && CanExtend(m, depot, r)
    ensures ValidRoute(m, r') && |r'.stops| == |r.stops| + 1
    ensures r'.stops[..|r.stops|] == r.stops
    ensures IsNearest(m, depot, Last(r.stops), Earlier(r), Last(r'.stops))
    ensures Greedy(m, depot, r.stops) ==> Greedy(m, depot, r'.stops)
    ensures r.duration == PathDuration(m, depot, r.stops, false) ==>
              r'.duration == PathDuration(m, depot, r'.stops, finalStop)
  {
    var cur := Last(r.stops);
    var next := NextStop(m, depot, cur, Earlier(r)).value;
    var stops' := r.stops + [next];
    LegsAppend(m, r.stops, next);
    GreedyAppend(m, depot, r.stops, next);
    var returnLeg := if finalStop then m[next][depot] else 0.0;
    Route(r.duration + m[cur][next] + returnLeg, stops')
  }

  /** Appending the nearest stop from the last one keeps a chain greedy. */
  lemma GreedyAppend(m: Matrix, depot: nat, stops: seq<nat>, next: nat)
    requires WellFormed(m, depot) && ValidStops(m, stops) && |stops| > 0 && next < |m|
    requires IsNearest(m, depot, Last(stops), stops[..|stops| - 1], next)
    ensures ValidStops(m, stops + [next])
    ensures (stops + [next])[..|stops|] == stops
    ensures Greedy(m, depot, stops) ==> Greedy(m, depot, stops + [next])
  {
    var s := stops + [next];
    assert s[..|stops|] == stops;
    if Greedy(m, depot, stops) {
      forall k | 1 <= k < |s|
        ensures IsNearest(m, depot, s[k - 1], s[..k - 1], s[k])
      {
        assert s[..k - 1] == stops[..k - 1];
      }
    }
  }

  /** A one-stop start at `loc`: the leg from the depot to it. */
  function Start(m: Matrix, depot: nat, loc: nat): (r: Route)
    requires WellFormed(m, depot) && loc < |m|
    ensures ValidRoute(m, r) && r.stops == [loc]
    ensures r.duration == PathDuration(m, depot, r.stops, false)
  {
    Route(m[depot][loc], [loc])
  }

  predicate AllExtendable(m: Matrix, depot: nat, rs: seq<Route>)
    requires WellFormed(m, depot)
  {
    forall i :: 0 <= i < |rs| ==> ValidRoute(m, rs[i]) && CanExtend(m, depot, rs[i])
  }

  /** Extends every route once, in input order. */
  function ExtendAll(m: Matrix, depot: nat, rs: seq<Route>, finalStop: bool): (out: seq<Route>)
    requires WellFormed(m, depot) && AllExtendable(m, depot, rs)
    ensures |out| == |rs|
    ensures forall i :: 0 <= i < |rs| ==> out[i] == Extend(m, depot, rs[i], finalStop)
  {
    if |rs| == 0 then [] else [Extend(m, depot, rs[0], finalStop)] + ExtendAll(m, depot, rs[1..], finalStop)
  }

  function Starts(m: Matrix, depot: nat, locs: seq<nat>): (out: seq<Route>)
    requires WellFormed(m, depot) && ValidStops(m, locs)
    ensures |out| == |locs|
    ensures forall i :: 0 <= i < |locs| ==> out[i] == Start(m, depot, locs[i])
  {
    if |locs| == 0 then [] else [Start(m, depot, locs[0])] + Starts(m, depot, locs[1..])
  }

  /** Every location is a node and has an eligible successor. */
  predicate TwoStopReady(m: Matrix, depot: nat, locs: seq<nat>)
  {
    WellFormed(m, depot) && ValidStops(m, locs) && AllExtendable(m, depot, Starts(m, depot, locs))
  }

  /** Properties every generated route of `size` stops has: it starts at
      its location, is a greedy chain, and its duration is its path's
      duration, with the return leg exactly when `finalStop`. */
  ghost predicate Generated(m: Matrix, depot: nat, locs: seq<nat>, rs: seq<Route>, size: nat, finalStop: bool)
    requires WellFormed(m, depot)
  {
    && |rs| == |locs|
    && forall i :: 0 <= i < |rs| ==>
         && ValidRoute(m, rs[i])
         && |rs[i].stops| == size
         && rs[i].stops[0] == locs[i]
         && Greedy(m, depot, rs[i].stops)
         && rs[i].duration == PathDuration(m, depot, rs[i].stops, finalStop)
  }

  /** Extending every route of a generated open family yields the family
      one stop longer. */
  lemma ExtendAllGenerated(m: Matrix, depot: nat, locs: seq<nat>, rs: seq<Route>, size: nat, finalStop: bool)
    requires WellFormed(m, depot) && AllExtendable(m, depot, rs)
    requires Generated(m, depot, locs, rs, size, false) && size > 0
    ensures Generated(m, depot, locs, ExtendAll(m, depot, rs, finalStop), size + 1, finalStop)
  {
    var out := ExtendAll(m, depot, rs, finalStop);
    forall i | 0 <= i < |out|
      ensures out[i].stops[0] == locs[i]
    {
      assert out[i].stops[..size][0] == rs[i].stops[0];
    }
  }

  lemma StartsGenerated(m: Matrix, depot: nat, locs: seq<nat>)
    requires WellFormed(m, depot) && ValidStops(m, locs)
    ensures Generated(m, depot, locs, Starts(m, depot, locs), 1, false)
  {
  }

  /** `two_stop_route_generation`: one route per location, in order. */
  function TwoStopRoutes(m: Matrix, depot: nat, locs: seq<nat>, finalStop: bool): (rs: seq<Route>)
    requires TwoStopReady(m, depot, locs)
    ensures Generated(m, depot, locs, rs, 2, finalStop)
  {
    StartsGenerated(m, depot, locs);
    ExtendAllGenerated(m, depot, locs, Starts(m, depot, locs), 1, finalStop);
    ExtendAll(m, depot, Starts(m, depot, locs), finalStop)
  }

  predicate ThreeStopReady(m: Matrix, depot: nat, locs: seq<nat>)
  {
    TwoStopReady(m, depot, locs) && AllExtendable(m, depot, TwoStopRoutes(m, depot, locs, false))
  }

  /** `three_stop_route_generation`: extends the open two-stop routes. */
  function ThreeStopRoutes(m: Matrix, depot: nat, locs: seq<nat>, finalStop: bool): (rs: seq<Route>)
    requires ThreeStopReady(m, depot, locs)
    ensures Generated(m, depot, locs, rs, 3, finalStop)
  {
    var two := TwoStopRoutes(m, depot, locs, false);
    ExtendAllGenerated(m, depot, locs, two, 2, finalStop);
    ExtendAll(m, depot, two, finalStop)
  }

  predicate FourStopReady(m: Matrix, depot: nat, locs: seq<nat>)
  {
    ThreeStopReady(m, depot, locs) && AllExtendable(m, depot, ThreeStopRoutes(m, depot, locs, false))
  }

  /** `four_stop_route_generation`: extends the open three-stop routes. */
  function FourStopRoutes(m: Matrix, depot: nat, locs: seq<nat>, finalStop: bool): (rs: seq<Route>)
    requires FourStopReady(m, depot, locs)
    ensures Generated(m, depot, locs, rs, 4, finalStop)
  {
    var three := ThreeStopRoutes(m, depot, locs, false);
    ExtendAllGenerated(m, depot, locs, three, 3, finalStop);
    ExtendAll(m, depot, three, finalStop)
  }

  /** The two-stop route is depot -> location -> its nearest stop, and the
      return leg is added exactly when `finalStop`. */
  lemma TwoStopShape(m: Matrix, depot: nat, locs: seq<nat>, finalStop: bool, i: nat)
    requires TwoStopReady(m, depot, locs) && i < |locs|
    ensures var r := TwoStopRoutes(m, depot, locs, finalStop)[i];
            && r.stops == [locs[i], r.stops[1]]
            && IsNearest(m, depot, locs[i], [], r.stops[1])
            && r.duration == m[depot][locs[i]] + m[locs[i]][r.stops[1]]
                             + (if finalStop then m[r.stops[1]][depot] else 0.0)
  {
    var r := TwoStopRoutes(m, depot, locs, finalStop)[i];
    assert r.stops == [r.stops[0], r.stops[1]];
    assert r.stops[..1] == [locs[i]];
    assert Legs(m, r.stops[1..]) == 0.0;
  }

  /** A three-stop route keeps the open two-stop route's stops, picks its
      third stop from the second excluding the depot and the first stop,
      and adds that leg (plus the return leg when final) to the open
      two-stop duration. */
  lemma ThreeStopExtendsTwoStop(m: Matrix, depot: nat, locs: seq<nat>, finalStop: bool, i: nat)
    requires ThreeStopReady(m, depot, locs) && i < |locs|
    ensures var two := TwoStopRoutes(m, depot, locs, false)[i];
            var r := ThreeStopRoutes(m, depot, locs, finalStop)[i];
            && r.stops == two.stops + [r.stops[2]]
            && IsNearest(m, depot, two.stops[1], [two.stops[0]], r.stops[2])
            && r.duration == two.duration + m[two.stops[1]][r.stops[2]]
                             + (if finalStop then m[r.stops[2]][depot] else 0.0)
  {
    var two := TwoStopRoutes(m, depot, locs, false)[i];
    var r := ThreeStopRoutes(m, depot, locs, finalStop)[i];
    assert r == Extend(m, depot, two, finalStop);
    assert r.stops == r.stops[..2] + [r.stops[2]];
    assert Earlier(two) == [two.stops[0]];
  }

  /** A four-stop route keeps the open three-stop route's stops, picks its
      fourth stop from the third excluding the depot and the first two
      stops, and accumulates its duration the same way. */
  lemma FourStopExtendsThreeStop(m: Matrix, depot: nat, locs: seq<nat>, finalStop: bool, i: nat)
    requires FourStopReady(m, depot, locs) && i < |locs|
    ensures var three := ThreeStopRoutes(m, depot, locs, false)[i];
            var r := FourStopRoutes(m, depot, locs, finalStop)[i];
            && r.stops == three.stops + [r.stops[3]]
            && IsNearest(m, depot, three.stops[2], three.stops[..2], r.stops[3])
            && r.duration == three.duration + m[three.stops[2]][r.stops[3]]
                             + (if finalStop then m[r.stops[3]][depot] else 0.0)
  {
    var three := ThreeStopRoutes(m, depot, locs, false)[i];
    var r := FourStopRoutes(m, depot, locs, finalStop)[i];
    assert r == Extend(m, depot, three, finalStop);
    assert r.stops == r.stops[..3] + [r.stops[3]];
  }

  predicate ZeroDiagonal(m: Matrix)
    requires forall i :: 0 <= i < |m| ==> |m[i]| == |m|
  {
    forall i :: 0 <= i < |m| ==> m[i][i] == 0.0
  }

  /** A greedy chain over a matrix with a zero diagonal that starts away
      from the depot never visits the depot or any stop twice. */
  lemma {:induction false} GreedyChainIsSimple(m: Matrix, depot: nat, stops: seq<nat>)
    requires WellFormed(m, depot) && ZeroDiagonal(m) && ValidStops(m, stops)
    requires Greedy(m, depot, stops) && |stops| > 0 && stops[0] != depot
    ensures depot !in stops
    ensures forall i, j :: 0 <= i < j < |stops| ==> stops[i] != stops[j]
  {
    forall k | 0 <= k < |stops|
      ensures stops[k] != depot
    {
      if k > 0 {
        assert IsNearest(m, depot, stops[k - 1], stops[..k - 1], stops[k]);
      }
    }
    forall i, j | 0 <= i < j < |stops|
      ensures stops[i] != stops[j]
    {
      assert IsNearest(m, depot, stops[j - 1], stops[..j - 1], stops[j]);
      if i < j - 1 {
        assert stops[i] in stops[..j - 1];
      }
    }
  }

  /** A route that never visits the depot and visits no stop twice. */
  predicate Simple(depot: nat, stops: seq<nat>)
  {
    depot !in stops && forall i, j :: 0 <= i < j < |stops| ==> stops[i] != stops[j]
  }

  lemma GeneratedAreSimple(m: Matrix, depot: nat, locs: seq<nat>, rs: seq<Route>, size: nat, finalStop: bool)
    requires WellFormed(m, depot) && ZeroDiagonal(m) && depot !in locs
    requires Generated(m, depot, locs, rs, size, finalStop) && size > 0
    ensures forall r :: r in rs ==> Simple(depot, r.stops)
  {
    forall r | r in rs
      ensures Simple(depot, r.stops)
    {
      var k :| 0 <= k < |rs| && rs[k] == r;
      assert r.stops[0] == locs[k];
      GreedyChainIsSimple(m, depot, r.stops);
    }
  }

  /** Over a matrix with a zero diagonal, and locations that are not the
      depot, every generated route has distinct stops and never visits the
      depot in between. */
  lemma GeneratedRoutesAreSimple(m: Matrix, depot: nat, locs: seq<nat>, finalStop: bool)
    requires FourStopReady(m, depot, locs) && ZeroDiagonal(m) && depot !in locs
    ensures forall r :: r in TwoStopRoutes(m, depot, locs, finalStop) ==> Simple(depot, r.stops)
    ensures forall r :: r in ThreeStopRoutes(m, depot, locs, finalStop) ==> Simple(depot, r.stops)
    ensures forall r :: r in FourStopRoutes(m, depot, locs, finalStop) ==> Simple(depot, r.stops)
  {
    GeneratedAreSimple(m, depot, locs, TwoStopRoutes(m, depot, locs, finalStop), 2, finalStop);
    GeneratedAreSimple(m, depot, locs, ThreeStopRoutes(m, depot, locs, finalStop), 3, finalStop);
    GeneratedAreSimple(m, depot, locs, FourStopRoutes(m, depot, locs, finalStop), 4, finalStop);
  }

  /** Depot 0 and stores A = 1, B = 2 with depot->A = 100, A->B = 50,
      B->depot = 80: the closed two-stop route from A is [A, B] lasting 230. */
  lemma TwoStopExample()
    ensures var m := [[0.0, 100.0, 90.0], [70.0, 0.0, 50.0], [80.0, 60.0, 0.0]];
            WellFormed(m, 0) && TwoStopReady(m, 0, [1])
            && TwoStopRoutes(m, 0, [1], true) == [Route(230.0, [1, 2])]
  {
    var m := [[0.0, 100.0, 90.0], [70.0, 0.0, 50.0], [80.0, 60.0, 0.0]];
    assert ScanUpTo(m, 0, 1, [], 1) == None;
    assert ScanUpTo(m, 0, 1, [], 2) == None;
    assert NextStop(m, 0, 1, []) == Some(2);
    var start := Route(100.0, [1]);
    assert Starts(m, 0, [1]) == [start];
    assert Earlier(start) == [];
    assert Extend(m, 0, start, true) == Route(230.0, [1, 2]);
    assert ExtendAll(m, 0, [start], true) == [Extend(m, 0, start, true)];
  }
}
