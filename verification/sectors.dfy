/** Geographic grouping of stores around the distribution centre
    (`group_coordinates` in Route_Generation.py). */
module Sectors {

  /** One row of the store-locations table. */
  datatype Store = Store(name: string, lat: real, long: real)

  /** The distribution centre's coordinates, fixed in the source. */
  const DepotLat: real := -36.94904179
  const DepotLong: real := 174.8080123

  /** A boolean mask over the coordinates table: one strict comparison. */
  datatype Mask =
    | LatBelow(bound: real)
    | LatAbove(bound: real)
    | LongAbove(bound: real)
    | LongBelow(bound: real)

  predicate Holds(mask: Mask, st: Store)
  {
    match mask
    case LatBelow(b) => st.lat < b
    case LatAbove(b) => st.lat > b
    case LongAbove(b) => st.long > b
    case LongBelow(b) => st.long < b
  }

  /** `a` is obtained from `b` by deleting elements: `a` keeps `b`'s order. */
  predicate SubsequenceOf<T(==)>(a: seq<T>, b: seq<T>)
    decreases |b|
  {
    if |a| == 0 then true
    else if |b| == 0 then false
    else if a[0] == b[0] then SubsequenceOf(a[1..], b[1..])
    else SubsequenceOf(a, b[1..])
  }

  /** Rows satisfying a mask, in table order (`table.loc[mask]`). */
  function Select(stores: seq<Store>, mask: Mask): (r: seq<Store>)
    ensures forall st :: st in r <==> st in stores && Holds(mask, st)
    ensures SubsequenceOf(r, stores)
    ensures forall st :: multiset(r)[st] == if Holds(mask, st) then multiset(stores)[st] else 0
  {
    if |stores| == 0 then []
    else
      assert stores == [stores[0]] + stores[1..];
      if Holds(mask, stores[0]) then [stores[0]] + Select(stores[1..], mask)
    else Select(stores[1..], mask)
  }

  /** The three sectors; a store can fall in none of them. */
  datatype Sector = South | East | West | Unassigned

  /** Reference classification: strict comparisons against the depot, so a
      store on the depot's latitude, or north of it on the depot's
      longitude, belongs to no sector. */
  function SectorOf(st: Store, depotLat: real, depotLong: real): Sector
  {
    if st.lat < depotLat then South
    else if st.lat > depotLat && st.long > depotLong then East
    else if st.lat > depotLat && st.long < depotLong then West
    else Unassigned
  }

  /** Reference definition of a sector's list: its stores in input order. */
  function SectorMembers(stores: seq<Store>, s: Sector, depotLat: real, depotLong: real): (r: seq<Store>)
    ensures forall st :: st in r <==> st in stores && SectorOf(st, depotLat, depotLong) == s
    ensures SubsequenceOf(r, stores)
    ensures forall st :: multiset(r)[st] == if SectorOf(st, depotLat, depotLong) == s then multiset(stores)[st] else 0
  {
    if |stores| == 0 then []
    else
      assert stores == [stores[0]] + stores[1..];
      if SectorOf(stores[0], depotLat, depotLong) == s
    then [stores[0]] + SectorMembers(stores[1..], s, depotLat, depotLong)
    else SectorMembers(stores[1..], s, depotLat, depotLong)
  }

  datatype Groups = Groups(south: seq<Store>, east: seq<Store>, west: seq<Store>)

  /** The source's construction: south and north masks on the whole table,
      then east and west masks on the northern rows. */
  function GroupStores(stores: seq<Store>, depotLat: real, depotLong: real): (g: Groups)
    ensures forall st :: st in g.south <==> st in stores && st.lat < depotLat
    ensures forall st :: st in g.east <==> st in stores && st.lat > depotLat && st.long > depotLong
    ensures forall st :: st in g.west <==> st in stores && st.lat > depotLat && st.long < depotLong
  {
    var north := Select(stores, LatAbove(depotLat));
    Groups(Select(stores, LatBelow(depotLat)),
           Select(north, LongAbove(depotLong)),
           Select(north, LongBelow(depotLong)))
  }

  /** The masked construction yields exactly the reference sector lists, so
      each list is its sector's stores in input order. */
  lemma {:induction false} GroupStoresMatchesSectors(stores: seq<Store>, depotLat: real, depotLong: real)
    ensures GroupStores(stores, depotLat, depotLong)
         == Groups(SectorMembers(stores, South, depotLat, depotLong),
                   SectorMembers(stores, East, depotLat, depotLong),
                   SectorMembers(stores, West, depotLat, depotLong))
  {
    if |stores| > 0 {
      GroupStoresMatchesSectors(stores[1..], depotLat, depotLong);
      var st := stores[0];
      var north := Select(stores, LatAbove(depotLat));
      var northTail := Select(stores[1..], LatAbove(depotLat));
      if st.lat > depotLat {
        assert north == [st] + northTail;
        assert north[1..] == northTail;
      } else {
        assert north == northTail;
      }
    }
  }

  /** No store is in two sectors, and boundary stores are in none. */
  lemma SectorsDisjoint(stores: seq<Store>, depotLat: real, depotLong: real, st: Store)
    ensures var g := GroupStores(stores, depotLat, depotLong);
            !(st in g.south && st in g.east) && !(st in g.south && st in g.west) && !(st in g.east && st in g.west)
    ensures var g := GroupStores(stores, depotLat, depotLong);
            (st.lat == depotLat || (st.lat > depotLat && st.long == depotLong))
            ==> st !in g.south && st !in g.east && st !in g.west
  {
  }

  function Names(stores: seq<Store>): (r: seq<string>)
    ensures |r| == |stores|
    ensures forall i :: 0 <= i < |r| ==> r[i] == stores[i].name
  {
    if |stores| == 0 then [] else [stores[0].name] + Names(stores[1..])
  }

  /** `group_coordinates`: the store names of the south, east and west
      sectors around the fixed distribution centre. */
  function GroupCoordinates(stores: seq<Store>): (r: (seq<string>, seq<string>, seq<string>))
    ensures r.0 == Names(SectorMembers(stores, South, DepotLat, DepotLong))
    ensures r.1 == Names(SectorMembers(stores, East, DepotLat, DepotLong))
    ensures r.2 == Names(SectorMembers(stores, West, DepotLat, DepotLong))
  {
    GroupStoresMatchesSectors(stores, DepotLat, DepotLong);
    var g := GroupStores(stores, DepotLat, DepotLong);
    (Names(g.south), Names(g.east), Names(g.west))
  }

  /** With distinct store names the three name lists share no name. */
  lemma GroupCoordinatesDisjoint(stores: seq<Store>)
    requires forall i, j :: 0 <= i < j < |stores| ==> stores[i].name != stores[j].name
    ensures var r := GroupCoordinates(stores);
            (forall n :: n in r.0 ==> n !in r.1 && n !in r.2) && (forall n :: n in r.1 ==> n !in r.2)
  {
    var r := GroupCoordinates(stores);
    assert r.0 == SectorNames(stores, South) && r.1 == SectorNames(stores, East) && r.2 == SectorNames(stores, West);
    forall n | n in r.0
      ensures n !in r.1 && n !in r.2
    {
      NameInOneSector(stores, South, East, n);
      NameInOneSector(stores, South, West, n);
    }
    forall n | n in r.1
      ensures n !in r.2
    {
      NameInOneSector(stores, East, West, n);
    }
  }

  function SectorNames(stores: seq<Store>, s: Sector): seq<string>
  {
    Names(SectorMembers(stores, s, DepotLat, DepotLong))
  }

  /** A name in a sector's list is the name of some store of that sector. */
  lemma StoreOfName(stores: seq<Store>, s: Sector, n: string) returns (i: nat)
    requires n in SectorNames(stores, s)
    ensures i < |stores| && stores[i].name == n && SectorOf(stores[i], DepotLat, DepotLong) == s
  {
    var members := SectorMembers(stores, s, DepotLat, DepotLong);
    var k :| 0 <= k < |members| && Names(members)[k] == n;
    assert members[k] in members;
    i :| 0 <= i < |stores| && stores[i] == members[k];
  }

  /** With distinct names, no name is listed in two different sectors. */
  lemma NameInOneSector(stores: seq<Store>, s1: Sector, s2: Sector, n: string)
    requires forall i, j :: 0 <= i < j < |stores| ==> stores[i].name != stores[j].name
    requires s1 != s2
    ensures !(n in SectorNames(stores, s1) && n in SectorNames(stores, s2))
  {
    if n in SectorNames(stores, s1) && n in SectorNames(stores, s2) {
      var i := StoreOfName(stores, s1, n);
      var j := StoreOfName(stores, s2, n);
      assert false;
    }
  }
}
