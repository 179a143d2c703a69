/**
 From the accepted split to one route per vehicle: the city registry (TSP/TspCity.cpp:20-82,
 146-153), the windows of stops handed to the search (TSP/TspView.cpp:841-895, 911-981) and the
 rotation that starts every vehicle at the depot (TSP/TspView.cpp:1009-1033).
 */
module Routing {
  import opened Dispatch
  import Tour

  /** A city as the search sees it: its number in the registry and its number in the whole problem (0: none). */
  datatype City = City(id: int, originId: int)

  /** The rows and columns of the distance table that `GetDistance` reads. */
  function Row(a: City): int {
    if a.originId > 0 then a.originId - 1 else a.id - 1
  }

  function Column(a: City, b: City): int {
    if a.originId > 0 then b.originId - 1 else b.id - 1
  }

  predicate InTable(table: seq<seq<real>>, a: City, b: City) {
    0 <= Row(a) < |table| && 0 <= Column(a, b) < |table[Row(a)]|
  }

  function GetDistance(table: seq<seq<real>>, a: City, b: City): real
    requires InTable(table, a, b)
  {
    table[Row(a)][Column(a, b)]
  }

  // ---------------------------------------------------------------- sub-problems

  /** The original numbers of the cities loaded for the window [start, stop]: the depot, then the window. */
  function Loaded(route: seq<int>, start: int, stop: int): (origins: seq<int>)
    requires route != []
    ensures 0 < start <= stop + 1 <= |route| ==> |origins| == stop - start + 2
    ensures origins != [] && origins[0] == route[0]
  {
    [route[0]] + (if 0 < start <= stop < |route| then route[start..stop + 1] else [])
  }

  /** The registry after loading: ids 1, 2, ... in loading order. */
  predicate IsLoaded(c: City, origins: seq<int>) {
    1 <= c.id <= |origins| && c.originId == origins[c.id - 1]
  }

  ghost predicate Registered(cities: map<int, City>, origins: seq<int>) {
    && (forall id :: id in cities <==> 1 <= id <= |origins|)
    && (forall id :: id in cities ==> cities[id].id == id && IsLoaded(cities[id], origins))
  }

  /** The tour visits each loaded city exactly once, and nothing else. */
  ghost predicate RouteOf(tour: seq<City>, origins: seq<int>) {
    forall c :: multiset(tour)[c] == if IsLoaded(c, origins) then 1 else 0
  }

  /** First stop of vehicle `j`'s window: the depot is left out of the first one. */
  function WindowStart(flg: seq<int>, j: nat): int
    requires j < |flg|
  {
    if j == 0 then 1 else flg[j - 1] + 1
  }

  /** One tour per vehicle, over the depot and its window. */
  ghost predicate Plan(results: seq<seq<City>>, route: seq<int>, flg: seq<int>, vehicles: nat)
    requires route != [] && vehicles <= |flg|
  {
    && |results| == vehicles
    && forall j :: 0 <= j < vehicles ==> RouteOf(results[j], Loaded(route, WindowStart(flg, j), flg[j]))
  }

  /** What the search makes of some listing of the cities loaded for the window. */
  ghost predicate Searched(found: seq<City>, origins: seq<int>, search: seq<City> -> seq<City>) {
    exists listing :: RouteOf(listing, origins) && found == search(listing)
  }

  /** Every vehicle has the tour the search found for its window. */
  ghost predicate AllSearched(results: seq<seq<City>>, route: seq<int>, flg: seq<int>, search: seq<City> -> seq<City>)
    requires route != [] && |results| <= |flg|
  {
    forall j :: 0 <= j < |results| ==> Searched(results[j], Loaded(route, WindowStart(flg, j), flg[j]), search)
  }

  lemma HasMember(s: set<int>)
    ensures s != {} ==> exists x :: x in s
  {
    if forall x :: x !in s {
      assert s == {};
    }
  }

  lemma PlanGrows(results: seq<seq<City>>, found: seq<City>, route: seq<int>, flg: seq<int>, j: nat)
    requires route != [] && j < |flg| && Plan(results, route, flg, j)
    requires RouteOf(found, Loaded(route, WindowStart(flg, j), flg[j]))
    ensures Plan(results + [found], route, flg, j + 1)
  {
  }

  lemma WindowIsInRange(flg: seq<int>, vehicles: nat, n: nat, j: nat)
    requires vehicles <= |flg| && CutsStops(flg, vehicles, n) && j < vehicles
    ensures 0 < WindowStart(flg, j) <= flg[j] + 1 <= n
  {
    assert 0 <= From(flg, j) <= flg[j] < n;
    assert j > 0 ==> 0 <= From(flg, j - 1) <= flg[j - 1];
  }

  class Cities {
    var cities: map<int, City>
    var nextId: int

    constructor ()
      ensures cities == map[] && nextId == 0
    {
      cities, nextId := map[], 0;
    }

    method Clear()
      modifies `cities
      ensures cities == map[]
    {
      cities := map[];
    }

    method ResetNextId()
      modifies `nextId
      ensures nextId == 0
    {
      nextId := 0;
    }

    /** A new city takes the next id; inserting never replaces an entry. */
    method AddCityExt(originId: int)
      modifies this
      ensures nextId == old(nextId) + 1
      ensures cities == if nextId in old(cities) then old(cities) else old(cities)[nextId := City(nextId, originId)]
    {
      nextId := nextId + 1;
      if nextId !in cities {
        cities := cities[nextId := City(nextId, originId)];
      }
    }

    /** Lists the registry, each city once, in whatever order the hash map gives. */
    method GetCities() returns (output: seq<City>)
      requires forall id :: id in cities ==> cities[id].id == id
      ensures forall c :: multiset(output)[c] == if c.id in cities && cities[c.id] == c then 1 else 0
    {
      output := [];
      var left := cities.Keys;
      while left != {}
        invariant left <= cities.Keys
        invariant forall c :: multiset(output)[c] == if c.id in cities && c.id !in left && cities[c.id] == c then 1 else 0
        decreases left
      {
        HasMember(left);
        var id :| id in left;
        output := output + [cities[id]];
        left := left - {id};
      }
    }

    /** Loads the depot and the stops of one window into an emptied registry (TSP/TspView.cpp:911-981). */
    method RouteBestSearch(route: seq<int>, start: int, stop: int)
      requires route != [] && 0 < start && stop < |route|
      modifies this
      ensures Registered(cities, Loaded(route, start, stop))
    {
      Clear();
      ResetNextId();
      AddCityExt(route[0]);
      var i := start;
      while i <= stop
        invariant start <= i && (i <= stop + 1 || i == start)
        invariant nextId == i - start + 1
        invariant Registered(cities, Loaded(route, start, i - 1))
      {
        AddCityExt(route[i]);
        i := i + 1;
      }
    }

    /** One vehicle: load its window, search, and keep the best tour (TSP/TspView.cpp:855-889). */
    method SearchWindow(route: seq<int>, start: int, stop: int, search: seq<City> -> seq<City>) returns (found: seq<City>)
      requires route != [] && 0 < start && stop < |route|
      requires forall v: seq<City> :: multiset(search(v)) == multiset(v)
      modifies this
      ensures RouteOf(found, Loaded(route, start, stop)) && Searched(found, Loaded(route, start, stop), search)
    {
      RouteBestSearch(route, start, stop);
      var listing := GetCities();
      ListingIsRoute(cities, listing, listing, Loaded(route, start, stop));
      found := search(listing);
      ListingIsRoute(cities, listing, found, Loaded(route, start, stop));
    }

    /**
     Searches every vehicle's window in turn (TSP/TspView.cpp:841-897). The search is any function
     that returns some order of the cities it is given.
     */
    method OnResearchDeliveryData(route: seq<int>, vehicles: nat, flg: seq<int>, search: seq<City> -> seq<City>) returns (results: seq<seq<City>>)
      requires route != [] && vehicles <= |flg| && CutsStops(flg, vehicles, |route|)
      requires forall v: seq<City> :: multiset(search(v)) == multiset(v)
      modifies this
      ensures Plan(results, route, flg, vehicles) && AllSearched(results, route, flg, search)
    {
      var searchIndexStart := 1;
      results := [];
      for j := 0 to vehicles
        invariant searchIndexStart == if j == 0 then 1 else flg[j - 1] + 1
        invariant Plan(results, route, flg, j) && AllSearched(results, route, flg, search)
      {
        WindowIsInRange(flg, vehicles, |route|, j);
        var found := SearchWindow(route, searchIndexStart, flg[j], search);
        PlanGrows(results, found, route, flg, j);
        results := results + [found];
        searchIndexStart := flg[j] + 1;
      }
    }
  }

  lemma ListingIsRoute(cities: map<int, City>, listing: seq<City>, found: seq<City>, origins: seq<int>)
    requires Registered(cities, origins) && multiset(found) == multiset(listing)
    requires forall c :: multiset(listing)[c] == if c.id in cities && cities[c.id] == c then 1 else 0
    ensures RouteOf(found, origins)
  {
  }

  // ---------------------------------------------------------------- the whole plan

  /** The vehicle whose window holds stop `p`. */
  ghost function VehicleOf(flg: seq<int>, vehicles: nat, n: nat, p: nat): (j: nat)
    requires vehicles <= |flg| && CutsStops(flg, vehicles, n) && 0 < p < n
    ensures j < vehicles && WindowStart(flg, j) <= p <= flg[j]
  {
    FindVehicle(flg, vehicles, n, p, vehicles - 1)
  }

  ghost function FindVehicle(flg: seq<int>, vehicles: nat, n: nat, p: nat, k: nat): (j: nat)
    requires k < vehicles <= |flg| && CutsStops(flg, vehicles, n) && 0 < p <= flg[k]
    ensures j < vehicles && WindowStart(flg, j) <= p <= flg[j]
  {
    if WindowStart(flg, k) <= p then k else FindVehicle(flg, vehicles, n, p, k - 1)
  }

  /** The windows are disjoint and together hold every stop behind the depot. */
  lemma WindowsPartition(flg: seq<int>, vehicles: nat, n: nat, p: nat, j: nat)
    requires vehicles <= |flg| && CutsStops(flg, vehicles, n) && 0 < p < n && j < vehicles
    ensures WindowStart(flg, j) <= p <= flg[j] <==> j == VehicleOf(flg, vehicles, n, p)
  {
    var k := VehicleOf(flg, vehicles, n, p);
    if j < k {
      assert flg[j] <= flg[k - 1];
    } else if k < j {
      assert flg[k] <= flg[j - 1];
    }
  }

  predicate Serves(tour: seq<City>, origin: int) {
    exists i :: 0 <= i < |tour| && tour[i].originId == origin
  }

  lemma ServesItsWindow(tour: seq<City>, route: seq<int>, start: int, stop: int, p: nat)
    requires route != [] && 0 < start <= stop + 1 <= |route| && RouteOf(tour, Loaded(route, start, stop))
    requires p < |route| && Tour.Distinct(route)
    ensures Serves(tour, route[p]) <==> p == 0 || start <= p <= stop
  {
    var origins := Loaded(route, start, stop);
    if p == 0 || start <= p <= stop {
      var c := City(if p == 0 then 1 else p - start + 2, route[p]);
      assert IsLoaded(c, origins) && c in multiset(tour);
      var i :| 0 <= i < |tour| && tour[i] == c;
    }
    if Serves(tour, route[p]) {
      var i :| 0 <= i < |tour| && tour[i].originId == route[p];
      assert tour[i] in multiset(tour) && IsLoaded(tour[i], origins);
      assert tour[i].id >= 2 ==> origins[tour[i].id - 1] == route[start + tour[i].id - 2];
    }
  }

  /**
   Whatever orders the searches return, every stop behind the depot is served by exactly one
   vehicle, and the depot by all of them.
   */
  lemma EveryStopServedOnce(route: seq<int>, vehicles: nat, flg: seq<int>, results: seq<seq<City>>, p: nat, j: nat)
    requires route != [] && vehicles <= |flg| && CutsStops(flg, vehicles, |route|) && Plan(results, route, flg, vehicles)
    requires p < |route| && j < vehicles && Tour.Distinct(route)
    ensures Serves(results[j], route[p]) <==> p == 0 || j == VehicleOf(flg, vehicles, |route|, p)
  {
    WindowIsInRange(flg, vehicles, |route|, j);
    ServesItsWindow(results[j], route, WindowStart(flg, j), flg[j], p);
    if p > 0 {
      WindowsPartition(flg, vehicles, |route|, p, j);
    }
  }

  /** Whatever length the search can promise for a vehicle's cities, in whatever order it gets them, the plan's tour keeps to. */
  lemma SearchBoundHolds(results: seq<seq<City>>, route: seq<int>, flg: seq<int>, search: seq<City> -> seq<City>, j: nat, d: Tour.Distance<City>, bound: real)
    requires route != [] && |results| <= |flg| && AllSearched(results, route, flg, search) && j < |results|
    requires forall v {:trigger search(v)} :: RouteOf(v, Loaded(route, WindowStart(flg, j), flg[j])) ==> Tour.Cycle(d, search(v)) <= bound
    ensures Tour.Cycle(d, results[j]) <= bound
  {
    var listing :| RouteOf(listing, Loaded(route, WindowStart(flg, j), flg[j])) && results[j] == search(listing);
  }

  /** A vehicle's tour, rotated to the city with id 1, starts at the depot of the whole problem. */
  lemma VehicleStartsAtDepot(tour: seq<City>, route: seq<int>, start: int, stop: int, first: nat)
    requires route != [] && RouteOf(tour, Loaded(route, start, stop))
    requires first <= |tour| && Tour.DepotAt(tour, (c: City) => c.id == 1, first)
    ensures var r := Tour.Rotation(tour, first);
            RouteOf(r, Loaded(route, start, stop)) && r != [] && r[0] == City(1, route[0])
  {
    var depot := City(1, route[0]);
    assert depot in multiset(tour);
    var i :| 0 <= i < |tour| && tour[i] == depot;
    Tour.RotationStops(tour, first);
    assert tour[first] in multiset(tour);
  }

  // ---------------------------------------------------------------- distances in a sub-problem

  /** `GetDistance` as a function of two cities; outside the table nothing is promised. */
  function Distances(table: seq<seq<real>>): Tour.Distance<City> {
    (a, b) => if InTable(table, a, b) then GetDistance(table, a, b) else 0.0
  }

  /** The tour's stops as cities of the whole problem, which have no other number. */
  function Originals(tour: seq<City>): (stops: seq<City>)
    ensures |stops| == |tour| && forall i :: 0 <= i < |tour| ==> stops[i] == City(tour[i].originId, 0)
  {
    seq(|tour|, i requires 0 <= i < |tour| => City(tour[i].originId, 0))
  }

  /** The table's entry for two stops of the whole problem, which are numbered from 1; outside the table nothing is promised. */
  function Entries(table: seq<seq<real>>): Tour.Distance<int> {
    (i, j) => if 1 <= i <= |table| && 1 <= j <= |table[i - 1]| then table[i - 1][j - 1] else 0.0
  }

  function Numbers(tour: seq<City>): (numbers: seq<int>)
    ensures |numbers| == |tour| && forall i :: 0 <= i < |tour| ==> numbers[i] == tour[i].originId
  {
    seq(|tour|, i requires 0 <= i < |tour| => tour[i].originId)
  }

  lemma {:induction false} SamePath<S, T>(d: Tour.Distance<S>, e: Tour.Distance<T>, v: seq<S>, w: seq<T>)
    requires |v| == |w| && forall i, j :: 0 <= i < |v| && 0 <= j < |v| ==> d(v[i], v[j]) == e(w[i], w[j])
    ensures Tour.Path(d, v) == Tour.Path(e, w)
  {
    if |v| >= 2 {
      SamePath(d, e, v[..|v| - 1], w[..|w| - 1]);
    }
  }

  lemma SameEntry(table: seq<seq<real>>, a: City, b: City, i: int, j: int)
    requires i > 0 && j > 0 && ((a.originId == i && b.originId == j) || (a == City(i, 0) && b == City(j, 0)))
    ensures Distances(table)(a, b) == Entries(table)(i, j)
  {
  }

  /**
   Loaded cities with these original numbers, and cities of the whole problem with these numbers,
   have the length of those numbers in the table, both ways.
   */
  lemma ReadsTheTable(table: seq<seq<real>>, tour: seq<City>, numbers: seq<int>)
    requires |numbers| == |tour| && forall i :: 0 <= i < |numbers| ==> numbers[i] > 0
    requires (forall i :: 0 <= i < |tour| ==> tour[i].originId == numbers[i]) || (forall i :: 0 <= i < |tour| ==> tour[i] == City(numbers[i], 0))
    ensures Tour.Cycle(Distances(table), tour) == Tour.Cycle(Entries(table), numbers)
    ensures Tour.Cycle(Distances(table), Tour.Reverse(tour)) == Tour.Cycle(Entries(table), Tour.Reverse(numbers))
  {
    forall i, j | 0 <= i < |tour| && 0 <= j < |tour|
      ensures Distances(table)(tour[i], tour[j]) == Entries(table)(numbers[i], numbers[j])
    {
      SameEntry(table, tour[i], tour[j], numbers[i], numbers[j]);
    }
    SamePath(Distances(table), Entries(table), tour, numbers);
    SamePath(Distances(table), Entries(table), Tour.Reverse(tour), Tour.Reverse(numbers));
  }

  /**
   A vehicle's tour over the loaded, renumbered cities has, in both directions, the length that the
   table of the whole problem gives for the original stops; and so have those stops as cities of the
   whole problem.
   */
  lemma SubProblemDistance(table: seq<seq<real>>, tour: seq<City>, route: seq<int>, start: int, stop: int)
    requires route != [] && RouteOf(tour, Loaded(route, start, stop))
    requires forall k :: 0 <= k < |route| ==> route[k] > 0
    ensures var d, e := Distances(table), Entries(table);
            && Tour.Cycle(d, tour) == Tour.Cycle(d, Originals(tour)) == Tour.Cycle(e, Numbers(tour))
            && Tour.Cycle(d, Tour.Reverse(tour)) == Tour.Cycle(d, Tour.Reverse(Originals(tour))) == Tour.Cycle(e, Tour.Reverse(Numbers(tour)))
  {
    forall i | 0 <= i < |tour|
      ensures tour[i].originId > 0
    {
      assert tour[i] in multiset(tour) && IsLoaded(tour[i], Loaded(route, start, stop));
    }
    ReadsTheTable(table, tour, Numbers(tour));
    ReadsTheTable(table, Originals(tour), Numbers(tour));
  }
}
