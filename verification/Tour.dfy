/**
 Tours: their fitness (TSP/TspAlgorithm.cpp:142-152), the rotation that puts the depot first
 (TSP/TspView.cpp:547-575, 1011-1031) and the legs finally emitted (TSP/TspView.cpp:1097-1146).
 */
module Tour {

  type Distance<!T> = (T, T) -> real

  function Flip<T>(d: Distance<T>): Distance<T> {
    (a, b) => d(b, a)
  }

  /** Length of the open path through `v`. */
  function Path<T>(d: Distance<T>, v: seq<T>): real {
    if |v| < 2 then 0.0 else Path(d, v[..|v| - 1]) + d(v[|v| - 2], v[|v| - 1])
  }

  /** Length of the closed tour through `v`. */
  function Cycle<T>(d: Distance<T>, v: seq<T>): real {
    if v == [] then 0.0 else Path(d, v) + d(v[|v| - 1], v[0])
  }

  function Reverse<T>(v: seq<T>): (r: seq<T>)
    ensures |r| == |v| && forall i :: 0 <= i < |v| ==> r[i] == v[|v| - 1 - i]
  {
    if v == [] then [] else [v[|v| - 1]] + Reverse(v[..|v| - 1])
  }

  lemma {:induction false} PathConcat<T>(d: Distance<T>, a: seq<T>, b: seq<T>)
    requires a != [] && b != []
    ensures Path(d, a + b) == Path(d, a) + d(a[|a| - 1], b[0]) + Path(d, b)
  {
    assert (a + b)[..|a + b| - 1] == a + b[..|b| - 1];
    if |b| == 1 {
      assert a + b[..0] == a;
    } else {
      PathConcat(d, a, b[..|b| - 1]);
    }
  }

  /** A closed tour has no beginning. */
  lemma CycleRotates<T>(d: Distance<T>, a: seq<T>, b: seq<T>)
    ensures Cycle(d, a + b) == Cycle(d, b + a)
  {
    if a == [] || b == [] {
      assert a + b == b + a;
    } else {
      PathConcat(d, a, b);
      PathConcat(d, b, a);
    }
  }

  lemma {:induction false} PathReverse<T>(d: Distance<T>, v: seq<T>)
    ensures Path(d, Reverse(v)) == Path(Flip(d), v)
  {
    if |v| >= 2 {
      var init := v[..|v| - 1];
      PathReverse(d, init);
      PathConcat(d, [v[|v| - 1]], Reverse(init));
    }
  }

  /** Walking a tour backwards is walking the reversed tour forwards. */
  lemma CycleReverse<T>(d: Distance<T>, v: seq<T>)
    ensures Cycle(d, Reverse(v)) == Cycle(Flip(d), v)
  {
    PathReverse(d, v);
  }

  // ---------------------------------------------------------------- fitness

  /** The part of the fitness already added when the loop has come down to index `i`. */
  function FitnessFrom<T>(d: Distance<T>, v: seq<T>, i: nat): real
    requires i <= |v|
    decreases |v| - i
  {
    if i == |v| then 0.0 else FitnessFrom(d, v, i + 1) + d(v[i], v[if i > 0 then i - 1 else |v| - 1])
  }

  lemma {:induction false} FitnessFromIsPath<T>(d: Distance<T>, v: seq<T>, i: nat)
    requires 1 <= i <= |v|
    ensures FitnessFrom(d, v, i) == Path(Flip(d), v) - Path(Flip(d), v[..i])
    decreases |v| - i
  {
    if i == |v| {
      assert v[..i] == v;
    } else {
      FitnessFromIsPath(d, v, i + 1);
      assert v[..i + 1][..i] == v[..i];
    }
  }

  /** `TspFitness`: each city's distance to its predecessor, so the tour's length walked backwards. */
  method TspFitness<T>(d: Distance<T>, v: seq<T>) returns (fitness: real)
    ensures fitness == Cycle(d, Reverse(v))
  {
    fitness := 0.0;
    for i := |v| downto 0
      invariant fitness == FitnessFrom(d, v, i)
    {
      fitness := fitness + d(v[i], v[if i > 0 then i - 1 else |v| - 1]);
    }
    CycleReverse(d, v);
    if v != [] {
      FitnessFromIsPath(d, v, 1);
    }
  }

  // ---------------------------------------------------------------- relocation

  function Rotation<T>(v: seq<T>, k: nat): seq<T>
    requires k <= |v|
  {
    v[k..] + v[..k]
  }

  /** The depot's place: the first stop satisfying `isDepot`, or 0 when there is none. */
  ghost predicate DepotAt<T>(v: seq<T>, isDepot: T -> bool, k: nat) {
    if exists i :: 0 <= i < |v| && isDepot(v[i]) then
      k < |v| && isDepot(v[k]) && forall i :: 0 <= i < k ==> !isDepot(v[i])
    else k == 0
  }

  method FindDepot<T>(v: seq<T>, isDepot: T -> bool) returns (first: nat)
    ensures DepotAt(v, isDepot, first)
  {
    first := 0;
    for i := 0 to |v|
      invariant first == 0 && forall j :: 0 <= j < i ==> !isDepot(v[j])
    {
      if isDepot(v[i]) {
        first := i;
        break;
      }
    }
  }

  /** The relocation fills a copy of the route cell by cell: first from the depot on, then the rest. */
  method Relocate<T>(route: seq<T>, isDepot: T -> bool) returns (relocated: seq<T>)
    ensures exists first: nat :: first <= |route| && DepotAt(route, isDepot, first) && relocated == Rotation(route, first)
  {
    relocated := route;
    var start := FindDepot(route, isDepot);
    var index := 0;
    for i := start to |route|
      invariant index == i - start && |relocated| == |route|
      invariant relocated[..index] == route[start..i]
    {
      assert route[start..i + 1] == route[start..i] + [route[i]];
      relocated := relocated[index := route[i]];
      index := index + 1;
    }
    for i := 0 to start
      invariant index == |route| - start + i && |relocated| == |route|
      invariant relocated[..index] == route[start..] + route[..i]
    {
      assert route[..i + 1] == route[..i] + [route[i]];
      relocated := relocated[index := route[i]];
      index := index + 1;
    }
    assert relocated == relocated[..index] == Rotation(route, start);
  }

  lemma RotationFitness<T>(d: Distance<T>, v: seq<T>, k: nat)
    requires k <= |v|
    ensures Cycle(d, Reverse(Rotation(v, k))) == Cycle(d, Reverse(v))
  {
    var a, b := v[..k], v[k..];
    assert v == a + b && Rotation(v, k) == b + a;
    CycleReverse(d, v);
    CycleReverse(d, b + a);
    CycleRotates(Flip(d), a, b);
  }

  lemma RotationStops<T>(v: seq<T>, k: nat)
    requires k <= |v|
    ensures multiset(Rotation(v, k)) == multiset(v)
  {
    var a, b := v[..k], v[k..];
    assert v == a + b;
    assert multiset(a + b) == multiset(a) + multiset(b) == multiset(b + a);
  }

  /** A relocated route starts at the depot, visits the same stops, and is as good as it was. */
  lemma RelocationKeepsTheTour<T>(d: Distance<T>, route: seq<T>, isDepot: T -> bool, first: nat)
    requires first <= |route| && DepotAt(route, isDepot, first)
    ensures var r := Rotation(route, first);
            && multiset(r) == multiset(route)
            && ((exists i :: 0 <= i < |route| && isDepot(route[i])) ==> r != [] && isDepot(r[0]))
            && Cycle(d, Reverse(r)) == Cycle(d, Reverse(route))
  {
    RotationFitness(d, route, first);
    RotationStops(route, first);
  }

  // ---------------------------------------------------------------- legs

  /** Where leg `j` ends: at the next stop, or back at the first. */
  function Successor(n: nat, j: nat): nat
    requires j < n
  {
    if j == n - 1 then 0 else j + 1
  }

  datatype Leg<T> = Leg(from: T, to: T, distance: real)

  /** Step 8 emits one leg per stop, each with the distance it looks up. */
  method EmitLegs<T>(d: Distance<T>, v: seq<T>) returns (legs: seq<Leg<T>>)
    ensures |legs| == |v|
    ensures forall j :: 0 <= j < |v| ==> legs[j] == Leg(v[j], v[Successor(|v|, j)], d(v[j], v[Successor(|v|, j)]))
  {
    legs := [];
    for j := 0 to |v|
      invariant |legs| == j
      invariant forall i :: 0 <= i < j ==> legs[i] == Leg(v[i], v[Successor(|v|, i)], d(v[i], v[Successor(|v|, i)]))
    {
      if j == |v| - 1 {
        legs := legs + [Leg(v[j], v[0], d(v[j], v[0]))];
      } else {
        legs := legs + [Leg(v[j], v[j + 1], d(v[j], v[j + 1]))];
      }
    }
  }

  function Total<T>(legs: seq<Leg<T>>): real {
    if legs == [] then 0.0 else Total(legs[..|legs| - 1]) + legs[|legs| - 1].distance
  }

  lemma {:induction false} LegsOfPath<T>(d: Distance<T>, v: seq<T>, legs: seq<Leg<T>>)
    requires |legs| == |v| - 1 && forall j {:trigger legs[j]} :: 0 <= j < |legs| ==> legs[j].distance == d(v[j], v[j + 1])
    ensures Total(legs) == Path(d, v)
  {
    if legs != [] {
      LegsOfPath(d, v[..|v| - 1], legs[..|legs| - 1]);
    }
  }

  /** The emitted distances add up to the length of the closed tour. */
  lemma LegsAddUp<T>(d: Distance<T>, v: seq<T>, legs: seq<Leg<T>>)
    requires |legs| == |v|
    requires forall j {:trigger legs[j]} :: 0 <= j < |v| ==> legs[j] == Leg(v[j], v[Successor(|v|, j)], d(v[j], v[Successor(|v|, j)]))
    ensures Total(legs) == Cycle(d, v)
  {
    if v != [] {
      var path := legs[..|v| - 1];
      assert forall j {:trigger path[j]} :: 0 <= j < |path| ==> path[j] == legs[j] && path[j].distance == d(v[j], v[j + 1]);
      LegsOfPath(d, v, path);
    }
  }

  /** Going round any three of the cities is equally long both ways. */
  ghost predicate Balanced<T(!new)>(d: Distance<T>, cities: set<T>) {
    forall a, b, c {:trigger d(a, b), d(b, c)} :: a in cities && b in cities && c in cities ==>
      d(a, b) + d(b, c) + d(c, a) == d(a, c) + d(c, b) + d(b, a)
  }

  ghost predicate Distinct<T>(v: seq<T>) {
    forall i, j :: 0 <= i < j < |v| ==> v[i] != v[j]
  }

  /** A tour visits every city once. */
  ghost predicate TourOf<T(!new)>(v: seq<T>, cities: set<T>) {
    Distinct(v) && forall c :: c in cities <==> c in v
  }

  /** Over balanced cities a tour can be shortened stop by stop without tipping the balance. */
  lemma {:induction false} BalancedCycle<T(!new)>(d: Distance<T>, cities: set<T>, v: seq<T>)
    requires Balanced(d, cities) && forall i :: 0 <= i < |v| ==> v[i] in cities
    requires Distinct(v)
    ensures Cycle(d, v) == Cycle(Flip(d), v)
  {
    if |v| >= 2 {
      var init := v[..|v| - 1];
      BalancedCycle(d, cities, init);
      var first, prev, last := v[0], v[|v| - 2], v[|v| - 1];
      assert d(prev, last) + d(last, first) + d(first, prev) == d(prev, first) + d(first, last) + d(last, prev);
    }
  }

  /** Some order of a set's members. */
  lemma Listing<T(!new)>(s: set<T>) returns (r: seq<T>)
    ensures TourOf(r, s)
  {
    r := [];
    if c :| c in s {
      var rest := Listing(s - {c});
      r := [c] + rest;
      assert forall x :: x in s <==> x == c || x in s - {c};
    }
  }

  /** The part of a closed tour `[a, b, c] + r` outside the three stops. */
  function Closing<T>(d: Distance<T>, a: T, c: T, r: seq<T>): real {
    if r == [] then d(c, a) else d(c, r[0]) + Path(d, r) + d(r[|r| - 1], a)
  }

  lemma ThreeFirst<T>(d: Distance<T>, a: T, b: T, c: T, r: seq<T>)
    ensures Cycle(d, [a, b, c] + r) == d(a, b) + d(b, c) + Closing(d, a, c, r)
  {
    assert [a, b, c][..2] == [a, b] && [a, b][..1] == [a];
    assert Path(d, [a, b, c]) == Path(d, [a, b]) + d(b, c);
    assert Path(d, [a, b]) == Path(d, [a]) + d(a, b);
    if r == [] {
      assert [a, b, c] + r == [a, b, c];
    } else {
      PathConcat(d, [a, b, c], r);
    }
  }

  /** How much longer a tour is than the same tour backwards. */
  function Excess<T>(d: Distance<T>, v: seq<T>): real {
    Cycle(d, v) - Cycle(Flip(d), v)
  }

  function Imbalance<T>(d: Distance<T>, a: T, b: T, c: T): real {
    d(a, b) + d(b, c) + d(c, a) - d(a, c) - d(c, b) - d(b, a)
  }

  /** Turning three neighbouring stops over, in all three rotations, shows their imbalance alone. */
  lemma SixTours<T>(d: Distance<T>, a: T, b: T, c: T, r: seq<T>)
    ensures Excess(d, [a, b, c] + r) + Excess(d, [b, c, a] + r) + Excess(d, [c, a, b] + r)
         == Excess(d, [c, b, a] + r) + Excess(d, [a, c, b] + r) + Excess(d, [b, a, c] + r) + (if r == [] then 6.0 else 4.0) * Imbalance(d, a, b, c)
  {
    ThreeBothWays(d, a, b, c, r);
    ThreeBothWays(d, b, c, a, r);
    ThreeBothWays(d, c, a, b, r);
    ThreeBothWays(d, c, b, a, r);
    ThreeBothWays(d, a, c, b, r);
    ThreeBothWays(d, b, a, c, r);
  }

  lemma ThreeBothWays<T>(d: Distance<T>, a: T, b: T, c: T, r: seq<T>)
    ensures Excess(d, [a, b, c] + r) == d(a, b) + d(b, c) + Closing(d, a, c, r) - d(b, a) - d(c, b) - Closing(Flip(d), a, c, r)
  {
    ThreeFirst(d, a, b, c, r);
    ThreeFirst(Flip(d), a, b, c, r);
  }

  ghost predicate SameBothWays<T(!new)>(d: Distance<T>, cities: set<T>) {
    forall v {:trigger TourOf(v, cities)} :: TourOf(v, cities) ==> Cycle(d, v) == Cycle(d, Reverse(v))
  }

  lemma TourHasNoExcess<T(!new)>(d: Distance<T>, cities: set<T>, a: T, b: T, c: T, r: seq<T>)
    requires SameBothWays(d, cities) && TourOf(r, cities - {a, b, c})
    requires a in cities && b in cities && c in cities && a != b && b != c && a != c
    ensures Excess(d, [a, b, c] + r) == 0.0
  {
    var v := [a, b, c] + r;
    forall x
      ensures x in cities <==> x in v
    {
      assert x in v <==> x in {a, b, c} || x in r;
      assert x in cities <==> x in {a, b, c} || x in cities - {a, b, c};
    }
    assert forall i :: 0 <= i < |r| ==> r[i] in r;
    assert TourOf(v, cities);
    CycleReverse(d, v);
  }

  /** If every tour is equally long both ways, so is every triangle within the tours. */
  lemma TriangleFromTours<T(!new)>(d: Distance<T>, cities: set<T>, a: T, b: T, c: T)
    requires SameBothWays(d, cities)
    requires a in cities && b in cities && c in cities && a != b && b != c && a != c
    ensures Imbalance(d, a, b, c) == 0.0
  {
    var r := Listing(cities - {a, b, c});
    assert {a, b, c} == {b, c, a} == {c, a, b} == {c, b, a} == {a, c, b} == {b, a, c};
    TourHasNoExcess(d, cities, a, b, c, r);
    TourHasNoExcess(d, cities, b, c, a, r);
    TourHasNoExcess(d, cities, c, a, b, r);
    TourHasNoExcess(d, cities, c, b, a, r);
    TourHasNoExcess(d, cities, a, c, b, r);
    TourHasNoExcess(d, cities, b, a, c, r);
    SixTours(d, a, b, c, r);
  }

  /**
   The emitted length of every tour through the registered cities is the fitness the search
   minimised if and only if every triangle of cities is balanced; symmetric distances are, one-way
   roads usually are not.
   */
  lemma EmittedIsFitnessExactly<T(!new)>(d: Distance<T>, cities: set<T>)
    ensures SameBothWays(d, cities) <==> Balanced(d, cities)
  {
    if Balanced(d, cities) {
      forall v | TourOf(v, cities)
        ensures Cycle(d, v) == Cycle(d, Reverse(v))
      {
        CycleReverse(d, v);
        BalancedCycle(d, cities, v);
      }
    }
    if SameBothWays(d, cities) {
      forall a, b, c {:trigger d(a, b), d(b, c)} | a in cities && b in cities && c in cities
        ensures d(a, b) + d(b, c) + d(c, a) == d(a, c) + d(c, b) + d(b, a)
      {
        if a != b && b != c && a != c {
          TriangleFromTours(d, cities, a, b, c);
        }
      }
    }
  }

  /** Looking only at the tours that start at the depot, as emitted ones do, makes no difference. */
  lemma DepotFirstSuffices<T(!new)>(d: Distance<T>, cities: set<T>, depot: T)
    requires depot in cities
    ensures (forall v {:trigger TourOf(v, cities)} :: TourOf(v, cities) && v[0] == depot ==> Cycle(d, v) == Cycle(d, Reverse(v))) <==> SameBothWays(d, cities)
  {
    if forall v {:trigger TourOf(v, cities)} :: TourOf(v, cities) && v[0] == depot ==> Cycle(d, v) == Cycle(d, Reverse(v)) {
      forall v | TourOf(v, cities)
        ensures Cycle(d, v) == Cycle(d, Reverse(v))
      {
        var k :| 0 <= k < |v| && v[k] == depot;
        RotatedTour(v, cities, k);
        RotationFitness(d, v, k);
        assert v == v[..k] + v[k..];
        CycleRotates(d, v[..k], v[k..]);
      }
    }
  }

  lemma RotatedTour<T(!new)>(v: seq<T>, cities: set<T>, k: nat)
    requires TourOf(v, cities) && k < |v|
    ensures TourOf(Rotation(v, k), cities) && Rotation(v, k)[0] == v[k]
  {
    var r := Rotation(v, k);
    assert v == v[..k] + v[k..];
    assert forall c :: c in r <==> c in v[k..] || c in v[..k];
    assert forall c :: c in v <==> c in v[k..] || c in v[..k];
    assert forall i :: 0 <= i < |r| ==> r[i] == if i < |v| - k then v[k + i] else v[k + i - |v|];
  }

  /** One-way distances: the search then minimised the length of the opposite direction. */
  lemma OneWayRoads()
    ensures exists d: Distance<int>, v: seq<int> :: TourOf(v, {0, 1, 2}) && Cycle(d, v) == 3.0 && Cycle(d, Reverse(v)) == 15.0
  {
    var d: Distance<int> := (a, b) => if (b - a) % 3 == 1 then 1.0 else 5.0;
    var v := [0, 1, 2];
    ThreeFirst(d, 0, 1, 2, []);
    ThreeFirst(Flip(d), 0, 1, 2, []);
    assert v + [] == v;
    CycleReverse(d, v);
    assert TourOf(v, {0, 1, 2}) && Cycle(d, v) == 3.0 && Cycle(d, Reverse(v)) == 15.0;
  }
}
