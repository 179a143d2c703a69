/**
 The greedy crossover (TSP/TspAlgorithm.cpp:51-140, TSP/TspAlgorithm.h:70-74). The child walks from
 city to city, each time to the nearest city not yet visited among the neighbours of the current
 one in either parent, or to any unvisited city when there is none.
 */
module Crossovers {
  import opened Chromosomes
  import opened Tour

  datatype Option<T> = None | Some(value: T)

  /** Two orders of the same cities, of which there are at least two. */
  ghost predicate SameCities<T(!new)>(p1: seq<T>, p2: seq<T>) {
    && 2 <= |p1| == |p2| && Distinct(p1) && Distinct(p2)
    && forall c :: c in p1 <==> c in p2
  }

  function Before(n: nat, i: nat): nat
    requires i < n
  {
    if i == 0 then n - 1 else i - 1
  }

  function After(n: nat, i: nat): nat
    requires i < n
  {
    if i == n - 1 then 0 else i + 1
  }

  // ---------------------------------------------------------------- the choice of the next city

  /** `SelectNextCity`, skipped when the candidate is already taken. */
  function Selected<T>(d: Distance<T>, cur: T, best: Option<T>, c: T, taken: bool): Option<T> {
    if taken then best
    else if best.None? || d(cur, best.value) > d(cur, c) then Some(c)
    else best
  }

  /** Both neighbours in one parent. */
  function ScanParent<T(==)>(d: Distance<T>, cur: T, best: Option<T>, done: seq<T>, p: seq<T>, i: nat): Option<T>
    requires i < |p|
  {
    var b := Selected(d, cur, best, p[Before(|p|, i)], p[Before(|p|, i)] in done);
    Selected(d, cur, b, p[After(|p|, i)], p[After(|p|, i)] in done)
  }

  /** The second parent is scanned first, and the first candidate wins a tie. */
  function BestNeighbour<T(==)>(d: Distance<T>, done: seq<T>, p1: seq<T>, i1: nat, p2: seq<T>, i2: nat): Option<T>
    requires i1 < |p1| && i2 < |p2|
  {
    ScanParent(d, p1[i1], ScanParent(d, p1[i1], None, done, p2, i2), done, p1, i1)
  }

  /** `m` stands next to place `i` of `p`, cyclically. */
  predicate IsNeighbour<T(==)>(p: seq<T>, i: nat, m: T)
    requires i < |p|
  {
    m == p[Before(|p|, i)] || m == p[After(|p|, i)]
  }

  /** The choice is an unvisited neighbour at minimal distance; there is none exactly when all neighbours are visited. */
  lemma BestNeighbourIsNearest<T(!new)>(d: Distance<T>, done: seq<T>, p1: seq<T>, i1: nat, p2: seq<T>, i2: nat)
    requires i1 < |p1| && i2 < |p2| && p1[i1] == p2[i2]
    ensures match BestNeighbour(d, done, p1, i1, p2, i2) {
              case None => forall m :: IsNeighbour(p1, i1, m) || IsNeighbour(p2, i2, m) ==> m in done
              case Some(b) =>
                && b !in done && (IsNeighbour(p1, i1, b) || IsNeighbour(p2, i2, b))
                && forall m :: (IsNeighbour(p1, i1, m) || IsNeighbour(p2, i2, m)) && m !in done ==> d(p1[i1], b) <= d(p1[i1], m)
            }
  {
  }

  /** The child may go on from the end of `done` to `next`. */
  ghost predicate GreedyStep<T>(d: Distance<T>, p1: seq<T>, p2: seq<T>, done: seq<T>, next: T) {
    && done != [] && next !in done && next in p1
    && forall i1, i2 {:trigger p1[i1], p2[i2]} :: 0 <= i1 < |p1| && 0 <= i2 < |p2| && p1[i1] == p2[i2] == done[|done| - 1] ==>
         (BestNeighbour(d, done, p1, i1, p2, i2).Some? ==> next == BestNeighbour(d, done, p1, i1, p2, i2).value)
  }

  /** The first `k` cities of the child were chosen greedily. */
  ghost predicate GreedyWalk<T>(d: Distance<T>, p1: seq<T>, p2: seq<T>, child: seq<T>) {
    forall k {:trigger child[..k]} :: 0 < k < |child| ==> GreedyStep(d, p1, p2, child[..k], child[k])
  }

  lemma GreedyWalkGrows<T>(d: Distance<T>, p1: seq<T>, p2: seq<T>, child: seq<T>, next: T)
    requires GreedyWalk(d, p1, p2, child) && (child != [] ==> GreedyStep(d, p1, p2, child, next))
    ensures GreedyWalk(d, p1, p2, child + [next])
  {
    var more := child + [next];
    forall k {:trigger more[..k]} | 0 < k < |more|
      ensures GreedyStep(d, p1, p2, more[..k], more[k])
    {
      assert more[..k] == child[..k];
      assert k == |child| ==> child[..k] == child;
    }
  }

  // ---------------------------------------------------------------- the crossover

  /** `taken` marks exactly the places of `p` whose city the child already has. */
  ghost predicate Marks<T>(taken: array<bool>, p: seq<T>, child: seq<T>)
    reads taken
  {
    taken.Length == |p| && forall i :: 0 <= i < |p| ==> (taken[i] <==> p[i] in child)
  }

  /** One parent's turn in the scan for the next city. */
  method ScanNeighbours<T(==, !new)>(d: Distance<T>, cur: T, best: Option<T>, c: seq<T>, taken: array<bool>, pos: nat, ghost child: seq<T>) returns (next: Option<T>)
    requires 2 <= |c| && pos < |c| && Marks(taken, c, child)
    ensures next == ScanParent(d, cur, best, child, c, pos)
  {
    next := best;
    if pos > 0 {
      if !taken[pos - 1] {
        next := Selected(d, cur, next, c[pos - 1], false);
      }
      if pos < |c| - 1 {
        if !taken[pos + 1] {
          next := Selected(d, cur, next, c[pos + 1], false);
        }
      } else {
        if !taken[0] {
          next := Selected(d, cur, next, c[0], false);
        }
      }
    } else {
      if !taken[|c| - 1] {
        next := Selected(d, cur, next, c[|c| - 1], false);
      }
      if !taken[pos + 1] {
        next := Selected(d, cur, next, c[pos + 1], false);
      }
    }
  }

  /** Place `j` steps behind `start` on a ring of `n` places. */
  function Ring(n: nat, start: nat, j: nat): (p: nat)
    requires start < n && j < n
    ensures p < n
  {
    if start + j < n then start + j else start + j - n
  }

  lemma RingIsModulo(n: nat, start: nat, j: nat)
    requires start < n && j < n
    ensures (start + j) % n == Ring(n, start, j)
  {
    if start + j >= n {
      ModOnce(start + j, n);
    } else {
      ModNone(start + j, n);
    }
  }

  lemma ModNone(x: nat, n: nat)
    requires x < n
    ensures x % n == x
  {
  }

  lemma ModOnce(x: nat, n: nat)
    requires 0 < n <= x < 2 * n
    ensures x % n == x - n
  {
    var q := x / n;
    if q <= 0 {
      MulMonotone(q, 0, n);
    } else if q >= 2 {
      MulMonotone(2, q, n);
    }
  }

  lemma MulMonotone(a: int, b: int, n: nat)
    requires a <= b
    ensures a * n <= b * n
  {
  }

  /** Going backwards round the whole ring from the place before `start`, place `j` steps on is the first untaken one. */
  ghost predicate FirstUntaken(taken: array<bool>, start: nat, j: nat)
    requires start < taken.Length
    reads taken
  {
    j < taken.Length && !taken[Ring(taken.Length, start, j)] && forall k :: j < k < taken.Length ==> taken[Ring(taken.Length, start, k)]
  }

  /** The fallback looks round the whole ring from a random place, backwards; it misses no place. */
  method FindUntaken(taken: array<bool>, start: nat) returns (p: int)
    requires start < taken.Length
    ensures -1 <= p < taken.Length
    ensures p >= 0 ==> exists j :: FirstUntaken(taken, start, j) && p == Ring(taken.Length, start, j)
    ensures p == -1 ==> forall i :: 0 <= i < taken.Length ==> taken[i]
  {
    var n := taken.Length;
    for j := n downto 0
      invariant forall k :: j <= k < n ==> taken[Ring(n, start, k)]
    {
      RingIsModulo(n, start, j);
      p := (start + j) % n;
      if !taken[p] {
        assert FirstUntaken(taken, start, j);
        return;
      }
    }
    p := -1;
    forall i | 0 <= i < n
      ensures taken[i]
    {
      var k := if i >= start then i - start else i - start + n;
      assert Ring(n, start, k) == i;
    }
  }

  /** The child is an order of the parents' cities, and every step of it was greedy. */
  ghost predicate GreedyChild<T(!new)>(d: Distance<T>, p1: seq<T>, p2: seq<T>, child: seq<T>) {
    && Distinct(child) && (forall c :: c in child <==> c in p1)
    && GreedyWalk(d, p1, p2, child)
  }

  /** The places of the cities still to be visited. */
  ghost function Untaken<T>(p: seq<T>, done: seq<T>): set<nat> {
    set i: nat {:trigger p[i]} | i < |p| && p[i] !in done
  }

  lemma UntakenShrinks<T>(p: seq<T>, done: seq<T>, pos: nat)
    requires pos < |p| && p[pos] !in done
    ensures Untaken(p, done + [p[pos]]) < Untaken(p, done)
  {
    assert pos in Untaken(p, done) && pos !in Untaken(p, done + [p[pos]]);
  }

  ghost predicate DrawnAt<T>(p: seq<T>, done: seq<T>, start: nat, j: nat)
    requires start < |p|
  {
    j < |p| && p[Ring(|p|, start, j)] !in done && forall k :: j < k < |p| ==> p[Ring(|p|, start, k)] in done
  }

  /** `city` is the first unvisited one, going backwards round `p` from the place before `start`. */
  ghost predicate Drawn<T>(p: seq<T>, done: seq<T>, start: nat, city: T)
    requires start < |p|
  {
    exists j :: DrawnAt(p, done, start, j) && city == p[Ring(|p|, start, j)]
  }

  /** Where all neighbours of the last city were visited, the child went on with the city drawn for that length. */
  ghost predicate FollowsDraws<T>(d: Distance<T>, p1: seq<T>, p2: seq<T>, draws: nat -> nat, child: seq<T>)
    requires forall k :: draws(k) < |p1|
  {
    forall k, i1, i2 {:trigger child[..k], p1[i1], p2[i2]} ::
      0 < k < |child| && 0 <= i1 < |p1| && 0 <= i2 < |p2| && p1[i1] == p2[i2] == child[k - 1] ==>
        BestNeighbour(d, child[..k], p1, i1, p2, i2).Some? || Drawn(p1, child[..k], draws(k), child[k])
  }

  lemma FollowsDrawsGrows<T(!new)>(d: Distance<T>, p1: seq<T>, i1: nat, p2: seq<T>, i2: nat, draws: nat -> nat, child: seq<T>, next: T)
    requires SameCities(p1, p2) && (forall k :: draws(k) < |p1|) && FollowsDraws(d, p1, p2, draws, child)
    requires child != [] && i1 < |p1| && i2 < |p2| && p1[i1] == p2[i2] == child[|child| - 1]
    requires BestNeighbour(d, child, p1, i1, p2, i2).Some? || Drawn(p1, child, draws(|child|), next)
    ensures FollowsDraws(d, p1, p2, draws, child + [next])
  {
    var more := child + [next];
    forall k, j1, j2 {:trigger more[..k], p1[j1], p2[j2]} | 0 < k < |more| && 0 <= j1 < |p1| && 0 <= j2 < |p2| && p1[j1] == p2[j2] == more[k - 1]
      ensures BestNeighbour(d, more[..k], p1, j1, p2, j2).Some? || Drawn(p1, more[..k], draws(k), more[k])
    {
      assert more[..k] == child[..k];
      if k == |child| {
        assert child[..k] == child && j1 == i1 && j2 == i2;
      }
    }
  }

  /** Any choice the scan and its fallback make is a greedy step. */
  lemma ChosenIsGreedy<T(!new)>(d: Distance<T>, p1: seq<T>, i1: nat, p2: seq<T>, i2: nat, done: seq<T>, next: T)
    requires SameCities(p1, p2) && i1 < |p1| && i2 < |p2| && done != [] && p1[i1] == p2[i2] == done[|done| - 1]
    requires match BestNeighbour(d, done, p1, i1, p2, i2) {
               case Some(b) => next == b
               case None => next in p1 && next !in done
             }
    ensures GreedyStep(d, p1, p2, done, next)
  {
    BestNeighbourIsNearest(d, done, p1, i1, p2, i2);
    forall j1, j2 | 0 <= j1 < |p1| && 0 <= j2 < |p2| && p1[j1] == p2[j2] == done[|done| - 1]
      ensures j1 == i1 && j2 == i2
    {
    }
  }

  /** The city to go on with, or none when every city is taken (TSP/TspAlgorithm.cpp:81-131). */
  method NextCity<T(==, !new)>(d: Distance<T>, p1: seq<T>, i1: nat, p2: seq<T>, i2: nat, taken1: array<bool>, taken2: array<bool>, startRandom: nat, ghost done: seq<T>) returns (next: Option<T>)
    requires startRandom < |p1| && SameCities(p1, p2) && i1 < |p1| && i2 < |p2| && done != [] && p1[i1] == p2[i2] == done[|done| - 1]
    requires Marks(taken1, p1, done) && Marks(taken2, p2, done)
    ensures next.Some? ==> GreedyStep(d, p1, p2, done, next.value)
    ensures next.Some? ==> BestNeighbour(d, done, p1, i1, p2, i2).Some? || Drawn(p1, done, startRandom, next.value)
    ensures next.None? ==> forall c :: c in p1 ==> c in done
  {
    next := None;
    for j := 0 to 2
      invariant next == match j
                        case 0 => None
                        case 1 => ScanParent(d, p1[i1], None, done, p2, i2)
                        case _ => BestNeighbour(d, done, p1, i1, p2, i2)
    {
      if j == 1 {
        next := ScanNeighbours(d, p1[i1], next, p1, taken1, i1, done);
      } else {
        next := ScanNeighbours(d, p1[i1], next, p2, taken2, i2, done);
      }
    }
    if next.None? {
      var p := FindUntaken(taken1, startRandom);
      if p >= 0 {
        next := Some(p1[p]);
        ghost var j :| FirstUntaken(taken1, startRandom, j) && p == Ring(|p1|, startRandom, j);
        assert DrawnAt(p1, done, startRandom, j);
      }
    }
    if next.Some? {
      ChosenIsGreedy(d, p1, i1, p2, i2, done, next.value);
    }
  }

  /** The walk so far: distinct cities of the parents, each chosen greedily. */
  ghost predicate Walk<T>(d: Distance<T>, p1: seq<T>, p2: seq<T>, done: seq<T>) {
    Distinct(done) && (forall c :: c in done ==> c in p1) && GreedyWalk(d, p1, p2, done)
  }

  /** The walk may go on to `city`. */
  ghost predicate CanGo<T>(d: Distance<T>, p1: seq<T>, p2: seq<T>, done: seq<T>, city: T) {
    city in p1 && city !in done && (done != [] ==> GreedyStep(d, p1, p2, done, city))
  }

  lemma WalkGrows<T>(d: Distance<T>, p1: seq<T>, p2: seq<T>, done: seq<T>, city: T)
    requires Walk(d, p1, p2, done) && CanGo(d, p1, p2, done, city)
    ensures Walk(d, p1, p2, done + [city])
  {
    GreedyWalkGrows(d, p1, p2, done, city);
  }

  /** Marks the place of the city just visited. */
  method Take<T>(taken: array<bool>, p: seq<T>, pos: nat, ghost done: seq<T>)
    requires Marks(taken, p, done) && pos < |p| && Distinct(p)
    modifies taken
    ensures Marks(taken, p, done + [p[pos]])
  {
    taken[pos] := true;
  }

  /** Appends the current city and marks it in both parents (TSP/TspAlgorithm.cpp:73-79). */
  method Visit<T(==, 0, !new)>(p1: Chromosome<T>, p2: Chromosome<T>, child: Chromosome<T>, taken1: array<bool>, taken2: array<bool>, city: T) returns (i1: nat, i2: nat)
    requires SameCities(p1.values, p2.values) && child != p1 && child != p2 && taken1 != taken2
    requires child.closest(city, 0) == city && city in p1.values && city !in child.values
    requires Marks(taken1, p1.values, child.values) && Marks(taken2, p2.values, child.values)
    modifies child`values, taken1, taken2
    ensures i1 < |p1.values| && i2 < |p2.values| && p1.values[i1] == p2.values[i2] == city
    ensures child.values == old(child.values) + [city]
    ensures Marks(taken1, p1.values, child.values) && Marks(taken2, p2.values, child.values)
    ensures Untaken(p1.values, child.values) < old(Untaken(p1.values, child.values))
  {
    var first := p1.GetCityPosition(city);
    var second := p2.GetCityPosition(city);
    ghost var before := child.values;
    Append(child, city);
    Take(taken1, p1.values, first, before);
    Take(taken2, p2.values, second, before);
    UntakenShrinks(p1.values, before, first);
    i1, i2 := first, second;
  }

  /** The crossover between two cities: the walk so far, and the city it goes on to. */
  ghost predicate Going<T>(d: Distance<T>, p1: seq<T>, p2: seq<T>, first: nat, draws: nat -> nat, done: seq<T>, city: T)
    requires first < |p1| && forall k :: draws(k) < |p1|
  {
    && Walk(d, p1, p2, done) && CanGo(d, p1, p2, done, city)
    && (done + [city])[0] == p1[first] && FollowsDraws(d, p1, p2, draws, done + [city])
  }

  lemma GoOn<T(!new)>(d: Distance<T>, p1: seq<T>, i1: nat, p2: seq<T>, i2: nat, first: nat, draws: nat -> nat, done: seq<T>, city: T, next: T)
    requires SameCities(p1, p2) && first < |p1| && (forall k :: draws(k) < |p1|) && Going(d, p1, p2, first, draws, done, city)
    requires i1 < |p1| && i2 < |p2| && p1[i1] == p2[i2] == city && GreedyStep(d, p1, p2, done + [city], next)
    requires BestNeighbour(d, done + [city], p1, i1, p2, i2).Some? || Drawn(p1, done + [city], draws(|done| + 1), next)
    ensures Going(d, p1, p2, first, draws, done + [city], next)
  {
    WalkGrows(d, p1, p2, done, city);
    FollowsDrawsGrows(d, p1, i1, p2, i2, draws, done + [city], next);
  }

  /** Nowhere left to go: the walk with its last city is a whole child. */
  lemma ArriveAt<T(!new)>(d: Distance<T>, p1: seq<T>, p2: seq<T>, first: nat, draws: nat -> nat, done: seq<T>, city: T)
    requires first < |p1| && (forall k :: draws(k) < |p1|) && Going(d, p1, p2, first, draws, done, city)
    requires forall c :: c in p1 ==> c in done + [city]
    ensures GreedyChild(d, p1, p2, done + [city])
  {
    WalkGrows(d, p1, p2, done, city);
  }

  /**
   `first` is the place drawn for the first city, `draws(k)` the place drawn when `k` cities are in
   the child and all neighbours of the last one have been visited.
   */
  method Crossover<T(==, 0, !new)>(d: Distance<T>, p1: Chromosome<T>, p2: Chromosome<T>, first: nat, draws: nat -> nat) returns (child: Chromosome<T>)
    requires SameCities(p1.values, p2.values) && first < |p1.values| && forall k :: draws(k) < |p1.values|
    requires forall c, i :: p1.closest(c, i) == c
    ensures fresh(child) && child.backup == [] && child.closest == p1.closest
    ensures GreedyChild(d, p1.values, p2.values, child.values)
    ensures child.values != [] && child.values[0] == p1.values[first]
    ensures FollowsDraws(d, p1.values, p2.values, draws, child.values)
  {
    var n := |p1.values|;
    child := new Chromosome<T>(p1.closest);
    var takenFromFirst := new bool[n](_ => false);
    var takenFromSecond := new bool[n](_ => false);
    var currentCity := p1.values[first];
    while true
      invariant child.backup == []
      invariant Going(d, p1.values, p2.values, first, draws, child.values, currentCity)
      invariant Marks(takenFromFirst, p1.values, child.values) && Marks(takenFromSecond, p2.values, child.values)
      decreases Untaken(p1.values, child.values)
    {
      ghost var done := child.values;
      var firstPosition, secondPosition := Visit(p1, p2, child, takenFromFirst, takenFromSecond, currentCity);
      var nextCity := NextCity(d, p1.values, firstPosition, p2.values, secondPosition, takenFromFirst, takenFromSecond, draws(|child.values|), child.values);
      if nextCity.None? {
        ArriveAt(d, p1.values, p2.values, first, draws, done, currentCity);
        break;
      }
      GoOn(d, p1.values, firstPosition, p2.values, secondPosition, first, draws, done, currentCity, nextCity.value);
      currentCity := nextCity.value;
    }
  }

  /** `child->Insert( child->GetCodeSize(), &value, 1 )` (TSP/TspAlgorithm.cpp:76). */
  method Append<T(==, 0)>(child: Chromosome<T>, city: T)
    requires child.closest(city, 0) == city
    modifies child`values
    ensures child.values == old(child.values) + [city]
  {
    var one := new T[1](_ => city);
    child.Insert(|child.values|, one, 1);
    assert Snapped(child.closest, one[..1]) == [city];
  }
}
