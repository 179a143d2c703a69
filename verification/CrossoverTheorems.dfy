/** What every greedy child is: an order of the same cities, a nearest-neighbour walk, and faithful to a tour its parents share. */
module CrossoverTheorems {
  import opened Tour
  import opened Crossovers

  // ---------------------------------------------------------------- a permutation

  lemma {:induction false} DistinctBag<T>(v: seq<T>)
    requires Distinct(v)
    ensures forall c :: multiset(v)[c] == if c in v then 1 else 0
  {
    if v != [] {
      var init, last := v[..|v| - 1], v[|v| - 1];
      DistinctBag(init);
      assert v == init + [last] && last !in init;
    }
  }

  /** The child has every city of its parents exactly once. */
  lemma GreedyChildIsPermutation<T(!new)>(d: Distance<T>, p1: seq<T>, p2: seq<T>, child: seq<T>)
    requires SameCities(p1, p2) && GreedyChild(d, p1, p2, child)
    ensures multiset(child) == multiset(p1) == multiset(p2)
    ensures SameCities(p1, child)
  {
    DistinctBag(child);
    DistinctBag(p1);
    DistinctBag(p2);
    assert |multiset(child)| == |child| && |multiset(p1)| == |p1|;
  }

  // ---------------------------------------------------------------- greedy edges

  /** `m` stands next to `c`, cyclically, in one of the parents. */
  ghost predicate Adjacent<T(!new)>(p1: seq<T>, p2: seq<T>, c: T, m: T) {
    || (exists i :: 0 <= i < |p1| && p1[i] == c && IsNeighbour(p1, i, m))
    || (exists i :: 0 <= i < |p2| && p2[i] == c && IsNeighbour(p2, i, m))
  }

  /**
   Every step of the child goes to an unvisited neighbour of the current city, at minimal distance
   among all unvisited neighbours in both parents, as long as there is one.
   */
  lemma EveryEdgeIsGreedy<T(!new)>(d: Distance<T>, p1: seq<T>, p2: seq<T>, child: seq<T>, k: nat, m: T)
    requires SameCities(p1, p2) && GreedyChild(d, p1, p2, child) && k + 1 < |child|
    requires Adjacent(p1, p2, child[k], m) && m !in child[..k + 1]
    ensures Adjacent(p1, p2, child[k], child[k + 1])
    ensures d(child[k], child[k + 1]) <= d(child[k], m)
  {
    var done := child[..k + 1];
    assert GreedyStep(d, p1, p2, done, child[k + 1]);
    assert child[k] in p1 && child[k] in p2;
    var i1 :| 0 <= i1 < |p1| && p1[i1] == child[k];
    var i2 :| 0 <= i2 < |p2| && p2[i2] == child[k];
    BestNeighbourIsNearest(d, done, p1, i1, p2, i2);
    if exists i :: 0 <= i < |p1| && p1[i] == child[k] && IsNeighbour(p1, i, m) {
      var i :| 0 <= i < |p1| && p1[i] == child[k] && IsNeighbour(p1, i, m);
      SamePlace(p1, i, i1);
    } else {
      var i :| 0 <= i < |p2| && p2[i] == child[k] && IsNeighbour(p2, i, m);
      SamePlace(p2, i, i2);
    }
  }

  /** The cities looked at from the current one, in this order: its neighbours in the second parent, then in the first. */
  function Candidates<T>(p1: seq<T>, i1: nat, p2: seq<T>, i2: nat): (c: seq<T>)
    requires i1 < |p1| && i2 < |p2|
    ensures |c| == 4
  {
    [if i2 > 0 then p2[i2 - 1] else p2[|p2| - 1], if i2 < |p2| - 1 then p2[i2 + 1] else p2[0],
     if i1 > 0 then p1[i1 - 1] else p1[|p1| - 1], if i1 < |p1| - 1 then p1[i1 + 1] else p1[0]]
  }

  /** The child goes on to the first of the nearest unvisited candidates: an earlier one wins a tie. */
  lemma FirstNearestWins<T(!new)>(d: Distance<T>, p1: seq<T>, i1: nat, p2: seq<T>, i2: nat, child: seq<T>, k: nat, x: nat)
    requires SameCities(p1, p2) && GreedyChild(d, p1, p2, child) && k + 1 < |child|
    requires i1 < |p1| && i2 < |p2| && p1[i1] == p2[i2] == child[k]
    requires var c, cur := Candidates(p1, i1, p2, i2), child[k];
             && x < 4 && c[x] !in child[..k + 1]
             && (forall y :: 0 <= y < 4 && c[y] !in child[..k + 1] ==> d(cur, c[x]) <= d(cur, c[y]))
             && (forall y :: 0 <= y < x && c[y] !in child[..k + 1] ==> d(cur, c[x]) < d(cur, c[y]))
    ensures child[k + 1] == Candidates(p1, i1, p2, i2)[x]
  {
    var c, done := Candidates(p1, i1, p2, i2), child[..k + 1];
    assert GreedyStep(d, p1, p2, done, child[k + 1]);
    FirstIsBest(d, done, p1, i1, p2, i2, x);
  }

  lemma FirstIsBest<T>(d: Distance<T>, done: seq<T>, p1: seq<T>, i1: nat, p2: seq<T>, i2: nat, x: nat)
    requires i1 < |p1| && i2 < |p2|
    requires var c, cur := Candidates(p1, i1, p2, i2), p1[i1];
             && x < 4 && c[x] !in done
             && (forall y :: 0 <= y < 4 && c[y] !in done ==> d(cur, c[x]) <= d(cur, c[y]))
             && (forall y :: 0 <= y < x && c[y] !in done ==> d(cur, c[x]) < d(cur, c[y]))
    ensures BestNeighbour(d, done, p1, i1, p2, i2) == Some(Candidates(p1, i1, p2, i2)[x])
  {
    var c, cur := Candidates(p1, i1, p2, i2), p1[i1];
    var b1 := Selected(d, cur, None, c[0], c[0] in done);
    var b2 := Selected(d, cur, b1, c[1], c[1] in done);
    var b3 := Selected(d, cur, b2, c[2], c[2] in done);
    assert BestNeighbour(d, done, p1, i1, p2, i2) == Selected(d, cur, b3, c[3], c[3] in done);
  }

  // ---------------------------------------------------------------- a shared tour survives

  /** Place `k` steps from place `a`, forwards or backwards round the tour. */
  function Place(n: nat, a: nat, forward: bool, k: nat): (p: nat)
    requires a < n && k < n
    ensures p < n
  {
    if forward then Ring(n, a, k) else if k <= a then a - k else a - k + n
  }

  /** The first `k` cities of `x` follow the tour `p` from place `a` on. */
  ghost predicate Follows<T>(x: seq<T>, k: nat, p: seq<T>, a: nat, forward: bool) {
    a < |p| && k <= |x| && k <= |p| && forall j :: 0 <= j < k ==> x[j] == p[Place(|p|, a, forward, j)]
  }

  /** `x` is the closed tour `p`, started somewhere and walked in one direction. */
  ghost predicate SameTour<T>(x: seq<T>, p: seq<T>) {
    |x| == |p| && exists a, forward :: 0 <= a < |p| && Follows(x, |p|, p, a, forward)
  }

  lemma PlacesDiffer(n: nat, a: nat, forward: bool, j: nat, k: nat)
    requires a < n && j < k < n
    ensures Place(n, a, forward, j) != Place(n, a, forward, k)
  {
  }

  /** The two neighbours of a place on the walk are the places before and behind it. */
  lemma NeighboursOnWalk(n: nat, a: nat, forward: bool, k: nat)
    requires a < n && 0 < k < n
    ensures var i := Place(n, a, forward, k - 1);
            && Place(n, a, forward, k) == (if forward then After(n, i) else Before(n, i))
            && (k > 1 ==> Place(n, a, forward, k - 2) == if forward then Before(n, i) else After(n, i))
  {
  }

  /** Walking a tour from elsewhere, or backwards, leaves every city its neighbours. */
  lemma SameNeighbours<T>(p1: seq<T>, p2: seq<T>, a: nat, forward: bool, i2: nat, m: T)
    requires |p1| == |p2| && a < |p1| && Follows(p2, |p1|, p1, a, forward) && i2 < |p2| && IsNeighbour(p2, i2, m)
    ensures IsNeighbour(p1, Place(|p1|, a, forward, i2), m)
  {
  }

  /** While the walk is short of the whole tour, the next place is unvisited. */
  lemma NextIsUnvisited<T>(child: seq<T>, k: nat, p: seq<T>, a: nat, forward: bool)
    requires Distinct(p) && Follows(child, k, p, a, forward) && k < |p|
    ensures p[Place(|p|, a, forward, k)] !in child[..k]
  {
    forall j | 0 <= j < k
      ensures child[j] != p[Place(|p|, a, forward, k)]
    {
      PlacesDiffer(|p|, a, forward, j, k);
    }
  }

  lemma SamePlace<T>(p: seq<T>, i: nat, j: nat)
    requires Distinct(p) && i < |p| && j < |p| && p[i] == p[j]
    ensures i == j
  {
  }

  /** With a shared tour, standing next to a city in either parent is standing next to it on the tour. */
  lemma AdjacentOnTour<T(!new)>(p1: seq<T>, p2: seq<T>, i1: nat, m: T)
    requires SameCities(p1, p2) && SameTour(p2, p1) && i1 < |p1| && Adjacent(p1, p2, p1[i1], m)
    ensures IsNeighbour(p1, i1, m)
  {
    var b, f :| 0 <= b < |p1| && Follows(p2, |p1|, p1, b, f);
    if exists i :: 0 <= i < |p2| && p2[i] == p1[i1] && IsNeighbour(p2, i, m) {
      var i :| 0 <= i < |p2| && p2[i] == p1[i1] && IsNeighbour(p2, i, m);
      SameNeighbours(p1, p2, b, f, i, m);
      SamePlace(p1, Place(|p1|, b, f, i), i1);
    } else {
      var i :| 0 <= i < |p1| && p1[i] == p1[i1] && IsNeighbour(p1, i, m);
      SamePlace(p1, i, i1);
    }
  }

  /** One step on an arc: an unvisited neighbour in the shared tour is the only kind of place to go. */
  lemma StepStaysOnTour<T(!new)>(d: Distance<T>, p1: seq<T>, p2: seq<T>, child: seq<T>, k: nat, a: nat, forward: bool)
    requires SameCities(p1, p2) && SameTour(p2, p1) && GreedyChild(d, p1, p2, child)
    requires 0 < k < |child| && k < |p1| && Follows(child, k, p1, a, forward)
    ensures IsNeighbour(p1, Place(|p1|, a, forward, k - 1), child[k])
  {
    var i1, next := Place(|p1|, a, forward, k - 1), p1[Place(|p1|, a, forward, k)];
    NeighboursOnWalk(|p1|, a, forward, k);
    NextIsUnvisited(child, k, p1, a, forward);
    assert IsNeighbour(p1, i1, next) && p1[i1] == child[k - 1];
    EveryEdgeIsGreedy(d, p1, p2, child, k - 1, next);
    AdjacentOnTour(p1, p2, i1, child[k]);
  }

  lemma {:induction false} WalkIsArc<T(!new)>(d: Distance<T>, p1: seq<T>, p2: seq<T>, child: seq<T>, k: nat) returns (a: nat, forward: bool)
    requires SameCities(p1, p2) && SameTour(p2, p1) && GreedyChild(d, p1, p2, child)
    requires 0 < k <= |child| == |p1|
    ensures Follows(child, k, p1, a, forward)
  {
    if k == 1 {
      assert child[0] in p1;
      a :| 0 <= a < |p1| && p1[a] == child[0];
      forward := true;
    } else {
      a, forward := WalkIsArc(d, p1, p2, child, k - 1);
      StepStaysOnTour(d, p1, p2, child, k - 1, a, forward);
      NeighboursOnWalk(|p1|, a, forward, k - 1);
      if k == 2 {
        forward := child[1] == p1[After(|p1|, a)];
      } else {
        var behind := p1[Place(|p1|, a, forward, k - 3)];
        assert child[k - 3] == behind;
      }
    }
  }

  /**
   Crossing a tour with any rotation or reflection of itself gives that tour again, for every
   distance function and every random choice.
   */
  lemma SharedTourSurvives<T(!new)>(d: Distance<T>, p1: seq<T>, p2: seq<T>, child: seq<T>)
    requires SameCities(p1, p2) && SameTour(p2, p1) && GreedyChild(d, p1, p2, child)
    ensures SameTour(child, p1)
  {
    GreedyChildIsPermutation(d, p1, p2, child);
    var a, forward := WalkIsArc(d, p1, p2, child, |child|);
  }
}
