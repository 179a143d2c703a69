/**
 The greedy scan that cuts a route into one contiguous group of stops per vehicle
 (TSP/TspView.cpp:733-756), and the theory behind the feedback on the average pay: the scan
 stays ahead of every other split, hence the number of groups and the pay left in the open tail
 only ever fall when the average rises.
 */
module LoadBalance {

  /** A group already holding this many stops is closed by the next one. */
  const STOP_LIMIT: nat := 10

  /** How far one adjustment moves the average. */
  const ACCU_PAY := 2000

  ghost predicate NonNegative(pays: seq<int>) {
    forall i :: 0 <= i < |pays| ==> pays[i] >= 0
  }

  /** Pay of the stops in [lo, hi). */
  function Sum(pays: seq<int>, lo: nat, hi: nat): int
    requires lo <= hi <= |pays|
  {
    if lo == hi then 0 else Sum(pays, lo, hi - 1) + pays[hi - 1]
  }

  /**
   The scan's state: one past the last stop of each closed group (`nVehicleFlg` + 1), the pay
   (`nTmp`) and the number of stops (`nInnerIndex`) of the group still open.
   */
  datatype Scan = Scan(closed: seq<nat>, tmp: int, inner: nat)

  function Step(s: Scan, pays: seq<int>, avg: int, i: nat): Scan
    requires i < |pays|
  {
    var tmp := s.tmp + pays[i];
    if s.inner >= STOP_LIMIT || tmp > avg then Scan(s.closed + [i + 1], 0, 0)
    else Scan(s.closed, tmp, s.inner + 1)
  }

  /** The scan after the first `n` stops. */
  function Run(pays: seq<int>, avg: int, n: nat): Scan
    requires n <= |pays|
  {
    if n == 0 then Scan([], 0, 0) else Step(Run(pays, avg, n - 1), pays, avg, n - 1)
  }

  function Final(pays: seq<int>, avg: int): Scan {
    Run(pays, avg, |pays|)
  }

  // ---------------------------------------------------------------- splits

  /** Where group `k` of a split starts, when `cuts` lists where the groups end. */
  function Start(cuts: seq<nat>, k: nat): nat
    requires k <= |cuts|
  {
    if k == 0 then 0 else cuts[k - 1]
  }

  /** The stops [lo, hi) are enough to close a group. */
  predicate Full(pays: seq<int>, avg: int, lo: nat, hi: nat)
    requires lo <= hi <= |pays|
  {
    lo < hi && (hi - lo > STOP_LIMIT || Sum(pays, lo, hi) > avg)
  }

  /** `cuts` lists the ends of contiguous nonempty groups covering [0, last cut). */
  ghost predicate Contiguous(pays: seq<int>, cuts: seq<nat>) {
    forall k {:trigger Start(cuts, k)} :: 0 <= k < |cuts| ==> Start(cuts, k) < cuts[k] <= |pays|
  }

  /** A contiguous split all of whose listed groups are full; what follows them is arbitrary. */
  ghost predicate FullSplit(pays: seq<int>, avg: int, cuts: seq<nat>) {
    && Contiguous(pays, cuts)
    && forall k {:trigger Start(cuts, k)} :: 0 <= k < |cuts| ==> Full(pays, avg, Start(cuts, k), cuts[k])
  }

  /** Every listed group stops being full when its last stop is taken away. */
  ghost predicate Tight(pays: seq<int>, avg: int, cuts: seq<nat>)
    requires Contiguous(pays, cuts)
  {
    forall k {:trigger Start(cuts, k)} :: 0 <= k < |cuts| ==> !Full(pays, avg, Start(cuts, k), cuts[k] - 1)
  }

  lemma SumSplits(pays: seq<int>, lo: nat, mid: nat, hi: nat)
    requires lo <= mid <= hi <= |pays|
    ensures Sum(pays, lo, hi) == Sum(pays, lo, mid) + Sum(pays, mid, hi)
  {
  }

  lemma SumNonNegative(pays: seq<int>, lo: nat, hi: nat)
    requires NonNegative(pays) && lo <= hi <= |pays|
    ensures Sum(pays, lo, hi) >= 0
  {
  }

  /** Widening a full range keeps it full, as long as no pay is negative. */
  lemma FullGrows(pays: seq<int>, avg: int, lo: nat, hi: nat, lo': nat, hi': nat)
    requires NonNegative(pays)
    requires lo' <= lo <= hi <= hi' <= |pays|
    requires Full(pays, avg, lo, hi)
    ensures Full(pays, avg, lo', hi')
  {
    SumSplits(pays, lo', lo, hi');
    SumSplits(pays, lo, hi, hi');
    SumNonNegative(pays, lo', lo);
    SumNonNegative(pays, hi, hi');
  }

  /** The closed groups are contiguous, full and tight; the open group is the rest, not yet full. */
  ghost predicate Shape(pays: seq<int>, avg: int, n: nat, s: Scan)
    requires n <= |pays|
  {
    var last := Start(s.closed, |s.closed|);
    && FullSplit(pays, avg, s.closed)
    && Tight(pays, avg, s.closed)
    && last + s.inner == n
    && s.tmp == Sum(pays, last, n)
    && !Full(pays, avg, last, n)
  }

  /** One more full, tight group at the end. */
  lemma CloseGroup(pays: seq<int>, avg: int, cuts: seq<nat>, cut: nat)
    requires FullSplit(pays, avg, cuts) && Tight(pays, avg, cuts)
    requires Start(cuts, |cuts|) < cut <= |pays|
    requires Full(pays, avg, Start(cuts, |cuts|), cut)
    requires !Full(pays, avg, Start(cuts, |cuts|), cut - 1)
    ensures FullSplit(pays, avg, cuts + [cut]) && Tight(pays, avg, cuts + [cut])
  {
    var more := cuts + [cut];
    forall k {:trigger Start(more, k)} | 0 <= k < |more|
      ensures Start(more, k) < more[k] <= |pays|
      ensures Full(pays, avg, Start(more, k), more[k]) && !Full(pays, avg, Start(more, k), more[k] - 1)
    {
      GroupOf(cuts, cut, k);
    }
  }

  /** The groups of a split with one more cut are the old ones and the new one. */
  lemma GroupOf(cuts: seq<nat>, cut: nat, k: nat)
    requires k <= |cuts|
    ensures Start(cuts + [cut], k) == Start(cuts, k)
    ensures (cuts + [cut])[k] == if k < |cuts| then cuts[k] else cut
  {
  }

  /** What the scan has established after `n` stops. */
  lemma {:induction false} RunShape(pays: seq<int>, avg: int, n: nat)
    requires n <= |pays|
    ensures Shape(pays, avg, n, Run(pays, avg, n))
  {
    if n > 0 {
      RunShape(pays, avg, n - 1);
      var s := Run(pays, avg, n - 1);
      if s.inner >= STOP_LIMIT || s.tmp + pays[n - 1] > avg {
        CloseGroup(pays, avg, s.closed, n);
      }
    }
  }

  // ---------------------------------------------------------------- the greedy scan stays ahead

  /**
   Against any split into full groups, however chosen, the scan has closed its k-th group no
   later than the split closes its own.
   */
  lemma {:induction false} StaysAhead(pays: seq<int>, avg: int, cuts: seq<nat>, k: nat)
    requires NonNegative(pays) && FullSplit(pays, avg, cuts) && k < |cuts|
    ensures k < |Final(pays, avg).closed|
    ensures Final(pays, avg).closed[k] <= cuts[k]
  {
    if k > 0 {
      StaysAhead(pays, avg, cuts, k - 1);
    }
    ClosesInTime(pays, avg, cuts, k);
  }

  /** One group of `StaysAhead`: starting no later than the split's group, it closes no later. */
  lemma ClosesInTime(pays: seq<int>, avg: int, cuts: seq<nat>, k: nat)
    requires NonNegative(pays) && FullSplit(pays, avg, cuts) && k < |cuts|
    requires k <= |Final(pays, avg).closed| && Start(Final(pays, avg).closed, k) <= Start(cuts, k)
    ensures k < |Final(pays, avg).closed|
    ensures Final(pays, avg).closed[k] <= cuts[k]
  {
    RunShape(pays, avg, |pays|);
    var closed := Final(pays, avg).closed;
    var from := Start(closed, k);
    assert Full(pays, avg, Start(cuts, k), cuts[k]);
    if k >= |closed| {
      FullGrows(pays, avg, Start(cuts, k), cuts[k], from, |pays|);
      assert false;
    } else if closed[k] > cuts[k] {
      FullGrows(pays, avg, Start(cuts, k), cuts[k], from, closed[k] - 1);
      assert false;
    }
  }

  /** The scan closes as many groups as any split into full groups could. */
  lemma GreedyIsOptimal(pays: seq<int>, avg: int, cuts: seq<nat>)
    requires NonNegative(pays) && FullSplit(pays, avg, cuts)
    ensures |cuts| <= |Final(pays, avg).closed|
  {
    if cuts != [] {
      StaysAhead(pays, avg, cuts, |cuts| - 1);
    }
  }

  /**
   Raising the average delays every closing, so it can only lower the number of closed groups
   and, when that number stays the same, the pay left in the open tail.
   */
  lemma RaisingTheAverage(pays: seq<int>, low: int, high: int)
    requires NonNegative(pays) && low <= high
    ensures var s, t := Final(pays, low), Final(pays, high);
            && |t.closed| <= |s.closed|
            && (forall k :: 0 <= k < |t.closed| ==> s.closed[k] <= t.closed[k])
            && (|s.closed| == |t.closed| ==> t.tmp <= s.tmp)
  {
    RunShape(pays, low, |pays|);
    RunShape(pays, high, |pays|);
    var s, t := Final(pays, low), Final(pays, high);
    assert FullSplit(pays, low, t.closed);
    GreedyIsOptimal(pays, low, t.closed);
    forall k | 0 <= k < |t.closed|
      ensures s.closed[k] <= t.closed[k]
    {
      StaysAhead(pays, low, t.closed, k);
    }
    if |s.closed| == |t.closed| {
      var from, to := Start(s.closed, |s.closed|), Start(t.closed, |t.closed|);
      SumSplits(pays, from, to, |pays|);
      SumNonNegative(pays, from, to);
    }
  }

  /**
   The scan's groups are the only ones that are full, stop being full without their last stop, and
   leave a tail that is not full.
   */
  lemma ScanIsUnique(pays: seq<int>, avg: int, cuts: seq<nat>)
    requires NonNegative(pays) && FullSplit(pays, avg, cuts) && Tight(pays, avg, cuts)
    requires Start(cuts, |cuts|) <= |pays| && !Full(pays, avg, Start(cuts, |cuts|), |pays|)
    ensures Final(pays, avg).closed == cuts
  {
    RunShape(pays, avg, |pays|);
    var closed := Final(pays, avg).closed;
    GreedyIsOptimal(pays, avg, cuts);
    SameEnds(pays, avg, cuts, |cuts|);
    if |closed| > |cuts| {
      var from := Start(closed, |cuts|);
      assert from == Start(cuts, |cuts|) && Full(pays, avg, from, closed[|cuts|]);
      FullGrows(pays, avg, from, closed[|cuts|], from, |pays|);
      assert false;
    }
    forall k | 0 <= k < |cuts|
      ensures closed[k] == cuts[k]
    {
      SameEnds(pays, avg, cuts, k + 1);
    }
  }

  lemma {:induction false} SameEnds(pays: seq<int>, avg: int, cuts: seq<nat>, k: nat)
    requires NonNegative(pays) && FullSplit(pays, avg, cuts) && Tight(pays, avg, cuts) && k <= |cuts|
    ensures k <= |Final(pays, avg).closed| && Start(Final(pays, avg).closed, k) == Start(cuts, k)
  {
    if k > 0 {
      SameEnds(pays, avg, cuts, k - 1);
      StaysAhead(pays, avg, cuts, k - 1);
      RunShape(pays, avg, |pays|);
      var closed, from := Final(pays, avg).closed, Start(cuts, k - 1);
      assert from == Start(closed, k - 1) && Full(pays, avg, from, closed[k - 1]);
      assert !Full(pays, avg, from, cuts[k - 1] - 1);
      if closed[k - 1] < cuts[k - 1] {
        FullGrows(pays, avg, from, closed[k - 1], from, cuts[k - 1] - 1);
        assert false;
      }
    }
  }

  // ---------------------------------------------------------------- the feedback on the average

  /** What one pass tells the feedback loop (TSP/TspView.cpp:758-788). */
  datatype Verdict = TooMany | Accept | TooFew

  /** Judged from the number of closed groups and the pay of the last vehicle. */
  function Judge(groups: nat, lastPay: int, vehicles: int): Verdict {
    if groups > vehicles - 1 then TooMany
    else if groups < vehicles - 1 then TooFew
    else if lastPay == 0 then TooFew
    else Accept
  }

  function VerdictAt(pays: seq<int>, vehicles: int, avg: int): Verdict {
    var s := Final(pays, avg);
    Judge(|s.closed|, s.tmp, vehicles)
  }

  predicate Accepting(pays: seq<int>, vehicles: int, avg: int) {
    VerdictAt(pays, vehicles, avg).Accept?
  }

  /** The averages the feedback can ever try. */
  function Lattice(avg0: int, k: int): int {
    avg0 + 2000 * k
  }

  function Rank(v: Verdict): int {
    match v
    case TooMany => 1
    case Accept => 0
    case TooFew => -1
  }

  /**
   The verdicts are ordered along the averages: "too many" below the accepting band, "too few or
   empty tail" above it. This is what makes stepping in the direction of the verdict sound.
   */
  lemma VerdictsAreOrdered(pays: seq<int>, vehicles: int, low: int, high: int)
    requires NonNegative(pays) && low <= high
    ensures Rank(VerdictAt(pays, vehicles, high)) <= Rank(VerdictAt(pays, vehicles, low))
  {
    RaisingTheAverage(pays, low, high);
    RunShape(pays, high, |pays|);
    var t := Final(pays, high);
    SumNonNegative(pays, Start(t.closed, |t.closed|), |pays|);
  }

  /** On the wrong side of a rejected average nothing is accepted. */
  lemma NothingBehind(pays: seq<int>, vehicles: int, avg: int)
    requires NonNegative(pays)
    ensures VerdictAt(pays, vehicles, avg).TooMany? ==>
              forall a :: a <= avg ==> VerdictAt(pays, vehicles, a).TooMany?
    ensures VerdictAt(pays, vehicles, avg).TooFew? ==>
              forall a :: a >= avg ==> VerdictAt(pays, vehicles, a).TooFew?
  {
    forall a
      ensures VerdictAt(pays, vehicles, avg).TooMany? && a <= avg ==> VerdictAt(pays, vehicles, a).TooMany?
      ensures VerdictAt(pays, vehicles, avg).TooFew? && a >= avg ==> VerdictAt(pays, vehicles, a).TooFew?
    {
      if a <= avg {
        VerdictsAreOrdered(pays, vehicles, a, avg);
      } else {
        VerdictsAreOrdered(pays, vehicles, avg, a);
      }
    }
  }

  /** No intermediate value of a pass leaves [0, total], so 32-bit pays suffice when the total fits. */
  lemma PassStaysInRange(pays: seq<int>, avg: int, n: nat)
    requires NonNegative(pays) && n <= |pays|
    ensures 0 <= Run(pays, avg, n).tmp <= Sum(pays, 0, |pays|)
    ensures |Run(pays, avg, n).closed| <= n
  {
    RunShape(pays, avg, n);
    var s := Run(pays, avg, n);
    var last := Start(s.closed, |s.closed|);
    SumNonNegative(pays, last, n);
    SumSplits(pays, 0, last, |pays|);
    SumSplits(pays, last, n, |pays|);
    SumNonNegative(pays, 0, last);
    SumNonNegative(pays, n, |pays|);
    GroupsAreCounted(pays, s.closed, |s.closed|);
  }

  /** Nonempty groups: at least one stop per group. */
  lemma {:induction false} GroupsAreCounted(pays: seq<int>, cuts: seq<nat>, k: nat)
    requires Contiguous(pays, cuts) && k <= |cuts|
    ensures k <= Start(cuts, k)
  {
    if k > 0 {
      GroupsAreCounted(pays, cuts, k - 1);
    }
  }
}
