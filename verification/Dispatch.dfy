/**
 Sharing the stops among the vehicles (TSP/TspView.cpp:703-798): the scan writes its groups into
 two fixed-size arrays, and a feedback loop moves the average pay until the scan leaves exactly
 one group per vehicle.
 */
module Dispatch {
  import opened LoadBalance

  /** The size of `nVehicleFlg` and `nVehiclePay`. */
  const CELLS: nat := 512

  /** The value of `nLoopCnt` at which the search gives up. */
  const LAST_LOOP: nat := 130

  // ---------------------------------------------------------------- what a pass writes

  ghost predicate FlagsHold(closed: seq<nat>, flg: seq<int>)
    requires |closed| <= |flg|
  {
    forall k :: 0 <= k < |closed| ==> flg[k] + 1 == closed[k]
  }

  ghost predicate PaysHold(pays: seq<int>, closed: seq<nat>, pay: seq<int>)
    requires Contiguous(pays, closed) && |closed| <= |pay|
  {
    forall k {:trigger Start(closed, k)} :: 0 <= k < |closed| ==> pay[k] == Sum(pays, Start(closed, k), closed[k])
  }

  ghost predicate Untouched(from: nat, now: seq<int>, before: seq<int>)
    requires |now| == |before|
  {
    forall k :: from <= k < |now| ==> now[k] == before[k]
  }

  /** How many cells the pass has written: one per closed group, one more when the open group has a stop. */
  function Written(s: Scan): nat {
    if s.inner > 0 then |s.closed| + 1 else |s.closed|
  }

  /** The two arrays hold the scan; the cells it has not reached still hold what they held before. */
  ghost predicate Recorded(pays: seq<int>, s: Scan, n: nat, flg: seq<int>, pay: seq<int>, oldFlg: seq<int>, oldPay: seq<int>)
    requires n <= |pays| && |flg| == |pay| == |oldFlg| == |oldPay| == CELLS
  {
    && Written(s) <= n <= CELLS
    && Contiguous(pays, s.closed)
    && FlagsHold(s.closed, flg)
    && PaysHold(pays, s.closed, pay)
    && (s.inner > 0 ==> flg[|s.closed|] == n - 1 && pay[|s.closed|] == s.tmp)
    && Untouched(Written(s), flg, oldFlg)
    && Untouched(Written(s), pay, oldPay)
  }

  /** Writing the next stop into the current cell keeps the record. */
  lemma RecordStep(pays: seq<int>, avg: int, i: nat, flg: seq<int>, pay: seq<int>, oldFlg: seq<int>, oldPay: seq<int>)
    requires i < |pays| <= CELLS && |flg| == |pay| == |oldFlg| == |oldPay| == CELLS
    requires Recorded(pays, Run(pays, avg, i), i, flg, pay, oldFlg, oldPay)
    ensures var s := Run(pays, avg, i);
            var cell := |s.closed|;
            && cell < CELLS
            && Recorded(pays, Run(pays, avg, i + 1), i + 1, flg[cell := i], pay[cell := s.tmp + pays[i]], oldFlg, oldPay)
  {
    RunShape(pays, avg, i);
    RunShape(pays, avg, i + 1);
    var s, t := Run(pays, avg, i), Run(pays, avg, i + 1);
    var cell := |s.closed|;
    GroupsAreCounted(pays, s.closed, cell);
    GroupsAreCounted(pays, t.closed, |t.closed|);
    PaysStep(pays, s.closed, t.closed, pay, pay[cell := s.tmp + pays[i]]);
  }

  lemma PaysStep(pays: seq<int>, before: seq<nat>, after: seq<nat>, pay: seq<int>, pay': seq<int>)
    requires Contiguous(pays, before) && Contiguous(pays, after) && |before| < |pay| == |pay'|
    requires before <= after && |after| <= |before| + 1
    requires PaysHold(pays, before, pay) && pay'[..|before|] == pay[..|before|]
    requires |after| > |before| ==> Start(after, |before|) < after[|before|] && pay'[|before|] == Sum(pays, Start(after, |before|), after[|before|])
    ensures PaysHold(pays, after, pay')
  {
    forall k {:trigger Start(after, k)} | 0 <= k < |after|
      ensures pay'[k] == Sum(pays, Start(after, k), after[k])
    {
      if k < |before| {
        assert Start(after, k) == Start(before, k) && pay'[k] == pay'[..|before|][k] == pay[k];
      }
    }
  }

  // ---------------------------------------------------------------- what an accepted pass means

  /** First stop of vehicle `j`, from the flags (TSP/TspView.cpp:841, 895). */
  function From(flg: seq<int>, j: nat): int
    requires j < |flg|
  {
    if j == 0 then 0 else flg[j - 1] + 1
  }

  /** The first `vehicles` flags cut the stops 0..n-1 into nonempty contiguous groups. */
  ghost predicate CutsStops(flg: seq<int>, vehicles: nat, n: nat)
    requires vehicles <= |flg|
  {
    && vehicles > 0
    && flg[vehicles - 1] == n - 1
    && (forall j {:trigger From(flg, j)} :: 0 <= j < vehicles ==> 0 <= From(flg, j) <= flg[j] < n)
    && (forall i, j :: 0 <= i < j < vehicles ==> flg[i] < flg[j])
  }

  /** A closed group: it holds at most 11 stops, is full, and only its last stop made it so. */
  ghost predicate ClosedGroup(pays: seq<int>, avg: int, flg: seq<int>, pay: seq<int>, j: nat)
    requires j < |flg| == |pay| && 0 <= From(flg, j) <= flg[j] < |pays|
  {
    var from, size := From(flg, j), flg[j] + 1 - From(flg, j);
    && pay[j] == Sum(pays, from, flg[j] + 1)
    && size <= 11
    && (size == 11 || pay[j] > avg)
    && (size > 1 ==> pay[j] - pays[flg[j]] <= avg)
  }

  /** The last vehicle's group: it never closed, and it is worth something. */
  ghost predicate OpenGroup(pays: seq<int>, avg: int, flg: seq<int>, pay: seq<int>, j: nat)
    requires j < |flg| == |pay| && 0 <= From(flg, j) <= flg[j] < |pays|
  {
    && pay[j] == Sum(pays, From(flg, j), flg[j] + 1)
    && flg[j] + 1 - From(flg, j) <= 10
    && 0 < pay[j] <= avg
  }

  function Total(pay: seq<int>, vehicles: nat): int
    requires vehicles <= |pay|
  {
    if vehicles == 0 then 0 else Total(pay, vehicles - 1) + pay[vehicles - 1]
  }

  /** What an accepted pass leaves behind for the later steps. */
  ghost predicate ExactSplit(pays: seq<int>, vehicles: int, avg: int, flg: seq<int>, pay: seq<int>) {
    && 1 <= vehicles <= |flg| == |pay|
    && CutsStops(flg, vehicles, |pays|)
    && (forall j {:trigger From(flg, j)} :: 0 <= j < vehicles - 1 ==> ClosedGroup(pays, avg, flg, pay, j))
    && OpenGroup(pays, avg, flg, pay, vehicles - 1)
    && Total(pay, vehicles) == Sum(pays, 0, |pays|)
  }

  /** The stops can be shared exactly at this average, one group per vehicle. */
  ghost predicate Splittable(pays: seq<int>, vehicles: int, avg: int) {
    exists flg, pay :: ExactSplit(pays, vehicles, avg, flg, pay)
  }

  lemma {:induction false} EndsIncrease(pays: seq<int>, cuts: seq<nat>, i: nat, j: nat)
    requires Contiguous(pays, cuts) && i < j < |cuts|
    ensures cuts[i] < cuts[j]
  {
    assert Start(cuts, j) < cuts[j];
    if i < j - 1 {
      EndsIncrease(pays, cuts, i, j - 1);
    }
  }

  /** The pay cells of contiguous groups add up to the pay of the stops they cover. */
  lemma {:induction false} GroupsAddUp(pays: seq<int>, cuts: seq<nat>, pay: seq<int>, k: nat)
    requires Contiguous(pays, cuts) && k <= |cuts| <= |pay| && PaysHold(pays, cuts, pay)
    ensures Start(cuts, k) <= |pays| && Total(pay, k) == Sum(pays, 0, Start(cuts, k))
  {
    if k > 0 {
      GroupsAddUp(pays, cuts, pay, k - 1);
      assert Start(cuts, k - 1) < cuts[k - 1];
      SumSplits(pays, 0, Start(cuts, k - 1), cuts[k - 1]);
    }
  }

  /** The cells of a closed group hold exactly that group. */
  lemma ClosedGroupMatches(pays: seq<int>, avg: int, closed: seq<nat>, flg: seq<int>, pay: seq<int>, j: nat)
    requires FullSplit(pays, avg, closed) && Tight(pays, avg, closed)
    requires j < |closed| <= |flg| == |pay| && FlagsHold(closed, flg) && PaysHold(pays, closed, pay)
    ensures 0 <= From(flg, j) <= flg[j] < |pays| && ClosedGroup(pays, avg, flg, pay, j)
  {
    var from, to := Start(closed, j), closed[j];
    assert from < to <= |pays| && Full(pays, avg, from, to) && !Full(pays, avg, from, to - 1);
    assert From(flg, j) == from && flg[j] + 1 == to;
  }

  lemma FlagsCut(pays: seq<int>, closed: seq<nat>, flg: seq<int>)
    requires Contiguous(pays, closed) && |closed| < |flg| && FlagsHold(closed, flg)
    requires Start(closed, |closed|) < |pays| && flg[|closed|] == |pays| - 1
    ensures CutsStops(flg, |closed| + 1, |pays|)
  {
    forall j {:trigger From(flg, j)} | 0 <= j <= |closed|
      ensures 0 <= From(flg, j) <= flg[j] < |pays|
    {
      assert From(flg, j) == Start(closed, j);
    }
    forall i, j | 0 <= i < j <= |closed|
      ensures flg[i] < flg[j]
    {
      if j < |closed| {
        EndsIncrease(pays, closed, i, j);
      } else if i < j - 1 {
        EndsIncrease(pays, closed, i, j - 1);
      }
    }
  }

  /** Arrays that hold the scan of an accepted average hold an exact split. */
  lemma HeldIsExact(pays: seq<int>, vehicles: int, avg: int, flg: seq<int>, pay: seq<int>)
    requires NonNegative(pays) && Accepting(pays, vehicles, avg)
    requires var s := Final(pays, avg);
             && |s.closed| < |flg| == |pay| && Contiguous(pays, s.closed) && FlagsHold(s.closed, flg) && PaysHold(pays, s.closed, pay)
             && (s.inner > 0 ==> flg[|s.closed|] == |pays| - 1 && pay[|s.closed|] == s.tmp)
    ensures ExactSplit(pays, vehicles, avg, flg, pay)
  {
    RunShape(pays, avg, |pays|);
    var s := Final(pays, avg);
    var from := Start(s.closed, |s.closed|);
    SumNonNegative(pays, from, |pays|);
    FlagsCut(pays, s.closed, flg);
    forall j | 0 <= j < vehicles - 1
      ensures ClosedGroup(pays, avg, flg, pay, j)
    {
      ClosedGroupMatches(pays, avg, s.closed, flg, pay, j);
    }
    assert From(flg, vehicles - 1) == from;
    GroupsAddUp(pays, s.closed, pay, |s.closed|);
    SumSplits(pays, 0, from, |pays|);
  }

  /** A pass that the feedback accepts leaves an exact split in the arrays. */
  lemma AcceptedIsExact(pays: seq<int>, vehicles: int, avg: int, flg: seq<int>, pay: seq<int>, oldFlg: seq<int>, oldPay: seq<int>)
    requires NonNegative(pays) && |pays| <= CELLS && |flg| == |pay| == |oldFlg| == |oldPay| == CELLS
    requires Recorded(pays, Final(pays, avg), |pays|, flg, pay, oldFlg, oldPay)
    requires Accepting(pays, vehicles, avg)
    ensures ExactSplit(pays, vehicles, avg, flg, pay)
  {
    RunShape(pays, avg, |pays|);
    var s := Final(pays, avg);
    SumNonNegative(pays, Start(s.closed, |s.closed|), |pays|);
    HeldIsExact(pays, vehicles, avg, flg, pay);
  }

  // ---------------------------------------------------------------- every exact split is accepted

  /** One past the last stop of each closed group. */
  function Ends(flg: seq<int>, groups: nat): (cuts: seq<nat>)
    requires groups <= |flg| && forall j :: 0 <= j < groups ==> flg[j] >= 0
    ensures |cuts| == groups && forall j :: 0 <= j < groups ==> cuts[j] == flg[j] + 1
  {
    seq(groups, j requires 0 <= j < groups => flg[j] + 1)
  }

  /** A closed group is full, and only just. */
  lemma ClosedGroupIsFull(pays: seq<int>, avg: int, flg: seq<int>, pay: seq<int>, j: nat)
    requires j < |flg| == |pay| && 0 <= From(flg, j) <= flg[j] < |pays| && ClosedGroup(pays, avg, flg, pay, j)
    ensures Full(pays, avg, From(flg, j), flg[j] + 1) && !Full(pays, avg, From(flg, j), flg[j])
  {
    assert Sum(pays, From(flg, j), flg[j] + 1) == Sum(pays, From(flg, j), flg[j]) + pays[flg[j]];
  }

  lemma SplitIsFull(pays: seq<int>, vehicles: int, avg: int, flg: seq<int>, pay: seq<int>, cuts: seq<nat>)
    requires ExactSplit(pays, vehicles, avg, flg, pay)
    requires |cuts| == vehicles - 1 && forall j :: 0 <= j < vehicles - 1 ==> cuts[j] == flg[j] + 1
    ensures FullSplit(pays, avg, cuts) && Tight(pays, avg, cuts)
    ensures Start(cuts, |cuts|) == From(flg, vehicles - 1) < |pays|
  {
    assert 0 <= From(flg, vehicles - 1) <= flg[vehicles - 1] < |pays|;
    forall k {:trigger Start(cuts, k)} | 0 <= k < |cuts|
      ensures Start(cuts, k) < cuts[k] <= |pays|
      ensures Full(pays, avg, Start(cuts, k), cuts[k]) && !Full(pays, avg, Start(cuts, k), cuts[k] - 1)
    {
      assert Start(cuts, k) == From(flg, k);
      ClosedGroupIsFull(pays, avg, flg, pay, k);
    }
  }

  lemma FlagsAreStops(flg: seq<int>, vehicles: nat, n: nat)
    requires vehicles <= |flg| && CutsStops(flg, vehicles, n)
    ensures forall j :: 0 <= j < vehicles ==> flg[j] >= 0
  {
    forall j | 0 <= j < vehicles
      ensures flg[j] >= 0
    {
      assert 0 <= From(flg, j) <= flg[j];
    }
  }

  /** The feedback accepts every average at which there is an exact split. */
  lemma ExactIsAccepted(pays: seq<int>, vehicles: int, avg: int, flg: seq<int>, pay: seq<int>)
    requires NonNegative(pays) && ExactSplit(pays, vehicles, avg, flg, pay)
    ensures Accepting(pays, vehicles, avg)
  {
    FlagsAreStops(flg, vehicles, |pays|);
    var cuts := Ends(flg, vehicles - 1);
    SplitIsFull(pays, vehicles, avg, flg, pay, cuts);
    TailIsPaid(pays, vehicles, avg, flg, pay, cuts);
  }

  lemma TailIsPaid(pays: seq<int>, vehicles: int, avg: int, flg: seq<int>, pay: seq<int>, cuts: seq<nat>)
    requires NonNegative(pays) && FullSplit(pays, avg, cuts) && Tight(pays, avg, cuts)
    requires 0 <= |cuts| == vehicles - 1 < |flg| == |pay| && flg[vehicles - 1] == |pays| - 1
    requires Start(cuts, |cuts|) == From(flg, vehicles - 1) < |pays| && OpenGroup(pays, avg, flg, pay, vehicles - 1)
    ensures Accepting(pays, vehicles, avg)
  {
    ScanIsUnique(pays, avg, cuts);
    RunShape(pays, avg, |pays|);
  }

  /** Acceptance is exactly the existence of an exact split. */
  lemma AcceptedExactly(pays: seq<int>, vehicles: int, avg: int)
    requires NonNegative(pays)
    ensures Accepting(pays, vehicles, avg) <==> Splittable(pays, vehicles, avg)
  {
    if Accepting(pays, vehicles, avg) {
      RunShape(pays, avg, |pays|);
      var s := Final(pays, avg);
      var n := |s.closed|;
      var flg := seq(n + 1, k requires 0 <= k <= n => if k < n then s.closed[k] - 1 else |pays| - 1);
      var pay := seq(n + 1, k requires 0 <= k <= n => if k < n && Start(s.closed, k) <= s.closed[k] <= |pays| then Sum(pays, Start(s.closed, k), s.closed[k]) else s.tmp);
      HeldIsExact(pays, vehicles, avg, flg, pay);
    }
    if Splittable(pays, vehicles, avg) {
      var flg, pay :| ExactSplit(pays, vehicles, avg, flg, pay);
      ExactIsAccepted(pays, vehicles, avg, flg, pay);
    }
  }

  // ---------------------------------------------------------------- the search

  /** Fewer than `c` adjustments away from the start, either way. */
  predicate Within(k: int, c: int) {
    -c < k < c
  }

  /** `c` averages in the direction of the first verdict have been tried, and all got that verdict. */
  ghost predicate Walked(pays: seq<int>, vehicles: int, avg0: int, avg: int, c: nat) {
    var first := VerdictAt(pays, vehicles, avg0);
    && avg == Lattice(avg0, Rank(first) * c)
    && forall i :: 0 <= i < c ==> !first.Accept? && VerdictAt(pays, vehicles, Lattice(avg0, Rank(first) * i)) == first
  }

  /** No average the feedback could ever try is accepted. */
  ghost predicate Hopeless(pays: seq<int>, vehicles: int, avg0: int) {
    forall k :: !Accepting(pays, vehicles, Lattice(avg0, k))
  }

  /** No average within `c` adjustments of the start is accepted. */
  ghost predicate NoneWithin(pays: seq<int>, vehicles: int, avg0: int, c: nat) {
    forall k :: Within(k, c) ==> !Accepting(pays, vehicles, Lattice(avg0, k))
  }

  /** At no average within `c` adjustments of the start can the stops be shared exactly. */
  ghost predicate NoSplitWithin(pays: seq<int>, vehicles: int, avg0: int, c: nat) {
    forall k :: Within(k, c) ==> !Splittable(pays, vehicles, Lattice(avg0, k))
  }

  lemma NoneIsNoSplit(pays: seq<int>, vehicles: int, avg0: int, c: nat)
    requires NonNegative(pays)
    ensures NoneWithin(pays, vehicles, avg0, c) <==> NoSplitWithin(pays, vehicles, avg0, c)
  {
    forall k
      ensures Accepting(pays, vehicles, Lattice(avg0, k)) <==> Splittable(pays, vehicles, Lattice(avg0, k))
    {
      AcceptedExactly(pays, vehicles, Lattice(avg0, k));
    }
  }

  /** After walking `c` adjustments, nothing closer to the start than that is accepted. */
  lemma NothingCloser(pays: seq<int>, vehicles: int, avg0: int, avg: int, c: nat)
    requires NonNegative(pays) && Walked(pays, vehicles, avg0, avg, c)
    ensures NoneWithin(pays, vehicles, avg0, c)
  {
    var first := VerdictAt(pays, vehicles, avg0);
    NothingBehind(pays, vehicles, avg0);
    forall k | Within(k, c)
      ensures !Accepting(pays, vehicles, Lattice(avg0, k))
    {
      var tried := if k < 0 then -k else k;
      assert VerdictAt(pays, vehicles, Lattice(avg0, Rank(first) * tried)) == first;
    }
  }

  /** A rejected pass either continues the walk or shows that the search cannot succeed. */
  lemma Rejected(pays: seq<int>, vehicles: int, avg0: int, avg: int, c: nat)
    requires NonNegative(pays) && Walked(pays, vehicles, avg0, avg, c)
    requires !Accepting(pays, vehicles, avg)
    ensures Walked(pays, vehicles, avg0, Lattice(avg, Rank(VerdictAt(pays, vehicles, avg))), c + 1) || Hopeless(pays, vehicles, avg0)
  {
    var first, now := VerdictAt(pays, vehicles, avg0), VerdictAt(pays, vehicles, avg);
    if now != first {
      TurnedBack(pays, vehicles, avg0, avg, c);
    }
  }

  /** The first rejection that points back: everything lies behind one of the two averages. */
  lemma TurnedBack(pays: seq<int>, vehicles: int, avg0: int, avg: int, c: nat)
    requires NonNegative(pays) && Walked(pays, vehicles, avg0, avg, c)
    requires !Accepting(pays, vehicles, avg) && VerdictAt(pays, vehicles, avg) != VerdictAt(pays, vehicles, avg0)
    ensures Hopeless(pays, vehicles, avg0)
  {
    var first := VerdictAt(pays, vehicles, avg0);
    assert c > 0 && VerdictAt(pays, vehicles, Lattice(avg0, Rank(first) * 0)) == first;
    NothingBehind(pays, vehicles, avg0);
    NothingBehind(pays, vehicles, avg);
    NothingCloser(pays, vehicles, avg0, avg, c);
    forall k
      ensures !Accepting(pays, vehicles, Lattice(avg0, k))
    {
      assert Within(k, c) || Lattice(avg0, k) <= avg0 || Lattice(avg0, k) >= avg0;
    }
  }

  class TspView {
    const pays: seq<int>       // nVehiclePayIndex
    const vehicleNumber: int
    var vehicleFlg: array<int>
    var vehiclePay: array<int>

    ghost predicate Valid()
      reads this
    {
      && vehicleFlg.Length == CELLS && vehiclePay.Length == CELLS && vehicleFlg != vehiclePay
      && NonNegative(pays) && |pays| <= CELLS && vehicleNumber <= CELLS
    }

    /** No stale pay from the last vehicle on. */
    ghost predicate TailIsClear()
      requires Valid()
      reads this, vehiclePay
    {
      forall k :: 0 <= k < CELLS && k >= vehicleNumber - 1 ==> vehiclePay[k] == 0
    }

    constructor (pays: seq<int>, vehicleNumber: int)
      requires NonNegative(pays) && |pays| <= CELLS && vehicleNumber <= CELLS
      ensures Valid() && TailIsClear() && fresh(vehicleFlg) && fresh(vehiclePay)
      ensures this.pays == pays && this.vehicleNumber == vehicleNumber
      ensures vehicleFlg.Length == vehiclePay.Length == 512 && forall k :: 0 <= k < 512 ==> vehicleFlg[k] == 0 && vehiclePay[k] == 0
    {
      this.pays := pays;
      this.vehicleNumber := vehicleNumber;
      vehicleFlg := new int[CELLS](_ => 0);
      vehiclePay := new int[CELLS](_ => 0);
    }

    /** One pass over the stops (TSP/TspView.cpp:733-756). */
    method ScanPass(avg: int) returns (index: nat)
      requires Valid()
      modifies vehicleFlg, vehiclePay
      ensures index == |Final(pays, avg).closed|
      ensures Recorded(pays, Final(pays, avg), |pays|, vehicleFlg[..], vehiclePay[..], old(vehicleFlg[..]), old(vehiclePay[..]))
    {
      ghost var flg0, pay0 := vehicleFlg[..], vehiclePay[..];
      var tmp, inner := 0, 0;
      index := 0;
      for i := 0 to |pays|
        invariant var s := Run(pays, avg, i); index == |s.closed| && tmp == s.tmp && inner == s.inner
        invariant Recorded(pays, Run(pays, avg, i), i, vehicleFlg[..], vehiclePay[..], flg0, pay0)
      {
        RecordStep(pays, avg, i, vehicleFlg[..], vehiclePay[..], flg0, pay0);
        ghost var flg, pay, cell := vehicleFlg[..], vehiclePay[..], index;
        tmp := tmp + pays[i];
        ghost var paid := tmp;
        if inner >= STOP_LIMIT || tmp > avg {
          vehicleFlg[index] := i;
          vehiclePay[index] := tmp;
          tmp := 0;
          index := index + 1;
          inner := 0;
        } else {
          vehicleFlg[index] := i;
          vehiclePay[index] := tmp;
          inner := inner + 1;
        }
        assert vehicleFlg[..] == flg[cell := i] && vehiclePay[..] == pay[cell := paid];
      }
    }

    /** Started on a clear tail, a pass that closes V-1 groups leaves the tail's pay in the last vehicle's cell. */
    lemma LastCell(s: Scan, pay: seq<int>, oldPay: seq<int>, flg: seq<int>, oldFlg: seq<int>)
      requires |flg| == |pay| == |oldFlg| == |oldPay| == CELLS
      requires Recorded(pays, s, |pays|, flg, pay, oldFlg, oldPay)
      requires |s.closed| == vehicleNumber - 1 < CELLS && (s.inner == 0 ==> s.tmp == 0)
      requires forall k :: 0 <= k < CELLS && k >= vehicleNumber - 1 ==> oldPay[k] == 0
      ensures pay[vehicleNumber - 1] == s.tmp
      ensures s.tmp == 0 ==> forall k :: 0 <= k < CELLS && k >= vehicleNumber - 1 ==> pay[k] == 0
    {
    }

    /**
     The feedback loop (TSP/TspView.cpp:731-798). It ends without asking for a re-call exactly
     when the stops can be shared exactly at an average within 129 adjustments of the initial one;
     it then stops at the nearest such average, after that many adjustments, with an exact split in
     the arrays.
     */
    method OnCalcDeliveryData(avg0: int) returns (avg: int, loopCnt: nat, recall: bool)
      requires Valid() && TailIsClear()
      modifies this, vehicleFlg, vehiclePay
      ensures Valid()
      ensures recall <==> NoSplitWithin(pays, vehicleNumber, avg0, 130)
      ensures !recall ==> ExactSplit(pays, vehicleNumber, avg, vehicleFlg[..], vehiclePay[..])
      ensures !recall ==> (avg == avg0 + 2000 * loopCnt || avg == avg0 - 2000 * loopCnt) && NoSplitWithin(pays, vehicleNumber, avg0, loopCnt)
    {
      avg := avg0;
      loopCnt := 0;
      ghost var off, accepted := 0, false;
      while true
        invariant Valid() && TailIsClear()
        invariant vehicleFlg == old(vehicleFlg) || fresh(vehicleFlg)
        invariant vehiclePay == old(vehiclePay) || fresh(vehiclePay)
        invariant !accepted && loopCnt <= LAST_LOOP && avg == Lattice(avg0, off)
        invariant Walked(pays, vehicleNumber, avg0, avg, loopCnt) || Hopeless(pays, vehicleNumber, avg0)
        decreases LAST_LOOP - loopCnt
      {
        ghost var flg0, pay0 := vehicleFlg[..], vehiclePay[..];
        var index := ScanPass(avg);
        ghost var verdict := VerdictAt(pays, vehicleNumber, avg);
        if Walked(pays, vehicleNumber, avg0, avg, loopCnt) && !verdict.Accept? {
          Rejected(pays, vehicleNumber, avg0, avg, loopCnt);
        }
        if index > vehicleNumber - 1 {
          avg := avg + ACCU_PAY;
          vehicleFlg := new int[CELLS](_ => 0);
          vehiclePay := new int[CELLS](_ => 0);
        } else if index < vehicleNumber - 1 {
          avg := avg - ACCU_PAY;
          vehicleFlg := new int[CELLS](_ => 0);
          vehiclePay := new int[CELLS](_ => 0);
        } else {
          RunShape(pays, avg, |pays|);
          LastCell(Final(pays, avg), vehiclePay[..], pay0, vehicleFlg[..], flg0);
          if vehiclePay[index] == 0 {
            avg := avg - ACCU_PAY;
          } else {
            AcceptedIsExact(pays, vehicleNumber, avg, vehicleFlg[..], vehiclePay[..], flg0, pay0);
            accepted := true;
            break;
          }
        }
        off := off + Rank(verdict);
        if loopCnt >= LAST_LOOP {
          break;
        }
        loopCnt := loopCnt + 1;
      }
      recall := loopCnt >= LAST_LOOP;
      SearchIsOver(avg0, avg, off, loopCnt, accepted);
      NoneIsNoSplit(pays, vehicleNumber, avg0, LAST_LOOP);
      NoneIsNoSplit(pays, vehicleNumber, avg0, loopCnt);
    }

    /** What either way out of the loop says about the averages. */
    lemma SearchIsOver(avg0: int, avg: int, off: int, loopCnt: nat, accepted: bool)
      requires NonNegative(pays) && loopCnt <= LAST_LOOP && avg == Lattice(avg0, off)
      requires Walked(pays, vehicleNumber, avg0, avg, if accepted then loopCnt else loopCnt + 1) || Hopeless(pays, vehicleNumber, avg0)
      requires accepted ==> Accepting(pays, vehicleNumber, avg)
      requires !accepted ==> loopCnt == LAST_LOOP
      ensures loopCnt == LAST_LOOP <==> NoneWithin(pays, vehicleNumber, avg0, LAST_LOOP)
      ensures accepted ==> (avg == Lattice(avg0, loopCnt) || avg == Lattice(avg0, 0 - loopCnt)) && NoneWithin(pays, vehicleNumber, avg0, loopCnt)
    {
      var tried := if accepted then loopCnt else loopCnt + 1;
      if Walked(pays, vehicleNumber, avg0, avg, tried) {
        NothingCloser(pays, vehicleNumber, avg0, avg, tried);
        assert accepted ==> Accepting(pays, vehicleNumber, Lattice(avg0, off)) && Within(off, loopCnt + 1);
        assert !accepted ==> forall k :: Within(k, LAST_LOOP) ==> Within(k, tried);
      } else {
        assert !Accepting(pays, vehicleNumber, Lattice(avg0, off));
      }
    }
  }
}
