/**
 Sets of values paired with their inverses (`GaMultiValueSet`, TSP/inc/ValueSets.h:232-463). With
 `viceVersa` the inverses count as members too, and inversion must be its own inverse.
 */
module ValueSets {

  datatype Option<T> = None | Some(value: T)

  /** The state of a set: two parallel vectors. */
  datatype Pairs<T> = Pairs(viceVersa: bool, values: seq<T>, inverted: seq<T>)

  /** First place of `v` in `s`, or -1. */
  function IndexIn<T(==)>(s: seq<T>, v: T): (i: int)
    ensures -1 <= i < |s|
    ensures if v in s then i >= 0 && s[i] == v && v !in s[..i] else i == -1
  {
    if s == [] then -1 else
      var i := IndexIn(s[..|s| - 1], v);
      if i >= 0 then i else if s[|s| - 1] == v then |s| - 1 else -1
  }

  predicate Member<T(==)>(p: Pairs<T>, v: T) {
    v in p.values || (p.viceVersa && v in p.inverted)
  }

  function InverseOf<T(==)>(p: Pairs<T>, v: T): Option<T>
    requires |p.values| == |p.inverted|
  {
    if v in p.values then Some(p.inverted[IndexIn(p.values, v)])
    else if p.viceVersa && v in p.inverted then Some(p.values[IndexIn(p.inverted, v)])
    else None
  }

  function Added<T(==)>(p: Pairs<T>, original: T, inverse: T): Pairs<T> {
    if Member(p, original) || (p.viceVersa && Member(p, inverse)) then p
    else p.(values := p.values + [original], inverted := p.inverted + [inverse])
  }

  /** Single additions, from the last pair down to the first. */
  function AddedAll<T(==)>(p: Pairs<T>, originals: seq<T>, inverses: seq<T>): Pairs<T>
    requires |originals| == |inverses|
    decreases |originals|
  {
    if originals == [] then p else
      var last := |originals| - 1;
      AddedAll(Added(p, originals[last], inverses[last]), originals[..last], inverses[..last])
  }

  function RemovedAt<T>(p: Pairs<T>, i: int): Pairs<T>
    requires |p.values| == |p.inverted|
  {
    if 0 <= i < |p.values| then
      p.(values := p.values[..i] + p.values[i + 1..], inverted := p.inverted[..i] + p.inverted[i + 1..])
    else p
  }

  /** First pair that matches `v`, or -1. */
  predicate Matches<T(==)>(p: Pairs<T>, i: nat, v: T)
    requires i < |p.values| == |p.inverted|
  {
    v == p.values[i] || (p.viceVersa && v == p.inverted[i])
  }

  function MatchOf<T(==)>(p: Pairs<T>, v: T, from: nat): (i: int)
    requires from <= |p.values| == |p.inverted|
    ensures i == -1 || from <= i < |p.values|
    ensures i >= 0 ==> Matches(p, i, v) && forall k :: from <= k < i ==> !Matches(p, k, v)
    ensures i == -1 ==> forall k :: from <= k < |p.values| ==> !Matches(p, k, v)
    decreases |p.values| - from
  {
    if from == |p.values| then -1 else if Matches(p, from, v) then from else MatchOf(p, v, from + 1)
  }

  lemma MatchIsFirst<T>(p: Pairs<T>, v: T, i: nat)
    requires i < |p.values| == |p.inverted| && Matches(p, i, v) && forall k :: 0 <= k < i ==> !Matches(p, k, v)
    ensures MatchOf(p, v, 0) == i
  {
    var m := MatchOf(p, v, 0);
    assert m >= 0 && Matches(p, m, v);
  }

  function Removed<T(==)>(p: Pairs<T>, v: T): Pairs<T>
    requires |p.values| == |p.inverted|
  {
    RemovedAt(p, MatchOf(p, v, 0))
  }

  // ---------------------------------------------------------------- the class

  class MultiValueSet<T(==)> {
    const viceVersa: bool
    var values: seq<T>
    var inverted: seq<T>

    ghost predicate Valid()
      reads this
    {
      |values| == |inverted|
    }

    function State(): Pairs<T>
      reads this
    {
      Pairs(viceVersa, values, inverted)
    }

    constructor (viceVersa: bool)
      ensures Valid() && State() == Pairs(viceVersa, [], [])
    {
      this.viceVersa := viceVersa;
      values, inverted := [], [];
    }

    method Inverse(value: T) returns (result: Option<T>)
      requires Valid()
      ensures result == InverseOf(State(), value)
    {
      for pos := 0 to |values|
        invariant value !in values[..pos]
      {
        if value == values[pos] {
          return Some(inverted[pos]);
        }
      }
      if viceVersa {
        for pos := 0 to |inverted|
          invariant value !in inverted[..pos]
        {
          if value == inverted[pos] {
            return Some(values[pos]);
          }
        }
      }
      return None;
    }

    method Belongs(value: T) returns (belongs: bool)
      ensures belongs == Member(State(), value)
    {
      for pos := 0 to |values|
        invariant value !in values[..pos]
      {
        if value == values[pos] {
          return true;
        }
      }
      if viceVersa {
        for pos := 0 to |inverted|
          invariant value !in inverted[..pos]
        {
          if value == inverted[pos] {
            return true;
          }
        }
      }
      return false;
    }

    method Add(original: T, inverse: T) returns (added: bool)
      requires Valid()
      modifies this
      ensures Valid() && State() == Added(old(State()), original, inverse)
      ensures added <==> |values| == |old(values)| + 1
    {
      var refuse := Belongs(original);
      if !refuse && viceVersa {
        refuse := Belongs(inverse);
      }
      if refuse {
        return false;
      }
      values := values + [original];
      inverted := inverted + [inverse];
      return true;
    }

    method AddAll(originals: seq<T>, inverses: seq<T>) returns (added: nat)
      requires Valid() && |originals| == |inverses|
      modifies this
      ensures Valid() && State() == AddedAll(old(State()), originals, inverses)
      ensures added == |values| - |old(values)|
    {
      added := 0;
      assert originals[..|originals|] == originals && inverses[..|inverses|] == inverses;
      for i := |originals| downto 0
        invariant Valid() && |values| == |old(values)| + added
        invariant AddedAll(State(), originals[..i], inverses[..i]) == AddedAll(old(State()), originals, inverses)
      {
        assert originals[..i + 1][..i] == originals[..i] && inverses[..i + 1][..i] == inverses[..i];
        var present := Belongs(originals[i]);
        if !present && viceVersa {
          present := Belongs(inverses[i]);
        }
        if !present {
          values := values + [originals[i]];
          inverted := inverted + [inverses[i]];
          added := added + 1;
        }
      }
    }

    method Remove(value: T)
      requires Valid()
      modifies this
      ensures Valid() && State() == Removed(old(State()), value)
    {
      for i := 0 to |values|
        invariant Valid() && State() == old(State())
        invariant forall k :: 0 <= k < i ==> !Matches(State(), k, value)
      {
        if value == values[i] || (viceVersa && value == inverted[i]) {
          MatchIsFirst(State(), value, i);
          values := values[..i] + values[i + 1..];
          inverted := inverted[..i] + inverted[i + 1..];
          return;
        }
      }
    }

    method RemoveAt(pos: int)
      requires Valid()
      modifies this
      ensures Valid() && State() == RemovedAt(old(State()), pos)
    {
      for i := 0 to |values|
        invariant Valid() && State() == old(State()) && (pos < 0 || i <= pos)
      {
        if i == pos {
          values := values[..i] + values[i + 1..];
          inverted := inverted[..i] + inverted[i + 1..];
          return;
        }
      }
    }
  }

  // ---------------------------------------------------------------- what additions and removals keep

  /** Originals differ; with inverses as members, different pairs share no value at all. */
  ghost predicate Separate<T>(p: Pairs<T>) {
    && |p.values| == |p.inverted|
    && (forall i, j :: 0 <= i < j < |p.values| ==> p.values[i] != p.values[j])
    && (p.viceVersa ==> forall i, j :: 0 <= i < |p.values| && 0 <= j < |p.values| && i != j ==>
         p.values[i] != p.inverted[j] && p.inverted[i] != p.inverted[j])
  }

  lemma AddKeepsSeparate<T>(p: Pairs<T>, original: T, inverse: T)
    requires Separate(p)
    ensures Separate(Added(p, original, inverse))
  {
  }

  lemma {:induction false} AddAllKeepsSeparate<T>(p: Pairs<T>, originals: seq<T>, inverses: seq<T>)
    requires Separate(p) && |originals| == |inverses|
    ensures Separate(AddedAll(p, originals, inverses))
    decreases |originals|
  {
    if originals != [] {
      var last := |originals| - 1;
      AddKeepsSeparate(p, originals[last], inverses[last]);
      AddAllKeepsSeparate(Added(p, originals[last], inverses[last]), originals[..last], inverses[..last]);
    }
  }

  lemma RemoveKeepsSeparate<T>(p: Pairs<T>, i: int)
    requires Separate(p)
    ensures Separate(RemovedAt(p, i))
  {
    if 0 <= i < |p.values| {
      RemovedCells(p, i);
    }
  }

  datatype Change<T> = AddOne(original: T, inverse: T) | AddMany(pairs: seq<(T, T)>) | RemoveValue(v: T) | RemovePos(pos: int)

  function Firsts<T>(pairs: seq<(T, T)>): (r: seq<T>)
    ensures |r| == |pairs|
  {
    seq(|pairs|, i requires 0 <= i < |pairs| => pairs[i].0)
  }

  function Seconds<T>(pairs: seq<(T, T)>): (r: seq<T>)
    ensures |r| == |pairs|
  {
    seq(|pairs|, i requires 0 <= i < |pairs| => pairs[i].1)
  }

  ghost function Built<T>(viceVersa: bool, changes: seq<Change<T>>): (p: Pairs<T>)
    ensures Separate(p) && p.viceVersa == viceVersa
  {
    if changes == [] then Pairs(viceVersa, [], [])
    else
      var p := Built(viceVersa, changes[..|changes| - 1]);
      match changes[|changes| - 1]
      case AddOne(o, i) => AddKeepsSeparate(p, o, i); Added(p, o, i)
      case AddMany(pairs) =>
        AddAllKeepsSeparate(p, Firsts(pairs), Seconds(pairs));
        AddAllKeepsKind(p, Firsts(pairs), Seconds(pairs));
        AddedAll(p, Firsts(pairs), Seconds(pairs))
      case RemoveValue(v) => RemoveKeepsSeparate(p, MatchOf(p, v, 0)); Removed(p, v)
      case RemovePos(pos) => RemoveKeepsSeparate(p, pos); RemovedAt(p, pos)
  }

  lemma {:induction false} AddAllKeepsKind<T>(p: Pairs<T>, originals: seq<T>, inverses: seq<T>)
    requires |originals| == |inverses|
    ensures AddedAll(p, originals, inverses).viceVersa == p.viceVersa
    decreases |originals|
  {
    if originals != [] {
      var last := |originals| - 1;
      AddAllKeepsKind(Added(p, originals[last], inverses[last]), originals[..last], inverses[..last]);
    }
  }

  /** A pair is refused exactly when a value of it is a member already; otherwise it is found, from both sides when inverses count. */
  lemma AddTakesHold<T>(p: Pairs<T>, original: T, inverse: T, v: T)
    requires Separate(p)
    ensures var q, clash := Added(p, original, inverse), Member(p, original) || (p.viceVersa && Member(p, inverse));
            if clash then q == p
            else
              && Member(q, original) && InverseOf(q, original) == Some(inverse)
              && (p.viceVersa ==> InverseOf(q, inverse) == Some(original))
              && (v != original && (p.viceVersa ==> v != inverse) ==> InverseOf(q, v) == InverseOf(p, v))
  {
    if !Member(p, original) && (p.viceVersa ==> !Member(p, inverse)) {
      NewPairIsInverted(p, original, inverse);
      if v != original && (p.viceVersa ==> v != inverse) {
        OthersStayInverted(p, original, inverse, v);
      }
    }
  }

  lemma NewPairIsInverted<T>(p: Pairs<T>, original: T, inverse: T)
    requires Separate(p) && !Member(p, original) && (p.viceVersa ==> !Member(p, inverse))
    ensures var q := Added(p, original, inverse);
            InverseOf(q, original) == Some(inverse) && (p.viceVersa ==> InverseOf(q, inverse) == Some(original))
  {
    var q, n := Added(p, original, inverse), |p.values|;
    assert q.values[n] == original && q.inverted[n] == inverse;
    assert IndexIn(q.values, original) == n;
    if p.viceVersa && inverse != original {
      assert inverse !in q.values && IndexIn(q.inverted, inverse) == n;
    }
  }

  lemma OthersStayInverted<T>(p: Pairs<T>, original: T, inverse: T, v: T)
    requires Separate(p) && v != original && (p.viceVersa ==> v != inverse)
    ensures InverseOf(Added(p, original, inverse), v) == InverseOf(p, v)
  {
    var q := Added(p, original, inverse);
    if q != p {
      assert v in q.values <==> v in p.values;
      assert q.viceVersa ==> (v in q.inverted <==> v in p.inverted);
      assert q.values[..|p.values|] == p.values && q.inverted[..|p.inverted|] == p.inverted;
    }
  }

  /** A longer list is added from its end: first its second part, then its first. */
  lemma {:induction false} AddedFromTheEnd<T>(p: Pairs<T>, firsts: seq<T>, firstInverses: seq<T>, lasts: seq<T>, lastInverses: seq<T>)
    requires |firsts| == |firstInverses| && |lasts| == |lastInverses|
    ensures AddedAll(p, [], []) == p
    ensures |firsts| == 1 ==> AddedAll(p, firsts, firstInverses) == Added(p, firsts[0], firstInverses[0])
    ensures AddedAll(p, firsts + lasts, firstInverses + lastInverses) == AddedAll(AddedAll(p, lasts, lastInverses), firsts, firstInverses)
    decreases |lasts|
  {
    assert |firsts| == 1 ==> firsts[..0] == [] && firstInverses[..0] == [];
    if lasts == [] {
      assert firsts + lasts == firsts && firstInverses + lastInverses == firstInverses;
    } else {
      var n := |lasts| - 1;
      AddedFromTheEnd(Added(p, lasts[n], lastInverses[n]), firsts, firstInverses, lasts[..n], lastInverses[..n]);
      assert (firsts + lasts)[..|firsts + lasts| - 1] == firsts + lasts[..n] && (firstInverses + lastInverses)[..|firstInverses + lastInverses| - 1] == firstInverses + lastInverses[..n];
    }
  }

  // ---------------------------------------------------------------- inversion

  /** On a set built by any additions and removals, inversion is an involution on exactly the members. */
  lemma InverseIsInvolution<T>(changes: seq<Change<T>>, v: T)
    ensures var p := Built(true, changes);
            && (InverseOf(p, v).Some? <==> Member(p, v))
            && (InverseOf(p, v).Some? ==> Member(p, InverseOf(p, v).value) && InverseOf(p, InverseOf(p, v).value) == Some(v))
  {
    var p := Built(true, changes);
    if v in p.values {
      var i := IndexIn(p.values, v);
      var w := p.inverted[i];
      if w in p.values {
        assert IndexIn(p.values, w) == i;
      } else {
        assert IndexIn(p.inverted, w) == i;
      }
    } else if v in p.inverted {
      var i := IndexIn(p.inverted, v);
      assert IndexIn(p.values, p.values[i]) == i;
    }
  }

  /** With `viceVersa` both values of a pair are inverted to each other. */
  lemma PairsAreInverted<T>(changes: seq<Change<T>>, i: nat)
    requires i < |Built(true, changes).values|
    ensures var p := Built(true, changes);
            InverseOf(p, p.values[i]) == Some(p.inverted[i]) && InverseOf(p, p.inverted[i]) == Some(p.values[i])
  {
    var p := Built(true, changes);
    assert IndexIn(p.values, p.values[i]) == i;
    if p.inverted[i] in p.values {
      assert IndexIn(p.values, p.inverted[i]) == i;
    } else {
      assert IndexIn(p.inverted, p.inverted[i]) == i;
    }
  }

  /** Without `viceVersa` only originals can be inverted. */
  lemma OneWayInverse<T>(changes: seq<Change<T>>, v: T)
    ensures var p := Built(false, changes);
            && (InverseOf(p, v).Some? <==> v in p.values)
            && forall i :: 0 <= i < |p.values| && p.values[i] == v ==> InverseOf(p, v) == Some(p.inverted[i])
  {
    var p := Built(false, changes);
    forall i | 0 <= i < |p.values| && p.values[i] == v
      ensures IndexIn(p.values, v) == i
    {
    }
  }

  /** Removing what was just added restores the set, by the original or, when it counts, by the inverse. */
  lemma RemoveUndoesAdd<T>(p: Pairs<T>, original: T, inverse: T)
    requires Separate(p) && Added(p, original, inverse) != p
    ensures Removed(Added(p, original, inverse), original) == p
    ensures p.viceVersa ==> Removed(Added(p, original, inverse), inverse) == p
  {
    var q := Added(p, original, inverse);
    var n := |p.values|;
    MatchIsFirst(q, original, n);
    assert RemovedAt(q, n) == p;
    if p.viceVersa {
      MatchIsFirst(q, inverse, n);
    }
  }

  lemma MemberMatches<T>(p: Pairs<T>, v: T)
    requires |p.values| == |p.inverted|
    ensures Member(p, v) <==> exists k :: 0 <= k < |p.values| && Matches(p, k, v)
  {
    if v in p.values {
      assert Matches(p, IndexIn(p.values, v), v);
    } else if p.viceVersa && v in p.inverted {
      assert Matches(p, IndexIn(p.inverted, v), v);
    }
  }

  /** A value matches one pair at most. */
  lemma OneMatch<T>(p: Pairs<T>, v: T, j: nat, k: nat)
    requires Separate(p) && j < |p.values| && k < |p.values| && Matches(p, j, v) && Matches(p, k, v)
    ensures j == k
  {
  }

  /** A removed value is no longer a member. */
  lemma RemovedIsGone<T>(p: Pairs<T>, v: T)
    requires Separate(p)
    ensures !Member(Removed(p, v), v)
  {
    var i, r := MatchOf(p, v, 0), Removed(p, v);
    MemberMatches(r, v);
    if exists k: nat :: k < |r.values| && Matches(r, k, v) {
      var k: nat :| k < |r.values| && Matches(r, k, v);
      OthersDoNotMatch(p, v, i, k);
    }
  }

  lemma {:induction false} OthersDoNotMatch<T>(p: Pairs<T>, v: T, i: int, k: nat)
    requires Separate(p) && i == MatchOf(p, v, 0) && k < |RemovedAt(p, i).values|
    ensures !Matches(RemovedAt(p, i), k, v)
  {
    if i >= 0 {
      RemovedCells(p, i);
      var j, r := if k < i then k else k + 1, RemovedAt(p, i);
      assert r.values[k] == p.values[j] && r.inverted[k] == p.inverted[j];
      if Matches(p, j, v) {
        OneMatch(p, v, i, j);
      }
    }
  }

  /** Removing a value takes its own pair and no other. */
  lemma RemoveTakesOnePair<T>(p: Pairs<T>, v: T, j: nat)
    requires Separate(p) && j < |p.values|
    ensures Matches(p, j, v) ==> p.values[j] !in Removed(p, v).values
    ensures !Matches(p, j, v) ==> exists k :: 0 <= k < |Removed(p, v).values| && Removed(p, v).values[k] == p.values[j] && Removed(p, v).inverted[k] == p.inverted[j]
  {
    var i, r := MatchOf(p, v, 0), Removed(p, v);
    if Matches(p, j, v) {
      OneMatch(p, v, i, j);
      RemovedCells(p, i);
    } else if i < 0 {
      assert r.values[j] == p.values[j] && r.inverted[j] == p.inverted[j];
    } else {
      var k := if j < i then j else j - 1;
      assert r.values[k] == p.values[j] && r.inverted[k] == p.inverted[j];
    }
  }

  /** A place outside the set is left alone. */
  lemma NothingRemovedOutside<T>(p: Pairs<T>, i: int)
    requires |p.values| == |p.inverted| && !(0 <= i < |p.values|)
    ensures RemovedAt(p, i) == p
  {
  }

  /** What removing pair `i` leaves in each place. */
  lemma RemovedCells<T>(p: Pairs<T>, i: nat)
    requires i < |p.values| == |p.inverted|
    ensures var r := RemovedAt(p, i);
            && |r.values| == |r.inverted| == |p.values| - 1
            && forall k {:trigger r.values[k]} {:trigger r.inverted[k]} :: 0 <= k < |r.values| ==>
                 var j := if k < i then k else k + 1; r.values[k] == p.values[j] && r.inverted[k] == p.inverted[j]
  {
  }

  // ---------------------------------------------------------------- the nearest value

  function Gap(a: int, b: int): nat {
    if a < b then b - a else a - b
  }

  ghost predicate Nearest(value: int, c: int, members: seq<int>) {
    forall i :: 0 <= i < |members| ==> Gap(value, c) <= Gap(value, members[i])
  }

  /** The second loop compares a distance with a value: not with the distance of the best one so far. */
  function AfterInverses(value: int, closest: int, inverted: seq<int>): int {
    if inverted == [] then closest else
      var before := AfterInverses(value, closest, inverted[..|inverted| - 1]);
      if Gap(value, inverted[|inverted| - 1]) < before then inverted[|inverted| - 1] else before
  }

  /** The first original is not compared with the value, so the second loop may leave it even when it is the value. */
  method ClosestValue(values: seq<int>, inverted: seq<int>, viceVersa: bool, value: int) returns (closest: int)
    requires values != []
    ensures if !viceVersa then closest in values && Nearest(value, closest, values)
            else if value in values[1..] || value in inverted then closest == value
            else exists c :: c in values && Nearest(value, c, values) && closest == AfterInverses(value, c, inverted)
  {
    closest := values[0];
    var diff := if value < values[0] then values[0] - value else value - values[0];
    for i := 1 to |values|
      invariant closest in values && diff == Gap(value, closest) && value !in values[1..i]
      invariant forall k :: 0 <= k < i ==> diff <= Gap(value, values[k])
    {
      if value == values[i] {
        return value;
      }
      var d := if value > values[i] then value - values[i] else values[i] - value;
      if d < diff {
        closest := values[i];
        diff := d;
      }
    }
    if viceVersa {
      ghost var c := closest;
      for i := 0 to |inverted|
        invariant value !in inverted[..i] && closest == AfterInverses(value, c, inverted[..i])
      {
        assert inverted[..i + 1][..i] == inverted[..i];
        if value == inverted[i] {
          return value;
        } else if value > inverted[i] {
          if value - inverted[i] < closest {
            closest := inverted[i];
          }
        } else {
          if inverted[i] - value < closest {
            closest := inverted[i];
          }
        }
      }
      assert inverted[..|inverted|] == inverted;
    }
  }

  /** The last inverse the second loop went to, or -1. */
  lemma {:induction false} LastTaken(value: int, c: int, inverted: seq<int>) returns (l: int)
    ensures -1 <= l < |inverted| && AfterInverses(value, c, inverted) == if l < 0 then c else inverted[l]
    ensures forall k :: l < k < |inverted| ==> Gap(value, inverted[k]) >= AfterInverses(value, c, inverted)
  {
    l := -1;
    if inverted != [] {
      var before := inverted[..|inverted| - 1];
      l := LastTaken(value, c, before);
      if Gap(value, inverted[|before|]) < AfterInverses(value, c, before) {
        l := |before|;
      }
    }
  }

  lemma {:induction false} NothingTaken(value: int, c: int, inverted: seq<int>)
    requires forall k :: 0 <= k < |inverted| ==> Gap(value, inverted[k]) >= c
    ensures AfterInverses(value, c, inverted) == c
  {
    if inverted != [] {
      NothingTaken(value, c, inverted[..|inverted| - 1]);
    }
  }

  lemma {:induction false} TakenStays(value: int, c: int, inverted: seq<int>, j: nat)
    requires j < |inverted| && Gap(value, inverted[j]) < AfterInverses(value, c, inverted[..j])
    requires forall k :: j < k < |inverted| ==> Gap(value, inverted[k]) >= inverted[j]
    ensures AfterInverses(value, c, inverted) == inverted[j]
  {
    var before := inverted[..|inverted| - 1];
    if j < |before| {
      assert before[..j] == inverted[..j];
      TakenStays(value, c, before, j);
    }
  }

  /**
   An original nearer than all inverses is found if and only if no inverse's distance is below the
   original itself. The value may even be that original.
   */
  lemma OriginalIsFound(value: int, c: int, inverted: seq<int>)
    requires forall k :: 0 <= k < |inverted| ==> Gap(value, c) < Gap(value, inverted[k])
    ensures AfterInverses(value, c, inverted) == c <==> forall k :: 0 <= k < |inverted| ==> Gap(value, inverted[k]) >= c
  {
    var l := LastTaken(value, c, inverted);
    if forall k :: 0 <= k < |inverted| ==> Gap(value, inverted[k]) >= c {
      NothingTaken(value, c, inverted);
    }
  }

  /** Nothing behind position `j` of the inverses has a distance below `c`. */
  ghost predicate Kept(value: int, c: int, inverted: seq<int>, j: int)
    requires -1 <= j
  {
    forall k :: j < k < |inverted| ==> Gap(value, inverted[k]) >= c
  }

  /**
   When the smallest distance is below every member, the second loop goes to every nearest inverse.
   Then a nearest member is found if and only if one is not left again: the nearest original for no
   inverse, or a nearest inverse for no later one.
   */
  lemma NearestIsFound(value: int, c: int, values: seq<int>, inverted: seq<int>, nearest: int)
    requires c in values && Nearest(value, c, values)
    requires nearest in values + inverted && Nearest(value, nearest, values + inverted)
    requires forall i :: 0 <= i < |values + inverted| ==> Gap(value, nearest) < (values + inverted)[i]
    ensures Nearest(value, AfterInverses(value, c, inverted), values + inverted)
       <==> (Nearest(value, c, values + inverted) && Kept(value, c, inverted, -1))
            || exists j :: 0 <= j < |inverted| && Nearest(value, inverted[j], values + inverted) && Kept(value, inverted[j], inverted, j)
  {
    var all := values + inverted;
    var l := LastTaken(value, c, inverted);
    if Nearest(value, c, all) && Kept(value, c, inverted, -1) {
      NothingTaken(value, c, inverted);
    }
    forall j | 0 <= j < |inverted| && Nearest(value, inverted[j], all) && Kept(value, inverted[j], inverted, j)
      ensures AfterInverses(value, c, inverted) == inverted[j]
    {
      var m := LastTaken(value, c, inverted[..j]);
      var y :| 0 <= y < |values| && values[y] == c;
      var i := if m < 0 then y else |values| + m;
      var x :| 0 <= x < |all| && all[x] == nearest;
      assert all[i] == AfterInverses(value, c, inverted[..j]);
      assert Gap(value, inverted[j]) <= Gap(value, all[x]);
      TakenStays(value, c, inverted, j);
    }
  }

  /** A member that is not its own closest value: the set {5} with inverse 3 gives 3 for 5. */
  lemma ClosestToMemberIsAnother()
    ensures AfterInverses(5, 5, [3]) == 3
  {
    assert [3][..0] == [];
  }
}
