/**
 Chromosome codes (TSP/inc/MultiValueChromosome.h): insertion and removal, the block swap with its
 overlap repair, the buffer used to recombine codes, the backup kept during a mutation, and the
 shuffle that makes a first code (TSP/TspAlgorithm.cpp:21-49).
 */
module Chromosomes {

  // ---------------------------------------------------------------- block swap

  /** The blocks v[a..b] and v[c..d] trade places. */
  function Trade<T>(v: seq<T>, a: nat, b: nat, c: nat, d: nat): (w: seq<T>)
    requires a <= b <= c <= d <= |v|
    ensures |w| == |v|
  {
    v[..a] + v[c..d] + v[b..c] + v[a..b] + v[d..]
  }

  /** Where every value goes: the first block to the second's end, the middle shifted, the second to the first's start. */
  lemma TradeAt<T>(v: seq<T>, a: nat, b: nat, c: nat, d: nat, i: nat)
    requires a <= b <= c <= d <= |v| && i < |v|
    ensures Trade(v, a, b, c, d)[i] ==
            if i < a || i >= d then v[i]
            else if i < a + d - c then v[i - a + c]
            else if i < a + d - b then v[i - a - d + c + b]
            else v[i - d + b]
  {
  }

  /** Trading the moved blocks again puts everything back. */
  lemma TradeBack<T>(v: seq<T>, a: nat, b: nat, c: nat, d: nat)
    requires a <= b <= c <= d <= |v|
    ensures Trade(Trade(v, a, b, c, d), a, a + d - c, a + d - b, d) == v
  {
    var w := Trade(v, a, b, c, d);
    forall i | 0 <= i < |v|
      ensures Trade(w, a, a + d - c, a + d - b, d)[i] == v[i]
    {
      TradeAt(w, a, a + d - c, a + d - b, d, i);
      var j := if i < a || i >= d then i else if i < b then i + d - b else if i < c then i - b + a + d - c else i - c + a;
      TradeAt(v, a, b, c, d, j);
    }
  }

  lemma JoinBag<T>(p: seq<T>, q: seq<T>, r: seq<T>)
    ensures multiset(p + q + r) == multiset(p) + multiset(q) + multiset(r)
  {
  }

  lemma TradePermutes<T>(v: seq<T>, a: nat, b: nat, c: nat, d: nat)
    requires a <= b <= c <= d <= |v|
    ensures multiset(Trade(v, a, b, c, d)) == multiset(v)
  {
    var first, middle, second := v[a..b], v[b..c], v[c..d];
    JoinBag(v[..a], first + middle + second, v[d..]);
    JoinBag(v[..a], second + middle + first, v[d..]);
    JoinBag(first, middle, second);
    JoinBag(second, middle, first);
    assert v == v[..a] + (first + middle + second) + v[d..];
    assert Trade(v, a, b, c, d) == v[..a] + (second + middle + first) + v[d..];
  }

  /** The two blocks in the order they start, or nothing when the arguments are refused. */
  datatype Blocks = Refused | Blocks(start1: int, end1: int, start2: int, end2: int)

  function Ordered(n: nat, start1: int, size1: int, start2: int, size2: int): Blocks {
    if start1 < 0 || start1 >= n || start2 < 0 || start2 >= n || size1 <= 0 || size2 <= 0 || start1 == start2 then Refused
    else if start2 < start1 then Blocks(start2, start2 + size2, start1, start1 + size1)
    else Blocks(start1, start1 + size1, start2, start2 + size2)
  }

  /** An overlapping second block is cut off where the first one ends. */
  function Repaired(b: Blocks): Blocks {
    if b.Blocks? && b.end1 >= b.start2 then b.(start2 := b.end1) else b
  }

  /** The swap stays inside the code: the block that starts first ends first, and the other one inside the code. */
  predicate SwapInRange(n: nat, start1: int, size1: int, start2: int, size2: int) {
    var b := Ordered(n, start1, size1, start2, size2);
    b.Blocks? ==> b.end1 <= b.end2 <= n
  }

  function SwapCode<T>(v: seq<T>, start1: int, size1: int, start2: int, size2: int): (w: seq<T>)
    requires SwapInRange(|v|, start1, size1, start2, size2)
    ensures |w| == |v|
  {
    match Repaired(Ordered(|v|, start1, size1, start2, size2))
    case Refused => v
    case Blocks(a, b, c, d) => Trade(v, a, b, c, d)
  }

  lemma SwapIsTrade<T>(v: seq<T>, start1: int, size1: int, start2: int, size2: int, a: int, b: int, c: int, d: int)
    requires SwapInRange(|v|, start1, size1, start2, size2)
    requires Repaired(Ordered(|v|, start1, size1, start2, size2)) == Blocks(a, b, c, d)
    ensures 0 <= a <= b <= c <= d <= |v| && SwapCode(v, start1, size1, start2, size2) == Trade(v, a, b, c, d)
  {
  }

  /** Two separate blocks trade places, whatever their sizes and whichever is named first. */
  lemma SwapTradesPlaces<T>(v: seq<T>, a: nat, b: nat, c: nat, d: nat)
    requires a < b <= c < d <= |v|
    ensures SwapInRange(|v|, a, b - a, c, d - c) && SwapInRange(|v|, c, d - c, a, b - a)
    ensures SwapCode(v, a, b - a, c, d - c) == SwapCode(v, c, d - c, a, b - a) == Trade(v, a, b, c, d)
  {
    SwapIsTrade(v, a, b - a, c, d - c, a, b, c, d);
    SwapIsTrade(v, c, d - c, a, b - a, a, b, c, d);
  }

  /** Of an overlapping second block only the part behind the first one moves. */
  lemma SwapCutsOverlap<T>(v: seq<T>, a: nat, b: nat, c: nat, d: nat)
    requires a < c <= b <= d <= |v| && c < d
    ensures SwapInRange(|v|, a, b - a, c, d - c) && SwapInRange(|v|, c, d - c, a, b - a)
    ensures SwapCode(v, a, b - a, c, d - c) == SwapCode(v, c, d - c, a, b - a) == v[..a] + v[b..d] + v[a..b] + v[d..]
  {
    assert v[b..b] == [];
  }

  /** Bad arguments leave the code alone: places outside the code, empty blocks, or two blocks that start together. */
  lemma SwapRefuses<T>(v: seq<T>, start1: int, size1: int, start2: int, size2: int)
    requires !(0 <= start1 < |v|) || !(0 <= start2 < |v|) || size1 <= 0 || size2 <= 0 || start1 == start2
    ensures SwapInRange(|v|, start1, size1, start2, size2) && SwapCode(v, start1, size1, start2, size2) == v
  {
  }

  /** No value is lost or doubled, even when the blocks overlap. */
  lemma SwapPermutes<T>(v: seq<T>, start1: int, size1: int, start2: int, size2: int)
    requires SwapInRange(|v|, start1, size1, start2, size2)
    ensures multiset(SwapCode(v, start1, size1, start2, size2)) == multiset(v)
  {
    match Repaired(Ordered(|v|, start1, size1, start2, size2))
    case Refused =>
    case Blocks(a, b, c, d) => TradePermutes(v, a, b, c, d);
  }

  /** The arguments of one call of the swap. */
  datatype BlockSwap = BlockSwap(start1: int, size1: int, start2: int, size2: int)

  predicate SwapsInRange(n: nat, swaps: seq<BlockSwap>) {
    forall k :: 0 <= k < |swaps| ==> SwapInRange(n, swaps[k].start1, swaps[k].size1, swaps[k].start2, swaps[k].size2)
  }

  function SwappedAll<T>(v: seq<T>, swaps: seq<BlockSwap>): (w: seq<T>)
    requires SwapsInRange(|v|, swaps)
    ensures |w| == |v|
  {
    if swaps == [] then v else
      var last := swaps[|swaps| - 1];
      SwapCode(SwappedAll(v, swaps[..|swaps| - 1]), last.start1, last.size1, last.start2, last.size2)
  }

  lemma {:induction false} SwappedAllPermutes<T>(v: seq<T>, swaps: seq<BlockSwap>)
    requires SwapsInRange(|v|, swaps)
    ensures multiset(SwappedAll(v, swaps)) == multiset(v)
  {
    if swaps != [] {
      var before, last := swaps[..|swaps| - 1], swaps[|swaps| - 1];
      SwappedAllPermutes(v, before);
      SwapPermutes(SwappedAll(v, before), last.start1, last.size1, last.start2, last.size2);
    }
  }

  /** No swaps change nothing, one swap is the block swap, and more are done one after the other. */
  lemma {:induction false} SwapsInTurn<T>(v: seq<T>, a: seq<BlockSwap>, b: seq<BlockSwap>)
    requires SwapsInRange(|v|, a) && SwapsInRange(|v|, b)
    ensures SwappedAll(v, []) == v
    ensures |a| == 1 ==> SwappedAll(v, a) == SwapCode(v, a[0].start1, a[0].size1, a[0].start2, a[0].size2)
    ensures SwappedAll(v, a + b) == SwappedAll(SwappedAll(v, a), b)
  {
    assert |a| == 1 ==> a[..0] == [] && SwappedAll(v, a[..0]) == v;
    if b == [] {
      assert a + b == a;
    } else {
      SwapsInTurn(v, a, b[..|b| - 1]);
      assert (a + b)[..|a + b| - 1] == a + b[..|b| - 1];
    }
  }

  /** A code, and what a mutation has set aside of it (TSP/inc/MultiValueChromosome.h:415-427). */
  datatype Code<T> = Code(values: seq<T>, backup: seq<T>)
  {
    function Prepared(): Code<T> { Code(values, values + backup) }
    function Accepted(): Code<T> { Code(values, []) }
    function Rejected(): Code<T> { Code(backup, []) }
  }

  /** Swapping the moved blocks back restores the code, even when the blocks overlapped. */
  lemma SwapUndone<T>(v: seq<T>, start1: int, size1: int, start2: int, size2: int)
    requires SwapInRange(|v|, start1, size1, start2, size2)
    ensures var r := Repaired(Ordered(|v|, start1, size1, start2, size2));
            r.Blocks? ==>
              var (size1', start2', size2') := (r.end2 - r.start2, r.start1 + r.end2 - r.end1, r.end1 - r.start1);
              && SwapInRange(|v|, r.start1, size1', start2', size2')
              && SwapCode(SwapCode(v, start1, size1, start2, size2), r.start1, size1', start2', size2') == v
  {
    RepairedBlocks(|v|, start1, size1, start2, size2);
    match Repaired(Ordered(|v|, start1, size1, start2, size2))
    case Refused =>
    case Blocks(a, b, c, d) =>
      SwapIsTrade(v, start1, size1, start2, size2, a, b, c, d);
      UndoTrade(v, a, b, c, d);
  }

  lemma RepairedBlocks(n: nat, start1: int, size1: int, start2: int, size2: int)
    requires SwapInRange(n, start1, size1, start2, size2)
    ensures var r := Repaired(Ordered(n, start1, size1, start2, size2));
            r.Blocks? ==> 0 <= r.start1 < r.end1 <= r.start2 <= r.end2 <= n && (r.start2 == r.end2 ==> r.end1 == r.start2)
  {
  }

  lemma UndoTrade<T>(v: seq<T>, a: nat, b: nat, c: nat, d: nat)
    requires a < b <= c <= d <= |v| && (c == d ==> b == c)
    ensures SwapInRange(|v|, a, d - c, a + d - b, b - a)
    ensures SwapCode(Trade(v, a, b, c, d), a, d - c, a + d - b, b - a) == v
  {
    if c < d {
      UndoMoves(v, Trade(v, a, b, c, d), a, b, c, d);
    } else {
      NothingTraded(v, a, b);
    }
  }

  lemma UndoMoves<T>(v: seq<T>, w: seq<T>, a: nat, b: nat, c: nat, d: nat)
    requires a < b <= c < d <= |v| && w == Trade(v, a, b, c, d)
    ensures SwapInRange(|w|, a, d - c, a + d - b, b - a)
    ensures SwapCode(w, a, d - c, a + d - b, b - a) == v
  {
    var e, f := a + d - c, a + d - b;
    assert Trade(w, a, e, f, d) == v by {
      TradeBack(v, a, b, c, d);
    }
    SwapIsTrade(w, a, d - c, f, b - a, a, e, f, d);
  }

  lemma NothingTraded<T>(v: seq<T>, a: nat, b: nat)
    requires a < b <= |v|
    ensures Trade(v, a, b, b, b) == v && SwapCode(v, a, 0, a, b - a) == v
  {
    assert v == v[..a] + v[a..b] + v[b..];
  }

  function Exchange<T>(v: seq<T>, i: nat, j: nat): seq<T>
    requires i < |v| && j < |v|
  {
    v[i := v[j]][j := v[i]]
  }

  /** Blocks of one value: a transposition, which undoes itself. */
  lemma SwapOfOne<T>(v: seq<T>, i: nat, j: nat)
    requires i < |v| && j < |v|
    ensures SwapInRange(|v|, i, 1, j, 1)
    ensures SwapCode(v, i, 1, j, 1) == Exchange(v, i, j)
    ensures SwapCode(SwapCode(v, i, 1, j, 1), i, 1, j, 1) == v
  {
    SwapIsExchange(v, i, j);
    SwapIsExchange(Exchange(v, i, j), i, j);
  }

  lemma SwapIsExchange<T>(v: seq<T>, i: nat, j: nat)
    requires i < |v| && j < |v|
    ensures SwapInRange(|v|, i, 1, j, 1) && SwapCode(v, i, 1, j, 1) == Exchange(v, i, j)
  {
    if i != j {
      var a, b := if i < j then i else j, if i < j then j else i;
      SwapIsTrade(v, i, 1, j, 1, a, a + 1, b, b + 1);
      TradeOfOne(v, a, b);
      assert Exchange(v, i, j) == Exchange(v, a, b);
    }
  }

  lemma TradeOfOne<T>(v: seq<T>, a: nat, b: nat)
    requires a < b < |v|
    ensures Trade(v, a, a + 1, b, b + 1) == Exchange(v, a, b)
  {
    forall k | 0 <= k < |v|
      ensures Trade(v, a, a + 1, b, b + 1)[k] == Exchange(v, a, b)[k]
    {
      TradeAt(v, a, a + 1, b, b + 1, k);
    }
  }

  // ---------------------------------------------------------------- slices

  /** The values a fill copies: nothing for bad arguments, and never past the end of the code. */
  function Slice<T>(v: seq<T>, pos: int, size: int): (s: seq<T>)
    ensures |s| <= |v|
  {
    if size <= 0 || pos < 0 || pos >= |v| then []
    else v[pos..if pos + size < |v| then pos + size else |v|]
  }

  /** A slice holds the values from its place on, as many as asked for while there are any. */
  lemma SliceAt<T>(v: seq<T>, pos: int, size: int)
    ensures !(size > 0 && 0 <= pos < |v|) ==> Slice(v, pos, size) == []
    ensures size > 0 && 0 <= pos < |v| ==>
              && |Slice(v, pos, size)| == (if size <= |v| - pos then size else |v| - pos)
              && forall i :: 0 <= i < |Slice(v, pos, size)| ==> Slice(v, pos, size)[i] == v[pos + i]
  {
  }

  /** Slices that follow each other, wherever they lie, join to the slice of both sizes. */
  lemma SlicesJoin<T>(v: seq<T>, pos: int, size1: int, size2: int)
    requires pos >= 0 && size1 >= 0 && size2 >= 0
    ensures Slice(v, pos, size1) + Slice(v, pos + size1, size2) == Slice(v, pos, size1 + size2)
  {
  }

  /** Values as the value set of each position stores them (TSP/inc/DomainChromosome.h:164-169). */
  function Snapped<T>(closest: (T, int) -> T, data: seq<T>): (r: seq<T>)
    ensures |r| == |data| && forall i :: 0 <= i < |data| ==> r[i] == closest(data[i], i)
  {
    seq(|data|, i requires 0 <= i < |data| => closest(data[i], i))
  }

  /** Inserting at a place outside the code does nothing. */
  function InsertedCode<T>(v: seq<T>, start: int, data: seq<T>): seq<T> {
    if start < 0 || start > |v| then v else v[..start] + data + v[start..]
  }

  predicate RemoveInRange(n: nat, start: int, size: int) {
    size > 0 && 0 <= start < n ==> start + size <= n
  }

  function RemovedCode<T>(v: seq<T>, start: int, size: int): seq<T>
    requires RemoveInRange(|v|, start, size)
  {
    if size > 0 && 0 <= start < |v| then v[..start] + v[start + size..] else v
  }

  /** A place outside the code is refused by both. */
  lemma BadPlaceIsRefused<T>(v: seq<T>, start: int, size: int, data: seq<T>)
    ensures start < 0 || start > |v| ==> InsertedCode(v, start, data) == v
    ensures start < 0 || start >= |v| || size <= 0 ==> RemoveInRange(|v|, start, size) && RemovedCode(v, start, size) == v
  {
  }

  /** Removing what was just inserted restores the code. */
  lemma RemoveUndoesInsert<T>(v: seq<T>, start: int, data: seq<T>)
    requires 0 <= start <= |v|
    ensures RemoveInRange(|InsertedCode(v, start, data)|, start, |data|)
    ensures RemovedCode(InsertedCode(v, start, data), start, |data|) == v
  {
    var w := v[..start] + data + v[start..];
    assert w[..start] == v[..start] && w[start + |data|..] == v[start..];
  }

  /** Inserting what was just removed restores the code. */
  lemma InsertUndoesRemove<T>(v: seq<T>, start: int, size: int)
    requires size > 0 && 0 <= start && start + size <= |v|
    ensures InsertedCode(RemovedCode(v, start, size), start, v[start..start + size]) == v
  {
    var w := v[..start] + v[start + size..];
    assert w[..start] == v[..start] && w[start..] == v[start + size..];
  }

  class CodeValuesBuffer<T(0)> {
    var buffer: array<T>
    var position: int

    ghost predicate Valid()
      reads this
    {
      0 <= position <= buffer.Length
    }

    ghost function Contents(): seq<T>
      requires Valid()
      reads this, buffer
    {
      buffer[..position]
    }

    constructor (size: nat)
      ensures Valid() && fresh(buffer) && buffer.Length == size && Contents() == []
    {
      buffer := new T[size];
      position := 0;
    }

    method Move(delta: int)
      modifies `position
      ensures position == old(position) + delta
    {
      position := position + delta;
    }
  }

  class Chromosome<T(==, 0)> {
    var values: seq<T>
    var backup: seq<T>
    const closest: (T, int) -> T

    constructor (closest: (T, int) -> T)
      ensures values == [] && backup == [] && this.closest == closest
    {
      values, backup := [], [];
      this.closest := closest;
    }

    /** The range must end inside the code: erasing past the end is undefined. */
    method Remove(start: int, size: int)
      requires RemoveInRange(|values|, start, size)
      modifies `values
      ensures values == RemovedCode(old(values), start, size)
    {
      if size > 0 && start >= 0 && start < |values| {
        values := values[..start] + values[start + size..];
      }
    }

    method Insert(start: int, data: array?<T>, size: int)
      requires data != null ==> size <= data.Length
      modifies `values
      ensures values == if data == null || size <= 0 then old(values) else InsertedCode(old(values), start, Snapped(closest, data[..size]))
    {
      if data == null || size <= 0 || start < 0 || start > |values| {
        return;
      }
      if start == |values| {
        for i := 0 to size
          invariant values == old(values) + Snapped(closest, data[..i])
        {
          values := values + [closest(data[i], i)];
          assert Snapped(closest, data[..i + 1]) == Snapped(closest, data[..i]) + [closest(data[i], i)];
        }
      } else {
        var tmp := [];
        for i := 0 to size
          invariant values == old(values) && tmp == Snapped(closest, data[..i])
        {
          tmp := tmp + [closest(data[i], i)];
        }
        values := values[..start] + tmp + values[start..];
      }
    }

    method Swap(start1: int, size1: int, start2: int, size2: int)
      requires SwapInRange(|values|, start1, size1, start2, size2)
      modifies `values
      ensures values == SwapCode(old(values), start1, size1, start2, size2)
    {
      if start1 < 0 || start1 >= |values| || start2 < 0 || start2 >= |values|
         || size1 <= 0 || size2 <= 0 || |values| == 0 || start1 == start2 {
        return;
      }
      var first, length1, second, length2 := start1, size1, start2, size2;
      if second < first {
        first, second := second, first;
        length1, length2 := length2, length1;
      }
      assert Ordered(|values|, start1, size1, start2, size2) == Blocks(first, first + length1, second, second + length2);
      if first + length1 >= second {
        var previous := second;
        second := first + length1;
        length2 := length2 - (second - previous);
      }
      var end1, end2 := first + length1, second + length2;
      SwapIsTrade(values, start1, size1, start2, size2, first, end1, second, end2);
      Splice(first, end1, second, end2);
    }

    /** Builds the new code from the five pieces, in their new order (TSP/inc/MultiValueChromosome.h:194-210). */
    method Splice(a: int, b: int, c: int, d: int)
      requires 0 <= a <= b <= c <= d <= |values|
      modifies `values
      ensures values == Trade(old(values), a, b, c, d)
    {
      var newCode := values[..a];
      newCode := newCode + values[c..d];
      newCode := newCode + values[b..c];
      newCode := newCode + values[a..b];
      newCode := newCode + values[d..];
      values := newCode;
    }

    /** Appends the clamped slice to the buffer, which must have room for it. */
    method FillBuffer(pos: int, size: int, buffer: CodeValuesBuffer<T>)
      requires buffer.Valid() && buffer.position + |Slice(values, pos, size)| <= buffer.buffer.Length
      modifies buffer`position, buffer.buffer
      ensures buffer.Valid() && buffer.Contents() == old(buffer.Contents()) + Slice(values, pos, size)
    {
      if size <= 0 || pos < 0 || pos >= |values| {
        return;
      }
      var s := if pos + size < |values| then size else |values| - pos;
      var p := buffer.position;
      var b := buffer.buffer;
      for i := 0 to s
        invariant buffer.buffer == b && buffer.position == p
        invariant forall k :: 0 <= k < p ==> b[k] == old(b[k])
        invariant forall k :: p <= k < p + i ==> b[k] == values[pos + k - p]
      {
        b[p + i] := values[pos + i];
      }
      buffer.Move(s);
    }

    method FromBuffer(buffer: CodeValuesBuffer<T>)
      requires buffer.Valid()
      modifies `values
      ensures values == buffer.Contents()
    {
      values := [];
      for i := 0 to buffer.position
        invariant values == buffer.buffer[..i]
      {
        values := values + [buffer.buffer[i]];
      }
    }

    function Current(): Code<T>
      reads this
    {
      Code(values, backup)
    }

    method PrepareForMutation()
      modifies `backup
      ensures Current() == old(Current()).Prepared()
    {
      backup := values + backup;
    }

    method AcceptMutation()
      modifies `backup
      ensures Current() == old(Current()).Accepted()
    {
      backup := [];
    }

    method RejectMutation()
      modifies `values, `backup
      ensures Current() == old(Current()).Rejected()
    {
      values := backup;
      backup := [];
    }

    /**
     A mutation by block swaps, which may have to improve the code to be kept: then the code is
     set aside first, and comes back when the result is no better (TSP/inc/Chromosome.h:503-512).
     */
    method Mutation(swaps: seq<BlockSwap>, improvingOnly: bool, improves: (seq<T>, seq<T>) -> bool)
      requires backup == [] && SwapsInRange(|values|, swaps)
      modifies `values, `backup
      ensures backup == [] && multiset(values) == multiset(old(values))
      ensures var mutated := SwappedAll(old(values), swaps);
              values == if improvingOnly && !improves(mutated, old(values)) then old(values) else mutated
    {
      ghost var before := values;
      if improvingOnly {
        PrepareForMutation();
      }
      for i := 0 to |swaps|
        invariant values == SwappedAll(before, swaps[..i])
        invariant backup == if improvingOnly then before else []
      {
        assert swaps[..i + 1][..i] == swaps[..i];
        Swap(swaps[i].start1, swaps[i].size1, swaps[i].start2, swaps[i].size2);
      }
      assert swaps[..|swaps|] == swaps;
      SwappedAllPermutes(before, swaps);
      if improvingOnly {
        if improves(values, backup) {
          AcceptMutation();
        } else {
          RejectMutation();
        }
      }
    }

    /** Searches from the end; -1 when the value is not in the code. */
    method GetCityPosition(city: T) returns (pos: int)
      ensures -1 <= pos < |values|
      ensures if city in values then pos >= 0 && values[pos] == city && city !in values[pos + 1..] else pos == -1
    {
      pos := |values| - 1;
      while pos >= 0
        invariant -1 <= pos < |values| && city !in values[pos + 1..]
      {
        if values[pos] == city {
          return;
        }
        pos := pos - 1;
      }
    }
  }

  // ---------------------------------------------------------------- recombination through a buffer

  datatype Fill<T> = Fill(code: seq<T>, pos: int, size: int)

  function Concatenated<T>(fills: seq<Fill<T>>): seq<T> {
    if fills == [] then [] else
      var last := fills[|fills| - 1];
      Concatenated(fills[..|fills| - 1]) + Slice(last.code, last.pos, last.size)
  }

  lemma {:induction false} ConcatenatedGrows<T>(fills: seq<Fill<T>>, k: nat)
    requires k <= |fills|
    ensures |Concatenated(fills[..k])| <= |Concatenated(fills)|
  {
    if k < |fills| {
      ConcatenatedGrows(fills[..|fills| - 1], k);
      assert fills[..|fills| - 1][..k] == fills[..k];
    } else {
      assert fills[..k] == fills;
    }
  }

  /**
   Filling a buffer with any slices of any parents and reading it back gives their concatenation,
   and never writes past the buffer as long as that fits.
   */
  method Recombine<T(==, 0)>(parents: seq<Chromosome<T>>, slices: seq<(nat, int, int)>, capacity: nat, child: Chromosome<T>)
    requires forall i :: 0 <= i < |slices| ==> slices[i].0 < |parents|
    requires |Concatenated(Fills(parents, slices))| <= capacity
    modifies child`values
    ensures child.values == old(Concatenated(Fills(parents, slices)))
  {
    ghost var fills := Fills(parents, slices);
    var buffer := new CodeValuesBuffer<T>(capacity);
    for i := 0 to |slices|
      invariant buffer.Valid() && fresh(buffer.buffer) && buffer.buffer.Length == capacity
      invariant buffer.Contents() == Concatenated(fills[..i])
      invariant Fills(parents, slices) == fills
    {
      ConcatenatedGrows(fills, i + 1);
      assert fills[..i + 1][..i] == fills[..i];
      var (k, pos, size) := slices[i];
      parents[k].FillBuffer(pos, size, buffer);
    }
    assert fills[..|slices|] == fills;
    child.FromBuffer(buffer);
  }

  ghost function Fills<T(0)>(parents: seq<Chromosome<T>>, slices: seq<(nat, int, int)>): (fills: seq<Fill<T>>)
    requires forall i :: 0 <= i < |slices| ==> slices[i].0 < |parents|
    reads parents
    ensures |fills| == |slices|
    ensures forall i :: 0 <= i < |slices| ==> fills[i] == Fill(parents[slices[i].0].values, slices[i].1, slices[i].2)
  {
    seq(|slices|, i requires 0 <= i < |slices| reads parents => Fill(parents[slices[i].0].values, slices[i].1, slices[i].2))
  }

  /** A fill with the whole code reads back as the code. */
  lemma FullFillIsRoundTrip<T>(v: seq<T>, size: int)
    requires size >= |v|
    ensures Concatenated([Fill(v, 0, size)]) == v
  {
    var fills := [Fill(v, 0, size)];
    assert fills[..0] == [] && Concatenated(fills[..0]) == [];
    assert Concatenated(fills) == Concatenated(fills[..0]) + Slice(v, 0, size);
  }

  /** Cutting a code anywhere and filling both parts, in order, gives the code back. */
  lemma TwoFillsRejoin<T>(v: seq<T>, cut: int, size: int)
    requires 0 < cut < |v| && size >= |v| - cut
    ensures Concatenated([Fill(v, 0, cut), Fill(v, cut, size)]) == v
  {
    var fills := [Fill(v, 0, cut), Fill(v, cut, size)];
    assert fills[..1] == [Fill(v, 0, cut)] && fills[..1][..0] == [];
    assert Concatenated(fills[..1]) == Concatenated(fills[..1][..0]) + v[..cut];
    assert Concatenated(fills) == Concatenated(fills[..1]) + v[cut..];
  }

  // ---------------------------------------------------------------- the shuffle

  /** The code after the given draws: the k-th draw is exchanged with the k-th position from the end. */
  function Shuffled<T>(v: seq<T>, draws: seq<nat>): (r: seq<T>)
    requires |draws| <= |v| && forall k :: 0 <= k < |draws| ==> draws[k] < |v|
    ensures |r| == |v|
  {
    if draws == [] then v else
      Exchange(Shuffled(v, draws[..|draws| - 1]), |v| - |draws|, draws[|draws| - 1])
  }

  lemma ExchangePermutes<T>(v: seq<T>, i: nat, j: nat)
    requires i < |v| && j < |v|
    ensures multiset(Exchange(v, i, j)) == multiset(v)
  {
  }

  /** The shuffle loses no city and doubles none. */
  lemma {:induction false} ShuffledPermutes<T>(v: seq<T>, draws: seq<nat>)
    requires |draws| <= |v| && forall k :: 0 <= k < |draws| ==> draws[k] < |v|
    ensures multiset(Shuffled(v, draws)) == multiset(v)
  {
    if draws != [] {
      var before := draws[..|draws| - 1];
      ShuffledPermutes(v, before);
      ExchangePermutes(Shuffled(v, before), |v| - |draws|, draws[|draws| - 1]);
    }
  }

  /** `MakeNewFromPrototype`: the registry's cities, each exchanged with one drawn anywhere, from the last place down. */
  method MakeNewFromPrototype<T(==, 0)>(cities: seq<T>, closest: (T, int) -> T, draws: seq<nat>) returns (g: Chromosome<T>)
    requires |draws| == |cities| && forall k :: 0 <= k < |draws| ==> draws[k] < |cities|
    ensures fresh(g) && g.backup == []
    ensures g.values == Shuffled(cities, draws) && multiset(g.values) == multiset(cities)
  {
    g := new Chromosome<T>(closest);
    g.values := cities;
    var size := |g.values|;
    for i := size downto 0
      invariant g.backup == [] && |g.values| == size == |cities|
      invariant g.values == Shuffled(cities, draws[..size - i])
    {
      var p := draws[size - i - 1];
      var t := g.values[i];
      g.values := g.values[i := g.values[p]];
      g.values := g.values[p := t];
      assert draws[..size - i] == draws[..size - i - 1] + [p];
      ShuffledMore(cities, draws[..size - i - 1], p);
    }
    assert draws[..size] == draws;
    ShuffledPermutes(cities, draws);
  }

  lemma PrefixBags<T>(v: seq<T>, w: seq<T>, i: nat)
    requires multiset(v) == multiset(w) && |v| == |w| && i <= |v| && v[i..] == w[i..]
    ensures multiset(v[..i]) == multiset(w[..i])
  {
    assert v == v[..i] + v[i..] && w == w[..i] + w[i..];
    assert multiset(v) == multiset(v[..i]) + multiset(v[i..]);
    assert multiset(w) == multiset(w[..i]) + multiset(v[i..]);
    assert multiset(v[..i]) == multiset(v) - multiset(v[i..]);
  }

  /** One draw of the shuffle can put the wanted city in its place. */
  lemma DrawFor<T>(w: seq<T>, target: seq<T>, i: nat) returns (p: nat)
    requires multiset(w) == multiset(target) && |w| == |target| && i < |w| && w[i + 1..] == target[i + 1..]
    ensures p < |w| && Exchange(w, i, p)[i..] == target[i..]
  {
    PrefixBags(w, target, i + 1);
    assert target[i] == target[..i + 1][i] && target[i] in multiset(w[..i + 1]);
    p :| 0 <= p < i + 1 && w[..i + 1][p] == target[i];
    var x := Exchange(w, i, p);
    forall k | i <= k < |w|
      ensures x[k] == target[k]
    {
      assert k > i ==> x[k] == w[i + 1..][k - i - 1] && target[k] == target[i + 1..][k - i - 1];
    }
  }

  /** The first `k` draws can settle the last `k` places. */
  lemma {:induction false} ShuffleSettles<T>(v: seq<T>, target: seq<T>, k: nat) returns (draws: seq<nat>)
    requires multiset(v) == multiset(target) && |v| == |target| && k <= |v|
    ensures |draws| == k && forall i :: 0 <= i < k ==> draws[i] < |v|
    ensures Shuffled(v, draws)[|v| - k..] == target[|v| - k..]
  {
    draws := [];
    if k > 0 {
      var before := ShuffleSettles(v, target, k - 1);
      ShuffledPermutes(v, before);
      var p := DrawFor(Shuffled(v, before), target, |v| - k);
      draws := before + [p];
      ShuffledMore(v, before, p);
    }
  }

  /** Each draw exchanges the next place, counted from the end, with the place drawn. */
  lemma {:induction false} ShuffledMore<T>(v: seq<T>, draws: seq<nat>, p: nat)
    requires |draws| < |v| && p < |v| && forall k :: 0 <= k < |draws| ==> draws[k] < |v|
    ensures Shuffled(v, []) == v
    ensures Shuffled(v, draws + [p]) == Exchange(Shuffled(v, draws), |v| - |draws| - 1, p)
  {
    var more := draws + [p];
    assert more[|more| - 1] == p && more[..|more| - 1] == draws;
  }

  /** Every order of the cities can come out of the shuffle. */
  lemma ShuffleReaches<T>(v: seq<T>, target: seq<T>) returns (draws: seq<nat>)
    requires multiset(v) == multiset(target)
    ensures |draws| == |v| && forall i :: 0 <= i < |v| ==> draws[i] < |v|
    ensures Shuffled(v, draws) == target
  {
    assert |multiset(v)| == |v| && |multiset(target)| == |target|;
    draws := ShuffleSettles(v, target, |v|);
    assert Shuffled(v, draws)[0..] == Shuffled(v, draws) && target[0..] == target;
  }
}
