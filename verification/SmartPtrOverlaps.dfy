/**
 Which programs are safe with which spin lock. A lock that waits makes all of them safe. A lock
 that does not, such as GCC's, makes safe exactly the programs that never use the target of an
 assignment in any other operation while the assignment is under way.
 */
module SmartPtrOverlaps {
  import opened SmartPtr
  import opened SmartPtrInvariant
  import opened SmartPtrSteps
  import opened SmartPtrLocks
  import opened SmartPtrTheorems

  /** How another operation may use the target of an assignment under way. */
  datatype Overlap = CopiedFrom | AssignedFrom | AssignedTo

  function HowUsed(k: Kind, p: Address): Option<Overlap> {
    match k
    case CopyOf(_, q) => if q == p then Some(CopiedFrom) else None
    case Assign(t, q) => if q == p then Some(AssignedFrom) else if t == p then Some(AssignedTo) else None
    case _ => None
  }

  /** Only allowed overlaps are under way. */
  ghost predicate Within(st: State, allowed: set<Overlap>) {
    forall t, u {:trigger HowUsed(st.ops[u].kind, st.ops[t].kind.target)} :: t in st.ops && u in st.ops && t != u ==>
      HowUsed(st.ops[u].kind, st.ops[t].kind.target).Some? ==> HowUsed(st.ops[u].kind, st.ops[t].kind.target).value in allowed
  }

  ghost predicate RunWithin(macro: SpinMacro, allowed: set<Overlap>, events: seq<Event>) {
    forall k {:trigger events[..k]} :: 0 <= k <= |events| ==> Within(Exec(macro, INIT, events[..k]), allowed)
  }

  /** Some run with only allowed overlaps leads to the state. */
  ghost predicate Reachable(macro: SpinMacro, allowed: set<Overlap>, st: State) {
    exists events :: Exec(macro, INIT, events) == st && RunWithin(macro, allowed, events)
  }

  // ---------------------------------------------------------------- without overlaps every lock will do

  lemma NoOverlapIsExclusive(st: State)
    requires Wf(st) && Within(st, {})
    ensures Exclusive(st)
  {
    forall t, u {:trigger st.ops[u].Holds(st.ops[t].kind.target)} | t in st.ops && u in st.ops && t != u
      ensures !st.ops[u].Holds(st.ops[t].kind.target)
    {
      var p := st.ops[t].kind.target;
      assert OpWf(st, st.ops[t]) && OpWf(st, st.ops[u]);
      assert !st.ops[t].kind.Assign? ==> !st.ops[u].kind.Uses(p);
      assert !st.ops[u].kind.Assign? ==> !st.ops[t].kind.Uses(st.ops[u].kind.target);
      assert HowUsed(st.ops[u].kind, p) == None;
    }
  }

  lemma NoOverlapRun(macro: SpinMacro, events: seq<Event>)
    requires RunWithin(macro, {}, events)
    ensures ExclusiveRun(macro, events)
  {
    forall k {:trigger events[..k]} | 0 <= k <= |events|
      ensures Exclusive(Exec(macro, INIT, events[..k]))
    {
      RunKeepsWf(macro, events[..k]);
      NoOverlapIsExclusive(Exec(macro, INIT, events[..k]));
    }
  }

  // ---------------------------------------------------------------- with one overlap a lock that does not wait fails

  lemma RunGrows(macro: SpinMacro, allowed: set<Overlap>, events: seq<Event>, e: Event)
    requires RunWithin(macro, allowed, events) && Within(Next(macro, Exec(macro, INIT, events), e), allowed)
    ensures RunWithin(macro, allowed, events + [e]) && Exec(macro, INIT, events + [e]) == Next(macro, Exec(macro, INIT, events), e)
  {
    var more := events + [e];
    assert more[..|more| - 1] == events;
    forall k {:trigger more[..k]} | 0 <= k <= |more|
      ensures Within(Exec(macro, INIT, more[..k]), allowed)
    {
      assert more[..k] == if k <= |events| then events[..k] else more;
    }
  }

  lemma Go(macro: SpinMacro, allowed: set<Overlap>, st: State, e: Event, st': State)
    requires Reachable(macro, allowed, st) && st' == Next(macro, st, e) && Within(st', allowed)
    ensures Reachable(macro, allowed, st')
  {
    var events :| Exec(macro, INIT, events) == st && RunWithin(macro, allowed, events);
    RunGrows(macro, allowed, events, e);
  }

  lemma Start(macro: SpinMacro, allowed: set<Overlap>)
    ensures Reachable(macro, allowed, INIT)
  {
    assert Exec(macro, INIT, []) == INIT && RunWithin(macro, allowed, []);
  }

  lemma StepKinds(macro: SpinMacro, st: State, t: Thread, u: Thread)
    requires t in st.ops && u in Advance(macro, st, t).ops
    ensures u in st.ops && Advance(macro, st, t).ops[u].kind == st.ops[u].kind
  {
  }

  /** Steps begin nothing, so they add no overlap. */
  lemma StepWithin(macro: SpinMacro, allowed: set<Overlap>, st: State, t: Thread)
    requires Within(st, allowed) && t in st.ops
    ensures Within(Advance(macro, st, t), allowed)
  {
    var ops, was := Advance(macro, st, t).ops, st.ops;
    forall u, v {:trigger HowUsed(ops[v].kind, ops[u].kind.target)} | u in ops && v in ops && u != v && HowUsed(ops[v].kind, ops[u].kind.target).Some?
      ensures HowUsed(ops[v].kind, ops[u].kind.target).value in allowed
    {
      StepKinds(macro, st, t, u);
      StepKinds(macro, st, t, v);
      assert HowUsed(was[v].kind, was[u].kind.target).Some?;
    }
  }

  lemma GoStep(macro: SpinMacro, allowed: set<Overlap>, st: State, t: Thread, st': State)
    requires Reachable(macro, allowed, st) && t in st.ops && st' == Advance(macro, st, t)
    ensures Reachable(macro, allowed, st')
  {
    var events :| Exec(macro, INIT, events) == st && RunWithin(macro, allowed, events);
    assert events[..|events|] == events;
    StepWithin(macro, allowed, st, t);
    Go(macro, allowed, st, Step(t), st');
  }

  function WantedThen(op: Op): Pc {
    if op.pc.Lock1? && op.kind.Two() then Lock2 else op.kind.Body()
  }

  /** Two rounds on a free lock: the first sets it, the second finds it set and leaves. */
  lemma TakeLock(macro: SpinMacro, allowed: set<Overlap>, st: State, t: Thread, st': State)
    requires !macro.Excludes() && Reachable(macro, allowed, st) && t in st.ops && (st.ops[t].pc.Lock1? || st.ops[t].pc.Lock2?)
    requires Wanted(st.ops[t]) in st.ptrs && st.ptrs[Wanted(st.ops[t])].lock == None
    requires st' == st.WithLock(Wanted(st.ops[t]), Some(t)).WithPc(t, WantedThen(st.ops[t]))
    ensures Reachable(macro, allowed, st')
  {
    var taken := st.WithLock(Wanted(st.ops[t]), Some(t));
    GoStep(macro, allowed, st, t, taken);
    GoStep(macro, allowed, taken, t, st');
  }

  /** One round on a lock somebody else has set: the loop ends at once. */
  lemma PassLock(macro: SpinMacro, allowed: set<Overlap>, st: State, t: Thread, st': State)
    requires !macro.Excludes() && Reachable(macro, allowed, st) && t in st.ops && (st.ops[t].pc.Lock1? || st.ops[t].pc.Lock2?)
    requires st.At(Wanted(st.ops[t])).lock.Some? && st' == st.WithPc(t, WantedThen(st.ops[t]))
    ensures Reachable(macro, allowed, st')
  {
    GoStep(macro, allowed, st, t, st');
  }

  /** The last four steps of a copy or assignment, from its increment on. */
  lemma FinishTwo(m: SpinMacro, a: set<Overlap>, st: State, t: Thread, st': State)
    requires Reachable(m, a, st) && t in st.ops && st.ops[t].pc.Add? && st.ops[t].kind.Two()
    requires var k := st.ops[t].kind; k.target != k.source && k.target in st.ptrs && k.source in st.ptrs
    requires var k, r := st.ops[t].kind, st.ptrs[st.ops[t].kind.source].loc;
             st' == State(st.ptrs[k.target := Ptr(None, r, true)][k.source := st.ptrs[k.source].(lock := None)], st.WithCount(r, 1).stores, st.ops - {t})
    ensures Reachable(m, a, st')
  {
    var k, r := st.ops[t].kind, st.ptrs[st.ops[t].kind.source].loc;
    var written := State(st.ptrs[k.target := st.ptrs[k.target].(loc := r)], st'.stores, st.ops[t := st.ops[t].(pc := Unlock1)]);
    AddAndWrite(m, a, st, t, written);
    UnlockBoth(m, a, written, t, st');
  }

  lemma AddAndWrite(m: SpinMacro, a: set<Overlap>, st: State, t: Thread, st': State)
    requires Reachable(m, a, st) && t in st.ops && st.ops[t].pc.Add? && st.ops[t].kind.Two()
    requires var k := st.ops[t].kind; k.target != k.source && k.target in st.ptrs && k.source in st.ptrs
    requires var k, r := st.ops[t].kind, st.ptrs[st.ops[t].kind.source].loc;
             st' == State(st.ptrs[k.target := st.ptrs[k.target].(loc := r)], st.WithCount(r, 1).stores, st.ops[t := st.ops[t].(pc := Unlock1)])
    ensures Reachable(m, a, st')
  {
    var added := st.WithCount(st.ptrs[st.ops[t].kind.source].loc, 1).WithPc(t, Write);
    GoStep(m, a, st, t, added);
    WriteSource(m, added, t);
    assert st'.ops == added.ops[t := st.ops[t].(pc := Unlock1)];
    GoStep(m, a, added, t, st');
  }

  lemma WriteSource(m: SpinMacro, st: State, t: Thread)
    requires t in st.ops && st.ops[t].pc.Write? && st.ops[t].kind.Two()
    requires st.ops[t].kind.target in st.ptrs && st.ops[t].kind.source in st.ptrs
    ensures var k := st.ops[t].kind;
            Advance(m, st, t) == State(st.ptrs[k.target := st.ptrs[k.target].(loc := st.ptrs[k.source].loc)], st.stores, st.ops[t := st.ops[t].(pc := Unlock1)])
  {
  }

  lemma UnlockBoth(m: SpinMacro, a: set<Overlap>, st: State, t: Thread, st': State)
    requires Reachable(m, a, st) && t in st.ops && st.ops[t].pc.Unlock1? && st.ops[t].kind.Two()
    requires var k := st.ops[t].kind; k.target != k.source && k.target in st.ptrs && k.source in st.ptrs
    requires var k := st.ops[t].kind;
             st' == State(st.ptrs[k.target := Ptr(None, st.ptrs[k.target].loc, true)][k.source := st.ptrs[k.source].(lock := None)], st.stores, st.ops - {t})
    ensures Reachable(m, a, st')
  {
    var k := st.ops[t].kind;
    var released := st.WithLock(k.target, None).WithPc(t, Unlock2);
    GoStep(m, a, st, t, released);
    UnlockSecond(m, released, t);
    assert released.ops - {t} == st.ops - {t};
    assert st'.ptrs == released.ptrs[k.source := st.ptrs[k.source].(lock := None)][k.target := Ptr(None, st.ptrs[k.target].loc, true)];
    GoStep(m, a, released, t, st');
  }

  lemma UnlockSecond(m: SpinMacro, st: State, t: Thread)
    requires t in st.ops && st.ops[t].pc.Unlock2? && st.ops[t].kind.Two()
    requires var k := st.ops[t].kind; k.target != k.source && k.target in st.ptrs && k.source in st.ptrs
    ensures var k := st.ops[t].kind;
            Advance(m, st, t) == State(st.ptrs[k.source := st.ptrs[k.source].(lock := None)][k.target := st.ptrs[k.target].(ready := true)], st.stores, st.ops - {t})
  {
  }

  // ---------------------------------------------------------------- a storage about to be lost

  const RAW := FromRaw(1)
  const LOSE := Assign(1, 2)

  function Named(lock: Option<Thread>): Ptr { Ptr(lock, Some(0), true) }
  function Null(lock: Option<Thread>): Ptr { Ptr(lock, None, true) }

  lemma RawMade(m: SpinMacro, a: set<Overlap>)
    requires !m.Excludes()
    ensures Reachable(m, a, State(map[1 := Ptr(Some(0), None, false)], [Storage(0, 0)], map[0 := Op(RAW, Add, Some(0))]))
  {
    Start(m, a);
    var s1 := State(map[1 := Ptr(None, None, false)], [], map[0 := Op(RAW, Lock1, None)]);
    Go(m, a, INIT, Begin(0, RAW), s1);
    var s2 := State(map[1 := Ptr(Some(0), None, false)], [], map[0 := Op(RAW, Make, None)]);
    TakeLock(m, a, s1, 0, s2);
    GoStep(m, a, s2, 0, State(s2.ptrs, [Storage(0, 0)], map[0 := Op(RAW, Add, Some(0))]));
  }

  lemma RawAdded(m: SpinMacro, a: set<Overlap>)
    requires !m.Excludes()
    ensures Reachable(m, a, State(map[1 := Ptr(Some(0), None, false)], [Storage(1, 0)], map[0 := Op(RAW, Write, Some(0))]))
  {
    RawMade(m, a);
    var l := map[1 := Ptr(Some(0), None, false)];
    GoStep(m, a, State(l, [Storage(0, 0)], map[0 := Op(RAW, Add, Some(0))]), 0, State(l, [Storage(1, 0)], map[0 := Op(RAW, Write, Some(0))]));
  }

  lemma RawNames(m: SpinMacro, a: set<Overlap>)
    requires !m.Excludes()
    ensures Reachable(m, a, State(map[1 := Named(Some(0)).(ready := false)], [Storage(1, 0)], map[0 := Op(RAW, Unlock1, Some(0))]))
  {
    RawAdded(m, a);
    var l, one := Ptr(Some(0), None, false), [Storage(1, 0)];
    var s1 := State(map[1 := l.(loc := Some(0))], one, map[0 := Op(RAW, Unlock1, Some(0))]);
    GoStep(m, a, State(map[1 := l], one, map[0 := Op(RAW, Write, Some(0))]), 0, s1);
  }

  lemma RawWritten(m: SpinMacro, a: set<Overlap>)
    requires !m.Excludes()
    ensures Reachable(m, a, State(map[1 := Named(None)], [Storage(1, 0)], map[]))
  {
    RawNames(m, a);
    var s1 := State(map[1 := Named(Some(0)).(ready := false)], [Storage(1, 0)], map[0 := Op(RAW, Unlock1, Some(0))]);
    GoStep(m, a, s1, 0, State(map[1 := Named(None)], [Storage(1, 0)], map[]));
  }

  lemma TwoNulls(m: SpinMacro, a: set<Overlap>)
    requires !m.Excludes()
    ensures Reachable(m, a, State(map[1 := Named(None), 2 := Null(None), 3 := Null(None)], [Storage(1, 0)], map[]))
  {
    RawWritten(m, a);
    var one := [Storage(1, 0)];
    var s1 := State(map[1 := Named(None), 2 := Null(None)], one, map[]);
    Go(m, a, State(map[1 := Named(None)], one, map[]), Default(2), s1);
    Go(m, a, s1, Default(3), State(map[1 := Named(None), 2 := Null(None), 3 := Null(None)], one, map[]));
  }

  /** Pointer 1 owns storage 0, pointers 2 and 3 are null, and thread 0 begins to assign null to pointer 1. */
  lemma LoserBegins(m: SpinMacro, a: set<Overlap>)
    requires !m.Excludes()
    ensures Reachable(m, a, State(map[1 := Named(None), 2 := Null(None), 3 := Null(None)], [Storage(1, 0)], map[0 := Op(LOSE, Lock1, None)]))
  {
    TwoNulls(m, a);
    var st := State(map[1 := Named(None), 2 := Null(None), 3 := Null(None)], [Storage(1, 0)], map[]);
    Go(m, a, st, Begin(0, LOSE), State(st.ptrs, st.stores, map[0 := Op(LOSE, Lock1, None)]));
  }

  lemma LoserLocks(m: SpinMacro, a: set<Overlap>)
    requires !m.Excludes()
    ensures Reachable(m, a, State(Losing().ptrs, [Storage(1, 0)], map[0 := Op(LOSE, Compare, None)]))
  {
    LoserBegins(m, a);
    var one := [Storage(1, 0)];
    var s1 := State(map[1 := Named(None), 2 := Null(None), 3 := Null(None)], one, map[0 := Op(LOSE, Lock1, None)]);
    var s2 := State(map[1 := Named(Some(0)), 2 := Null(None), 3 := Null(None)], one, map[0 := Op(LOSE, Lock2, None)]);
    TakeLock(m, a, s1, 0, s2);
    TakeLock(m, a, s2, 0, State(Losing().ptrs, one, map[0 := Op(LOSE, Compare, None)]));
  }

  /** It has counted storage 0 down to zero and is about to free it. */
  function Losing(): State {
    State(map[1 := Named(Some(0)), 2 := Null(Some(0)), 3 := Null(None)], [Storage(0, 0)], map[0 := Op(LOSE, Free(0), None)])
  }

  lemma LoserDrops(m: SpinMacro, a: set<Overlap>)
    requires !m.Excludes()
    ensures Reachable(m, a, Losing())
  {
    LoserLocks(m, a);
    var one := [Storage(1, 0)];
    var s3 := State(Losing().ptrs, one, map[0 := Op(LOSE, Compare, None)]);
    var s4 := State(Losing().ptrs, one, map[0 := Op(LOSE, Drop, None)]);
    GoStep(m, a, s3, 0, s4);
    GoStep(m, a, s4, 0, Losing());
  }

  /** Thread 0 goes on to free the storage, whatever has happened to its count, and finishes. */
  lemma LoserFinishes(m: SpinMacro, a: set<Overlap>, ptrs: map<Address, Ptr>, count: int)
    requires 1 in ptrs && 2 in ptrs && ptrs[2] == Null(Some(0))
    requires Reachable(m, a, State(ptrs, [Storage(count, 0)], map[0 := Op(LOSE, Free(0), None)]))
    ensures Reachable(m, a, State(ptrs[1 := Null(None)][2 := Null(None)], [Storage(count, 1)], map[]))
  {
    var s1 := State(ptrs, [Storage(count, 1)], map[0 := Op(LOSE, Add, None)]);
    GoStep(m, a, State(ptrs, [Storage(count, 0)], map[0 := Op(LOSE, Free(0), None)]), 0, s1);
    FinishTwo(m, a, s1, 0, State(ptrs[1 := Null(None)][2 := Null(None)], [Storage(count, 1)], map[]));
  }

  // ---------------------------------------------------------------- three ways to lose it

  /** Thread 1 begins `k` meanwhile. */
  lemma IntruderBegins(m: SpinMacro, a: set<Overlap>, k: Kind, ptrs: map<Address, Ptr>)
    requires !m.Excludes() && k.Two() && k.First() == 1 && k.Second() >= 3
    requires ptrs == if k.CopyOf? then Losing().ptrs[k.target := Ptr(None, None, false)] else Losing().ptrs
    requires k.Assign? || k.target !in Losing().ptrs
    requires k.Second() in ptrs && HowUsed(k, 1).Some? && HowUsed(k, 1).value in a
    ensures Reachable(m, a, State(ptrs, [Storage(0, 0)], map[0 := Op(LOSE, Free(0), None), 1 := Op(k, Lock1, None)]))
  {
    LoserDrops(m, a);
    Go(m, a, Losing(), Begin(1, k), State(ptrs, [Storage(0, 0)], map[0 := Op(LOSE, Free(0), None), 1 := Op(k, Lock1, None)]));
  }

  /** It passes the lock thread 0 holds, and takes the other one. */
  lemma Intrude(m: SpinMacro, a: set<Overlap>, k: Kind, before: map<Address, Ptr>, after: map<Address, Ptr>)
    requires !m.Excludes() && k.Two() && k.First() == 1 && k.Second() >= 3
    requires before == if k.CopyOf? then Losing().ptrs[k.target := Ptr(None, None, false)] else Losing().ptrs
    requires k.Assign? || k.target !in Losing().ptrs
    requires k.Second() in before && before[k.Second()].lock == None && after == before[k.Second() := before[k.Second()].(lock := Some(1))]
    requires HowUsed(k, 1).Some? && HowUsed(k, 1).value in a
    ensures Reachable(m, a, State(after, [Storage(0, 0)], map[0 := Op(LOSE, Free(0), None), 1 := Op(k, k.Body(), None)]))
  {
    IntruderBegins(m, a, k, before);
    var zero, l := [Storage(0, 0)], Op(LOSE, Free(0), None);
    var s2 := State(before, zero, map[0 := l, 1 := Op(k, Lock2, None)]);
    PassLock(m, a, State(before, zero, map[0 := l, 1 := Op(k, Lock1, None)]), 1, s2);
    TakeLock(m, a, s2, 1, State(after, zero, map[0 := l, 1 := Op(k, k.Body(), None)]));
  }

  /** A copy of pointer 1 is left as the only pointer to the freed storage. */
  lemma CopyDangles(m: SpinMacro, a: set<Overlap>)
    requires !m.Excludes() && CopiedFrom in a
    ensures exists st :: Reachable(m, a, st) && !Safe(st)
  {
    var k, base, l := CopyOf(4, 1), Losing().ptrs, Op(LOSE, Free(0), None);
    var locked := base[4 := Ptr(Some(1), None, false)];
    Intrude(m, a, k, base[4 := Ptr(None, None, false)], locked);
    var ptrs := base[4 := Named(None)][1 := Named(None)];
    FinishTwo(m, a, State(locked, [Storage(0, 0)], map[0 := l, 1 := Op(k, Add, None)]), 1, State(ptrs, [Storage(1, 0)], map[0 := l]));
    LoserFinishes(m, a, ptrs, 1);
    var end := State(ptrs[1 := Null(None)][2 := Null(None)], [Storage(1, 1)], map[]);
    assert Settled(end, 4) && !NoDangling(end);
  }

  /** An intruding assignment finds that it has a reference to drop. */
  lemma IntruderCompares(m: SpinMacro, a: set<Overlap>, k: Kind, ptrs: map<Address, Ptr>)
    requires k.Assign? && k.source in ptrs && k.target in ptrs && ptrs[k.source].loc != ptrs[k.target].loc
    requires Reachable(m, a, State(ptrs, [Storage(0, 0)], map[0 := Op(LOSE, Free(0), None), 1 := Op(k, Compare, None)]))
    ensures Reachable(m, a, State(ptrs, [Storage(0, 0)], map[0 := Op(LOSE, Free(0), None), 1 := Op(k, Drop, None)]))
  {
    var l, zero := Op(LOSE, Free(0), None), [Storage(0, 0)];
    var s1 := State(ptrs, zero, map[0 := l, 1 := Op(k, Drop, None)]);
    GoStep(m, a, State(ptrs, zero, map[0 := l, 1 := Op(k, Compare, None)]), 1, s1);
  }

  /** It drops it, whatever that makes of the count. */
  lemma IntruderDrops(m: SpinMacro, a: set<Overlap>, k: Kind, ptrs: map<Address, Ptr>, st': State)
    requires k.Assign? && k.source in ptrs && k.target in ptrs && ptrs[k.source].loc != ptrs[k.target].loc
    requires ptrs[k.target].loc in {None, Some(0)}
    requires Reachable(m, a, State(ptrs, [Storage(0, 0)], map[0 := Op(LOSE, Free(0), None), 1 := Op(k, Compare, None)]))
    requires st' == State(ptrs, [Storage(if ptrs[k.target].loc == None then 0 else -1, 0)], map[0 := Op(LOSE, Free(0), None), 1 := Op(k, Add, None)])
    ensures Reachable(m, a, st')
  {
    IntruderCompares(m, a, k, ptrs);
    GoStep(m, a, State(ptrs, [Storage(0, 0)], map[0 := Op(LOSE, Free(0), None), 1 := Op(k, Drop, None)]), 1, st');
  }

  lemma AssignedFromAdds(m: SpinMacro, a: set<Overlap>)
    requires !m.Excludes() && AssignedFrom in a
    ensures Reachable(m, a, State(Losing().ptrs[3 := Null(Some(1))], [Storage(0, 0)], map[0 := Op(LOSE, Free(0), None), 1 := Op(Assign(3, 1), Add, None)]))
  {
    var k, locked := Assign(3, 1), Losing().ptrs[3 := Null(Some(1))];
    Intrude(m, a, k, Losing().ptrs, locked);
    IntruderDrops(m, a, k, locked, State(locked, [Storage(0, 0)], map[0 := Op(LOSE, Free(0), None), 1 := Op(k, Add, None)]));
  }

  lemma AssignedToAdds(m: SpinMacro, a: set<Overlap>)
    requires !m.Excludes() && AssignedTo in a
    ensures Reachable(m, a, State(Losing().ptrs[3 := Null(Some(1))], [Storage(-1, 0)], map[0 := Op(LOSE, Free(0), None), 1 := Op(Assign(1, 3), Add, None)]))
  {
    var k, locked := Assign(1, 3), Losing().ptrs[3 := Null(Some(1))];
    Intrude(m, a, k, Losing().ptrs, locked);
    IntruderDrops(m, a, k, locked, State(locked, [Storage(-1, 0)], map[0 := Op(LOSE, Free(0), None), 1 := Op(k, Add, None)]));
  }

  /** So is a null pointer to which pointer 1 is assigned. */
  lemma AssignedDangles(m: SpinMacro, a: set<Overlap>)
    requires !m.Excludes() && AssignedFrom in a
    ensures exists st :: Reachable(m, a, st) && !Safe(st)
  {
    AssignedFromAdds(m, a);
    var k, base, l := Assign(3, 1), Losing().ptrs, Op(LOSE, Free(0), None);
    var s1 := State(base[3 := Null(Some(1))], [Storage(0, 0)], map[0 := l, 1 := Op(k, Add, None)]);
    var ptrs := base[3 := Named(None)][1 := Named(None)];
    FinishTwo(m, a, s1, 1, State(ptrs, [Storage(1, 0)], map[0 := l]));
    LoserFinishes(m, a, ptrs, 1);
    var end := State(ptrs[1 := Null(None)][2 := Null(None)], [Storage(1, 1)], map[]);
    assert Settled(end, 3) && !NoDangling(end);
  }

  /** A second assignment to pointer 1 counts its storage down once more. */
  lemma AssignedTwiceMiscounts(m: SpinMacro, a: set<Overlap>)
    requires !m.Excludes() && AssignedTo in a
    ensures exists st :: Reachable(m, a, st) && !Safe(st)
  {
    AssignedToAdds(m, a);
    var k, base, l := Assign(1, 3), Losing().ptrs, Op(LOSE, Free(0), None);
    var s1 := State(base[3 := Null(Some(1))], [Storage(-1, 0)], map[0 := l, 1 := Op(k, Add, None)]);
    var ptrs := base[1 := Null(None)][3 := Null(None)];
    FinishTwo(m, a, s1, 1, State(ptrs, [Storage(-1, 0)], map[0 := l]));
    LoserFinishes(m, a, ptrs, -1);
    var end := State(ptrs[1 := Null(None)][2 := Null(None)], [Storage(-1, 1)], map[]);
    assert end.stores[0].count != |Naming(end, 0)|;
  }

  // ---------------------------------------------------------------- the exact condition

  /**
   Every run with the allowed overlaps is safe if and only if the spin lock waits while the lock is
   held, or no overlap is allowed at all.
   */
  lemma SafeExactly(macro: SpinMacro, allowed: set<Overlap>)
    ensures (forall st :: Reachable(macro, allowed, st) ==> Safe(st)) <==> macro.Excludes() || allowed == {}
  {
    if macro.Excludes() || allowed == {} {
      forall st | Reachable(macro, allowed, st)
        ensures Safe(st)
      {
        var events :| Exec(macro, INIT, events) == st && RunWithin(macro, allowed, events);
        if macro.Excludes() {
          WaitingLockExcludes(macro, events);
        } else {
          NoOverlapRun(macro, events);
        }
        RunKeepsInv(macro, events);
        InvIsSafe(st);
      }
    } else if CopiedFrom in allowed {
      CopyDangles(macro, allowed);
    } else if AssignedFrom in allowed {
      AssignedDangles(macro, allowed);
    } else {
      SomeOverlap(allowed);
      AssignedTwiceMiscounts(macro, allowed);
    }
  }

  lemma SomeOverlap(allowed: set<Overlap>)
    ensures allowed == {} || CopiedFrom in allowed || AssignedFrom in allowed || AssignedTo in allowed
  {
    if forall o :: o !in allowed {
      assert allowed == {};
    } else {
      var o :| o in allowed;
      assert o.CopiedFrom? || o.AssignedFrom? || o.AssignedTo?;
    }
  }

  /** Which of the macros waits. */
  lemma GccDoesNotWait()
    ensures INTERLOCKED_EXCHANGE.Excludes() && ATOMIC_SWAP.Excludes() && BOOLEAN_CAS.Excludes() && !VALUE_CAS.Excludes()
  {
  }
}
