/**
 What the operations achieve: each one that may start is under way, a destroyed pointer is gone, and
 an operation that has the pointers to itself does exactly what the program asked for.
 */
module SmartPtrEffects {
  import opened SmartPtr
  import opened SmartPtrInvariant
  import opened SmartPtrSteps
  import opened SmartPtrLocks
  import opened SmartPtrTheorems

  // ---------------------------------------------------------------- starting and finishing

  /** What C++ asks of whoever starts the operation. */
  ghost predicate MayStart(st: State, t: Thread, k: Kind) {
    && t !in st.ops
    && ((k.FromRaw? || k.CopyOf?) ==> k.target !in st.ptrs)
    && ((k.Assign? || k.Destroy?) ==> k.target in st.ptrs && st.ptrs[k.target].ready)
    && (k.Two() ==> k.source != k.target && k.source in st.ptrs && st.ptrs[k.source].ready)
    && (k.Destroy? ==> forall u :: u in st.ops ==> !st.ops[u].kind.Uses(k.target))
  }

  lemma ExecMore(macro: SpinMacro, events: seq<Event>, e: Event)
    ensures Exec(macro, INIT, events + [e]) == Next(macro, Exec(macro, INIT, events), e)
  {
    assert (events + [e])[..|events|] == events;
  }

  /** Then it is under way, and nothing else has changed but the target it takes possession of. */
  lemma OperationsStart(macro: SpinMacro, events: seq<Event>, t: Thread, k: Kind)
    requires MayStart(Exec(macro, INIT, events), t, k)
    ensures var st, st' := Exec(macro, INIT, events), Exec(macro, INIT, events + [Begin(t, k)]);
            && st'.ops == st.ops[t := Op(k, Lock1, None)] && st'.stores == st.stores
            && st'.ptrs.Keys == st.ptrs.Keys + {k.target}
            && (forall q :: q in st.ptrs && q != k.target ==> st'.ptrs[q] == st.ptrs[q])
            && st'.At(k.target).loc == st.At(k.target).loc
  {
    ExecMore(macro, events, Begin(t, k));
    RunKeepsWf(macro, events);
    assert forall u :: u in Exec(macro, INIT, events).ops ==> OpWf(Exec(macro, INIT, events), Exec(macro, INIT, events).ops[u]);
  }

  lemma AdvanceFinishes(macro: SpinMacro, st: State, t: Thread, u: Thread)
    requires t in st.ops && u in st.ops && OpWf(st, st.ops[u])
    ensures var st', k := Advance(macro, st, t), st.ops[u].kind;
            if u in st'.ops then st'.ops[u].kind == k
            else if k.Destroy? then k.target !in st'.ptrs
            else k.target in st'.ptrs && st'.ptrs[k.target].ready
  {
  }

  /** An operation stays what it is until it is over; a destroyed pointer is then gone, any other target is ready for use. */
  lemma OperationsFinish(macro: SpinMacro, events: seq<Event>, e: Event, t: Thread)
    requires t in Exec(macro, INIT, events).ops
    ensures var st', k := Exec(macro, INIT, events + [e]), Exec(macro, INIT, events).ops[t].kind;
            if t in st'.ops then st'.ops[t].kind == k
            else if k.Destroy? then k.target !in st'.ptrs
            else k.target in st'.ptrs && st'.ptrs[k.target].ready
  {
    ExecMore(macro, events, e);
    RunKeepsWf(macro, events);
    var st := Exec(macro, INIT, events);
    assert OpWf(st, st.ops[t]);
    if e.Step? && e.t in st.ops {
      AdvanceFinishes(macro, st, e.t, t);
    }
  }

  /** Once a destructor has started, it is under way until the pointer is gone. */
  lemma {:induction false} DestroyedIsGone(macro: SpinMacro, events: seq<Event>, t: Thread, p: Address, later: seq<Event>)
    requires MayStart(Exec(macro, INIT, events), t, Destroy(p))
    ensures var run := events + [Begin(t, Destroy(p))];
            var end := Exec(macro, INIT, run + later);
            || (t in end.ops && end.ops[t].kind == Destroy(p))
            || exists i :: 0 <= i <= |later| && p !in Exec(macro, INIT, run + later[..i]).ptrs
  {
    var run := events + [Begin(t, Destroy(p))];
    if later == [] {
      OperationsStart(macro, events, t, Destroy(p));
      assert run + later == run;
    } else {
      var before, n := later[..|later| - 1], |later|;
      DestroyedIsGone(macro, events, t, p, before);
      assert run + later == run + before + [later[n - 1]];
      assert later[..n] == later;
      if i :| 0 <= i <= |before| && p !in Exec(macro, INIT, run + before[..i]).ptrs {
        assert before[..i] == later[..i];
      } else {
        OperationsFinish(macro, run + before, later[n - 1], t);
      }
    }
  }

  // ---------------------------------------------------------------- an operation on its own

  /** The storage the target is to name. */
  function Outcome(st: State, k: Kind): Option<StorageId> {
    match k
    case FromRaw(_) => Some(|st.stores|)
    case CopyOf(_, q) => st.At(q).loc
    case Assign(_, q) => st.At(q).loc
    case Destroy(_) => None
  }

  /** `end` is `st` after `k`: the target names what it should, or is gone, and no other pointer has moved. */
  ghost predicate Done(st: State, k: Kind, end: State) {
    && end.ops == map[]
    && end.ptrs.Keys == (if k.Destroy? then st.ptrs.Keys - {k.target} else st.ptrs.Keys + {k.target})
    && (forall q :: q in end.ptrs ==> end.ptrs[q].loc == if q == k.target then Outcome(st, k) else st.At(q).loc)
    && |end.stores| == if k.FromRaw? then |st.stores| + 1 else |st.stores|
  }

  /** The target has been written, or need not be. */
  predicate Late(op: Op) {
    op.pc.Unlock2? || (op.pc.Unlock1? && !op.kind.Destroy?)
  }

  /** Thread `t` is carrying out `k`, and nobody else is doing anything. */
  ghost predicate Doing(st: State, t: Thread, k: Kind, cur: State) {
    && t in cur.ops && cur.ops.Keys == {t} && cur.ops[t].kind == k && PcFits(cur.ops[t])
    && cur.ptrs.Keys == st.ptrs.Keys + {k.target} && k.Source() in cur.ptrs && (k.Two() ==> k.source != k.target)
    && (forall q :: q in cur.ptrs ==> cur.ptrs[q].loc == if q == k.target && Late(cur.ops[t]) then Outcome(st, k) else st.At(q).loc)
    && var early := cur.ops[t].pc.Lock1? || cur.ops[t].pc.Make?;
       && |cur.stores| == (if k.FromRaw? && !early then |st.stores| + 1 else |st.stores|)
       && (k.FromRaw? && !early ==> cur.ops[t].made == Some(|st.stores|))
  }

  lemma BlindAlone(st: State, t: Thread, k: Kind, cur: State, cur': State)
    requires Doing(st, t, k, cur) && Blind(cur, cur')
    ensures Doing(st, t, k, cur')
  {
  }

  lemma SpinAlone(macro: SpinMacro, st: State, t: Thread, k: Kind, cur: State)
    requires Doing(st, t, k, cur) && (cur.ops[t].pc.Lock1? || cur.ops[t].pc.Lock2?)
    ensures Doing(st, t, k, Advance(macro, cur, t))
  {
    var p := if cur.ops[t].pc.Lock1? then k.First() else k.Second();
    var next := if cur.ops[t].pc.Lock1? && k.Two() then Lock2 else k.Body();
    var locked := if cur.At(p).lock.Some? then cur else cur.WithLock(p, Some(t));
    LockIsBlind(cur, p, Some(t));
    BlindAlone(st, t, k, cur, locked);
    assert Advance(macro, cur, t) == if macro.LoopEnds(cur.At(p).lock.Some?) then locked.WithPc(t, next) else locked;
    MoveAlone(st, t, k, locked, next);
  }

  lemma MoveAlone(st: State, t: Thread, k: Kind, cur: State, pc: Pc)
    requires Doing(st, t, k, cur) && (cur.ops[t].pc.Lock1? || cur.ops[t].pc.Lock2?)
    requires pc == (if cur.ops[t].pc.Lock1? && k.Two() then Lock2 else k.Body())
    ensures Doing(st, t, k, cur.WithPc(t, pc))
  {
  }

  lemma MakeAlone(macro: SpinMacro, st: State, t: Thread, k: Kind, cur: State)
    requires Doing(st, t, k, cur) && cur.ops[t].pc.Make?
    ensures Doing(st, t, k, Advance(macro, cur, t))
  {
  }

  lemma CountAlone(macro: SpinMacro, st: State, t: Thread, k: Kind, cur: State)
    requires Doing(st, t, k, cur) && (cur.ops[t].pc.Drop? || cur.ops[t].pc.Free? || cur.ops[t].pc.Add?)
    ensures Doing(st, t, k, Advance(macro, cur, t))
  {
    var cur' := Advance(macro, cur, t);
    assert cur'.ptrs == cur.ptrs && |cur'.stores| == |cur.stores|;
  }

  lemma WriteAlone(macro: SpinMacro, st: State, t: Thread, k: Kind, cur: State)
    requires Doing(st, t, k, cur) && (cur.ops[t].pc.Compare? || cur.ops[t].pc.Write?)
    ensures Doing(st, t, k, Advance(macro, cur, t))
  {
  }

  lemma UnlockAlone(macro: SpinMacro, st: State, t: Thread, k: Kind, cur: State)
    requires Doing(st, t, k, cur) && (cur.ops[t].pc.Unlock1? || cur.ops[t].pc.Unlock2?)
    ensures var cur' := Advance(macro, cur, t); Doing(st, t, k, cur') || Done(st, k, cur')
  {
  }

  /** At every moment of its steps the operation is under way on its own, or done. */
  lemma {:induction false} StepsAlone(macro: SpinMacro, st: State, t: Thread, k: Kind, cur: State, steps: seq<Event>)
    requires Doing(st, t, k, cur) && forall i :: 0 <= i < |steps| ==> steps[i].Step?
    ensures var end := Exec(macro, cur, steps); Doing(st, t, k, end) || Done(st, k, end)
  {
    if steps != [] {
      var before, e := steps[..|steps| - 1], steps[|steps| - 1];
      StepsAlone(macro, st, t, k, cur, before);
      var mid := Exec(macro, cur, before);
      if Doing(st, t, k, mid) && e.t == t {
        match mid.ops[t].pc
        case Lock1 => SpinAlone(macro, st, t, k, mid);
        case Lock2 => SpinAlone(macro, st, t, k, mid);
        case Make => MakeAlone(macro, st, t, k, mid);
        case Compare => WriteAlone(macro, st, t, k, mid);
        case Write => WriteAlone(macro, st, t, k, mid);
        case Unlock1 => UnlockAlone(macro, st, t, k, mid);
        case Unlock2 => UnlockAlone(macro, st, t, k, mid);
        case _ => CountAlone(macro, st, t, k, mid);
      }
    }
  }

  lemma StartAlone(macro: SpinMacro, events: seq<Event>, t: Thread, k: Kind)
    requires Exec(macro, INIT, events).ops == map[] && MayStart(Exec(macro, INIT, events), t, k)
    ensures Doing(Exec(macro, INIT, events), t, k, Exec(macro, INIT, events + [Begin(t, k)]))
  {
    OperationsStart(macro, events, t, k);
  }

  /** A run that goes on with one operation at a time stays exclusive. */
  lemma AloneIsExclusive(macro: SpinMacro, events: seq<Event>, t: Thread, k: Kind, steps: seq<Event>)
    requires ExclusiveRun(macro, events) && Exec(macro, INIT, events).ops == map[]
    requires MayStart(Exec(macro, INIT, events), t, k) && forall i :: 0 <= i < |steps| ==> steps[i].Step?
    ensures ExclusiveRun(macro, events + [Begin(t, k)] + steps)
  {
    var st, begun := Exec(macro, INIT, events), events + [Begin(t, k)];
    var run := begun + steps;
    forall i {:trigger run[..i]} | 0 <= i <= |run|
      ensures Exclusive(Exec(macro, INIT, run[..i]))
    {
      if i <= |events| {
        assert run[..i] == events[..i];
      } else {
        var some := steps[..i - |begun|];
        assert run[..i] == begun + some;
        ExecAppend(macro, INIT, begun, some);
        StartAlone(macro, events, t, k);
        StepsAlone(macro, st, t, k, Exec(macro, INIT, begun), some);
      }
    }
  }

  /**
   From a state at rest, whatever happened before, an operation that runs on its own and finishes
   has done what it was asked to do, with exact counts and every storage without a pointer freed.
   */
  lemma AloneDelivers(macro: SpinMacro, events: seq<Event>, t: Thread, k: Kind, steps: seq<Event>)
    requires ExclusiveRun(macro, events) && Exec(macro, INIT, events).ops == map[]
    requires MayStart(Exec(macro, INIT, events), t, k) && forall i :: 0 <= i < |steps| ==> steps[i].Step?
    requires Exec(macro, INIT, events + [Begin(t, k)] + steps).ops == map[]
    ensures var st, end := Exec(macro, INIT, events), Exec(macro, INIT, events + [Begin(t, k)] + steps);
            Done(st, k, end) && Safe(end)
  {
    var st, begun := Exec(macro, INIT, events), events + [Begin(t, k)];
    StartAlone(macro, events, t, k);
    StepsAlone(macro, st, t, k, Exec(macro, INIT, begun), steps);
    ExecAppend(macro, INIT, begun, steps);
    AloneIsExclusive(macro, events, t, k, steps);
    RunKeepsInv(macro, begun + steps);
    InvIsSafe(Exec(macro, INIT, begun + steps));
  }

  /** Destroying the last pointer to a storage frees it, once; destroying any other frees nothing. */
  lemma LastPointerFrees(macro: SpinMacro, events: seq<Event>, t: Thread, p: Address, steps: seq<Event>, s: StorageId)
    requires ExclusiveRun(macro, events) && Exec(macro, INIT, events).ops == map[]
    requires MayStart(Exec(macro, INIT, events), t, Destroy(p)) && forall i :: 0 <= i < |steps| ==> steps[i].Step?
    requires Exec(macro, INIT, events + [Begin(t, Destroy(p))] + steps).ops == map[]
    requires s < |Exec(macro, INIT, events).stores|
    ensures var st, end := Exec(macro, INIT, events), Exec(macro, INIT, events + [Begin(t, Destroy(p))] + steps);
            && p !in end.ptrs && |end.stores| == |st.stores| && Naming(end, s) == Naming(st, s) - {p}
            && end.stores[s].count == |Naming(st, s) - {p}|
            && end.stores[s].frees == if Naming(st, s) <= {p} then 1 else 0
  {
    AloneDelivers(macro, events, t, Destroy(p), steps);
    var st, end := Exec(macro, INIT, events), Exec(macro, INIT, events + [Begin(t, Destroy(p))] + steps);
    assert Naming(end, s) == Naming(st, s) - {p};
  }
}
