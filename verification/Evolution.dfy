/**
 Whole runs of the search: codes come from the shuffle, are crossed, and are mutated by block swaps
 between a preparation and an acceptance or rejection (TSP/TspAlgorithm.cpp:21-140,
 TSP/inc/MultiValueChromosome.h:164-211, 415-427). Any order of these, on any population, keeps
 every code an order of the registered cities.
 */
module Evolution {
  import opened Tour
  import opened Chromosomes
  import opened Crossovers
  import opened CrossoverTheorems

  /** A chromosome; while a mutation is under way, `phase` remembers the code it started from. */
  datatype Phase<T> = Idle | Mutating(before: seq<T>)
  datatype Genome<T> = Genome(code: Code<T>, phase: Phase<T>)

  datatype Event<T> =
    | Born(draws: seq<nat>)
    | Cross(i: nat, j: nat, child: seq<T>)
    | Prepare(i: nat)
    | Swap(i: nat, swaps: seq<BlockSwap>)
    | Accept(i: nat)
    | Reject(i: nat)

  /** What the search does next is up to it, within what each operation is defined for. */
  ghost predicate Allowed<T(!new)>(d: Distance<T>, registry: seq<T>, pop: seq<Genome<T>>, e: Event<T>) {
    match e
    case Born(draws) => |draws| == |registry| && forall k :: 0 <= k < |draws| ==> draws[k] < |registry|
    case Cross(i, j, child) => i < |pop| && j < |pop| && GreedyChild(d, pop[i].code.values, pop[j].code.values, child)
    case Prepare(i) => i < |pop| && pop[i].phase.Idle?
    case Swap(i, swaps) => i < |pop| && SwapsInRange(|pop[i].code.values|, swaps)
    case Accept(i) => i < |pop| && pop[i].phase.Mutating?
    case Reject(i) => i < |pop| && pop[i].phase.Mutating?
  }

  ghost function Next<T(!new)>(d: Distance<T>, registry: seq<T>, pop: seq<Genome<T>>, e: Event<T>): seq<Genome<T>> {
    if !Allowed(d, registry, pop, e) then pop
    else match e
      case Born(draws) => pop + [Genome(Code(Shuffled(registry, draws), []), Idle)]
      case Cross(_, _, child) => pop + [Genome(Code(child, []), Idle)]
      case Prepare(i) => pop[i := Genome(pop[i].code.Prepared(), Mutating(pop[i].code.values))]
      case Swap(i, swaps) => pop[i := Genome(pop[i].code.(values := SwappedAll(pop[i].code.values, swaps)), pop[i].phase)]
      case Accept(i) => pop[i := Genome(pop[i].code.Accepted(), Idle)]
      case Reject(i) => pop[i := Genome(pop[i].code.Rejected(), Idle)]
  }

  ghost function Run<T(!new)>(d: Distance<T>, registry: seq<T>, events: seq<Event<T>>): seq<Genome<T>> {
    if events == [] then [] else
      Next(d, registry, Run(d, registry, events[..|events| - 1]), events[|events| - 1])
  }

  /** The code is an order of the registry, and the backup is the code the mutation started from. */
  ghost predicate Sound<T>(registry: seq<T>, g: Genome<T>) {
    && multiset(g.code.values) == multiset(registry)
    && match g.phase
       case Idle => g.code.backup == []
       case Mutating(before) => g.code.backup == before && multiset(before) == multiset(registry)
  }

  lemma PermutationsMatch<T(!new)>(registry: seq<T>, v: seq<T>, w: seq<T>)
    requires Distinct(registry) && 2 <= |registry| && multiset(v) == multiset(registry) == multiset(w)
    ensures SameCities(v, w)
  {
    DistinctFromBag(registry, v);
    DistinctFromBag(registry, w);
    assert |multiset(v)| == |v| && |multiset(w)| == |w| && |multiset(registry)| == |registry|;
    forall c
      ensures c in v <==> c in w
    {
      assert c in v <==> c in multiset(v);
      assert c in w <==> c in multiset(w);
    }
  }

  lemma DistinctFromBag<T>(registry: seq<T>, v: seq<T>)
    requires Distinct(registry) && multiset(v) == multiset(registry)
    ensures Distinct(v)
  {
    DistinctBag(registry);
    forall i, j | 0 <= i < j < |v|
      ensures v[i] != v[j]
    {
      var a, b := v[..j], v[j..];
      assert v == a + b && a[i] == v[i] && b[0] == v[j];
      assert multiset(v) == multiset(a) + multiset(b);
      assert v[i] in multiset(a) && v[j] in multiset(b);
      assert multiset(v)[v[i]] <= 1;
    }
  }

  lemma StepIsSound<T(!new)>(d: Distance<T>, registry: seq<T>, pop: seq<Genome<T>>, e: Event<T>)
    requires Distinct(registry) && 2 <= |registry|
    requires forall i :: 0 <= i < |pop| ==> Sound(registry, pop[i])
    ensures forall i :: 0 <= i < |Next(d, registry, pop, e)| ==> Sound(registry, Next(d, registry, pop, e)[i])
  {
    if Allowed(d, registry, pop, e) {
      match e
      case Born(draws) => ShuffledPermutes(registry, draws);
      case Cross(i, j, child) =>
        PermutationsMatch(registry, pop[i].code.values, pop[j].code.values);
        GreedyChildIsPermutation(d, pop[i].code.values, pop[j].code.values, child);
      case Prepare(i) => assert pop[i].code.values + [] == pop[i].code.values;
      case Swap(i, swaps) => SwappedAllPermutes(pop[i].code.values, swaps);
      case Accept(i) =>
      case Reject(i) =>
    }
  }

  /** In every run every code is an order of the registered cities. */
  lemma {:induction false} EveryCodeIsATour<T(!new)>(d: Distance<T>, registry: seq<T>, events: seq<Event<T>>)
    requires Distinct(registry) && 2 <= |registry|
    ensures forall i :: 0 <= i < |Run(d, registry, events)| ==> Sound(registry, Run(d, registry, events)[i])
  {
    if events != [] {
      EveryCodeIsATour(d, registry, events[..|events| - 1]);
      StepIsSound(d, registry, Run(d, registry, events[..|events| - 1]), events[|events| - 1]);
    }
  }

  /** Rejecting a mutation restores exactly the code it started from, whatever was swapped in between. */
  lemma RejectRestores<T(!new)>(d: Distance<T>, registry: seq<T>, events: seq<Event<T>>, i: nat)
    requires Distinct(registry) && 2 <= |registry|
    requires i < |Run(d, registry, events)| && Run(d, registry, events)[i].phase.Mutating?
    ensures Next(d, registry, Run(d, registry, events), Reject(i))[i] == Genome(Code(Run(d, registry, events)[i].phase.before, []), Idle)
  {
    EveryCodeIsATour(d, registry, events);
    assert Sound(registry, Run(d, registry, events)[i]);
  }

  lemma RunMore<T(!new)>(d: Distance<T>, registry: seq<T>, events: seq<Event<T>>, e: Event<T>)
    ensures Run(d, registry, events + [e]) == Next(d, registry, Run(d, registry, events), e)
  {
    assert (events + [e])[..|events|] == events;
  }

  /** At any time any order of the cities can be born, and any greedy child of two codes can join them. */
  lemma OrdersJoin<T(!new)>(d: Distance<T>, registry: seq<T>, events: seq<Event<T>>, order: seq<T>) returns (draws: seq<nat>)
    requires multiset(order) == multiset(registry)
    ensures Run(d, registry, events + [Born(draws)]) == Run(d, registry, events) + [Genome(Code(order, []), Idle)]
  {
    draws := ShuffleReaches(registry, order);
    assert |multiset(order)| == |order| && |multiset(registry)| == |registry|;
    RunMore(d, registry, events, Born(draws));
  }

  lemma ChildrenJoin<T(!new)>(d: Distance<T>, registry: seq<T>, events: seq<Event<T>>, i: nat, j: nat, child: seq<T>)
    requires i < |Run(d, registry, events)| && j < |Run(d, registry, events)|
    requires GreedyChild(d, Run(d, registry, events)[i].code.values, Run(d, registry, events)[j].code.values, child)
    ensures Run(d, registry, events + [Cross(i, j, child)]) == Run(d, registry, events) + [Genome(Code(child, []), Idle)]
  {
    RunMore(d, registry, events, Cross(i, j, child));
  }

  /** A chromosome's improving-only mutation is three events of a run, with the same outcome. */
  lemma MutationIsThreeEvents<T(!new)>(d: Distance<T>, registry: seq<T>, pop: seq<Genome<T>>, i: nat, swaps: seq<BlockSwap>, keep: bool)
    requires i < |pop| && pop[i].phase.Idle? && pop[i].code.backup == [] && SwapsInRange(|pop[i].code.values|, swaps)
    ensures var v := pop[i].code.values;
            Next(d, registry, Next(d, registry, Next(d, registry, pop, Prepare(i)), Swap(i, swaps)), if keep then Accept(i) else Reject(i))
            == pop[i := Genome(Code(if keep then SwappedAll(v, swaps) else v, []), Idle)]
  {
    var v := pop[i].code.values;
    assert v + [] == v;
    var prepared := pop[i := Genome(Code(v, v), Mutating(v))];
    assert Next(d, registry, pop, Prepare(i)) == prepared;
    assert Next(d, registry, prepared, Swap(i, swaps)) == pop[i := Genome(Code(SwappedAll(v, swaps), v), Mutating(v))];
  }

  /** Every two codes of a run can be crossed: the crossover's conditions always hold. */
  lemma CrossoverIsAlwaysDefined<T(!new)>(d: Distance<T>, registry: seq<T>, events: seq<Event<T>>, i: nat, j: nat)
    requires Distinct(registry) && 2 <= |registry|
    requires i < |Run(d, registry, events)| && j < |Run(d, registry, events)|
    ensures SameCities(Run(d, registry, events)[i].code.values, Run(d, registry, events)[j].code.values)
  {
    EveryCodeIsATour(d, registry, events);
    var pop := Run(d, registry, events);
    assert Sound(registry, pop[i]) && Sound(registry, pop[j]);
    PermutationsMatch(registry, pop[i].code.values, pop[j].code.values);
  }
}
