# Verified model of the delivery planner and its genetic search

The program plans deliveries. A genetic search finds a short closed tour through all stops; the tour is
rotated to start at the depot; a greedy scan with a feedback loop shares the stops among the vehicles;
each vehicle's stops are searched again on their own. Underneath are a genetic-algorithm library
(chromosome codes, value sets, reference-counted pointers) and two byte-level fast forms. This project
models these parts in Dafny 4.11 and proves what they promise. `dafny verify dfyconfig.toml` checks it all.

| file | what it models |
|---|---|
| `LoadBalance.dfy` | the greedy scan as a function of the average pay, and why feedback on the average works |
| `Dispatch.dfy` | the scan and the feedback loop as code over two 512-cell arrays |
| `Tour.dfy` | fitness, depot rotation, emitted legs |
| `Routing.dfy` | the city registry and the per-vehicle sub-problems |
| `Chromosome.dfy` | block swap, insert/remove, recombination buffer, mutation backup, shuffle |
| `Crossover.dfy`, `CrossoverTheorems.dfy` | the greedy crossover and what every child satisfies |
| `Evolution.dfy` | whole runs of the search |
| `SmartPtr.dfy`, `SmartPtrInvariant.dfy`, `SmartPtrCounts.dfy`, `SmartPtrSteps.dfy` | the smart pointer as an interleaving protocol, and the invariant every step keeps |
| `SmartPtrLocks.dfy`, `SmartPtrTheorems.dfy`, `SmartPtrEffects.dfy`, `SmartPtrOverlaps.dfy` | what its locks guarantee, what follows for whole runs, what the operations achieve, and which programs are safe with which spin lock |
| `ValueSet.dfy` | the paired value set |
| `SpaceSkip.dfy`, `Hash.dfy` | the trailing-space skip and the string hash |

## Main results

- **The feedback search is complete.** The scan closes each group no later than any other split into full
  groups would (`StaysAhead`), so raising the average can only lower the number of closed groups and, at
  equal number, the open tail's pay. The scan's groups are the only exact split there can be, so a pass is
  accepted exactly when the stops can be shared exactly at its average (`AcceptedExactly`). Hence the verdicts
  along the averages are ordered, and the loop ends without the re-call if and only if an exact split exists at
  an average within 129 adjustments of 2000; it stops at the nearest one and leaves that split in the arrays. An
  average exactly 130 adjustments away is found and thrown away again by the re-call.
- **Reference counting is exact under every interleaving** that leaves each assignment its target: counts,
  single free, no dangling pointer, no use after free. A spin lock that waits while the lock is held makes
  every run such a run. The GCC definition at TSP/inc/Threading.h:160 does not wait: it loops on the *old
  value* of a compare-and-swap, so it leaves the loop when the lock is held and spins once more when it was
  free. `SafeExactly` gives the condition for any such loop and any program: all its runs are safe if and only
  if the loop waits, or no other operation copies from, assigns from or assigns to the target of an assignment
  under way. Each of these three overlaps alone breaks the counts (`CopyDangles`, `AssignedDangles`,
  `AssignedTwiceMiscounts`).
- **The operations do what they are for.** Every operation that may start is under way until its effect is
  there: a destroyed pointer is gone, a copied or assigned one names its source's storage. Destroying the last
  pointer frees the storage, once (`AloneDelivers`, `DestroyedIsGone`, `LastPointerFrees`).
- **No deadlock, with any of the spin locks**: in every reachable state with an unfinished operation some step
  changes the state, and every run can be finished in boundedly many steps (`NoDeadlock`, `EveryRunCanFinish`).
- **Crossover** always returns a permutation, every step is a nearest unvisited neighbour, and a tour shared
  by both parents (rotated or reflected) comes out again whatever the distances and random draws.
- **Fitness and emitted length.** The fitness walks the tour backwards. It equals the length finally emitted
  for all tours through the registered cities if and only if every triangle of cities is equally long both
  ways (`EmittedIsFitnessExactly`); this holds with or without fixing the depot as first stop.
- **The plan serves every stop once.** Whatever orders the searches return, each stop behind the depot
  belongs to exactly one vehicle, whose tour is the one the search found for it, measured by the distance table of
  the whole problem.

Pays, counts and distances are unbounded integers and reals; random draws are inputs, any values in range.

## Model

| member | source | states |
|---|---|---|
| LoadBalance.RunShape | TSP/TspView.cpp:733-756 | after any number of stops the closed groups are contiguous, full and no longer full without their last stop, and the open group is exactly the rest |
| LoadBalance.StaysAhead | TSP/TspView.cpp:737-756 | against any split into full groups the scan closes its k-th group no later |
| LoadBalance.GreedyIsOptimal | TSP/TspView.cpp:737-756 | no split into full groups has more groups than the scan closes |
| LoadBalance.ScanIsUnique | TSP/TspView.cpp:733-756 | any split into groups that are full, stop being full without their last stop and leave a tail that is not full is the scan's |
| LoadBalance.RaisingTheAverage | TSP/TspView.cpp:737-756 | a higher average delays every closing, never closes more groups, and at equal number leaves no more pay in the tail |
| LoadBalance.VerdictsAreOrdered | TSP/TspView.cpp:758-788 | "too many" lies below the accepting averages, "too few or empty tail" above |
| LoadBalance.NothingBehind | TSP/TspView.cpp:758-788 | behind a rejected average every average is rejected the same way |
| LoadBalance.PassStaysInRange | TSP/TspView.cpp:733-756 | the running pay stays between 0 and the total, the group index within the stops scanned |
| Dispatch.RecordStep | TSP/TspView.cpp:739-753 | writing one stop keeps the arrays equal to the scan, untouched cells included |
| Dispatch.GroupsAddUp | TSP/TspView.cpp:744-751 | the pay cells of the closed groups add up to the pay of the stops they cover |
| Dispatch.AcceptedIsExact | TSP/TspView.cpp:776-786 | an accepted pass leaves strictly increasing flags ending at the last stop, exact group pays adding up to the total, closed groups of at most 11 stops made full only by their last one, and a nonempty tail of at most 10 |
| Dispatch.AcceptedExactly | TSP/TspView.cpp:758-788 | a pass is accepted if and only if an exact split exists at its average |
| Dispatch.NothingCloser | TSP/TspView.cpp:758-796 | walking in the direction of the verdict passes over no acceptable average |
| Dispatch.Rejected | TSP/TspView.cpp:758-796 | a rejection continues the walk, or shows that no average the loop can reach is acceptable |
| Dispatch.TurnedBack | TSP/TspView.cpp:758-796 | once the direction turns without acceptance, nothing reachable is acceptable |
| Dispatch.TspView.constructor | TSP/TspView.cpp:21-37 | all 512 cells of both arrays are zero |
| Dispatch.TspView.ScanPass | TSP/TspView.cpp:733-756 | one pass writes exactly the scan into the arrays and leaves every other cell as it was |
| Dispatch.TspView.LastCell | TSP/TspView.cpp:776-783 | started on cells that are zero from the last vehicle on, a pass with the right number of groups leaves the tail's pay in the last vehicle's cell, and a rejected one leaves those cells zero |
| Dispatch.TspView.OnCalcDeliveryData | TSP/TspView.cpp:731-807 | no re-call if and only if an exact split exists at an average fewer than 130 adjustments of 2000 away; then the nearest such average is reached in that many adjustments, with the split in the arrays |
| Tour.CycleRotates | TSP/TspAlgorithm.cpp:147-149 | a closed tour has the same length from every start |
| Tour.CycleReverse | TSP/TspAlgorithm.cpp:147-149 | walking a tour backwards is walking the reversed tour forwards |
| Tour.TspFitness | TSP/TspAlgorithm.cpp:142-152 | the fitness is the forward length of the reversed tour |
| Tour.FindDepot | TSP/TspView.cpp:547-559 | the first stop that is the depot, or 0 when there is none |
| Tour.Relocate | TSP/TspView.cpp:561-575 | the relocated route is the rotation that starts at the depot |
| Tour.RelocationKeepsTheTour | TSP/TspView.cpp:561-575 | relocation visits the same stops, starts at the depot and keeps the fitness |
| Tour.EmitLegs | TSP/TspView.cpp:1083-1157 | one leg from every stop to the next, the last back to the first, each with its own distance |
| Tour.LegsAddUp | TSP/TspView.cpp:1083-1157 | the distances of the emitted legs add up to the closed tour |
| Tour.BalancedCycle | TSP/TspAlgorithm.cpp:147-149 | where every triangle is equally long both ways, so is every tour |
| Tour.EmittedIsFitnessExactly | TSP/TspView.cpp:1083-1157 | emitted length and minimised fitness agree on all tours through every registered city if and only if all triangles of cities are balanced |
| Tour.DepotFirstSuffices | TSP/TspView.cpp:1011-1031 | they agree on the tours that start at the depot if and only if they agree on all |
| Tour.OneWayRoads | TSP/TspAlgorithm.cpp:147-149 | with one-way distances they differ: a tour of length 3 with fitness 15 |
| Routing.SubProblemDistance | TSP/TspCity.cpp:20-39 | a vehicle's tour over its renumbered cities has, both ways, the length that the whole problem's table gives for the original stops, counted from 1 |
| Routing.Cities.AddCityExt | TSP/TspCity.cpp:62-82 | a new city takes the next id and never replaces an entry |
| Routing.Cities.GetCities | TSP/TspCity.cpp:146-153 | every registered city is listed exactly once, in any order |
| Routing.Cities.RouteBestSearch | TSP/TspView.cpp:911-984 | the registry holds the depot as city 1 and then exactly the window's stops, with their original numbers |
| Routing.Cities.OnResearchDeliveryData | TSP/TspView.cpp:841-897 | one tour per vehicle, each visiting the depot and its window once and each what the search made of some listing of them, for any search |
| Routing.SearchBoundHolds | TSP/TspView.cpp:855-889 | a length the search can promise for a vehicle's cities in any order holds for the plan's tour |
| Routing.WindowsPartition | TSP/TspView.cpp:841-895 | every stop behind the depot is in exactly one window |
| Routing.EveryStopServedOnce | TSP/TspView.cpp:845-897 | every stop behind the depot is served by exactly one vehicle, the depot by all |
| Routing.VehicleStartsAtDepot | TSP/TspView.cpp:1009-1033 | rotated to its city with id 1, each vehicle's tour starts at the depot of the whole problem and still covers its window |
| Chromosomes.TradeBack | TSP/inc/MultiValueChromosome.h:194-210 | trading the moved blocks again restores the code |
| Chromosomes.SwapTradesPlaces | TSP/inc/MultiValueChromosome.h:174-210 | two separate blocks trade places, whichever is named first |
| Chromosomes.SwapCutsOverlap | TSP/inc/MultiValueChromosome.h:186-192 | of an overlapping second block only the part behind the first one moves |
| Chromosomes.SwapPermutes | TSP/inc/MultiValueChromosome.h:164-211 | no value is lost or doubled, overlap or not |
| Chromosomes.SwapUndone | TSP/inc/MultiValueChromosome.h:164-211 | swapping the moved blocks back restores the code, overlap or not |
| Chromosomes.SwapOfOne | TSP/inc/MultiValueChromosome.h:164-211 | with blocks of one value the swap is a transposition and undoes itself |
| Chromosomes.SwapsInTurn | TSP/inc/Chromosome.h:503-511 | a list of swaps is the swap of each in turn: none changes nothing, one is the block swap, and lists compose |
| Chromosomes.RemoveUndoesInsert | TSP/inc/MultiValueChromosome.h:125-157 | removing what was inserted restores the code |
| Chromosomes.InsertUndoesRemove | TSP/inc/MultiValueChromosome.h:125-157 | inserting what was removed restores the code |
| Chromosomes.Chromosome.Remove | TSP/inc/MultiValueChromosome.h:125-130 | removes exactly the range, or nothing for bad arguments |
| Chromosomes.Chromosome.Insert | TSP/inc/MultiValueChromosome.h:135-157 | inserts the snapped values at the place, or nothing for bad arguments |
| Chromosomes.Chromosome.Swap | TSP/inc/MultiValueChromosome.h:164-211 | the new code is the repaired block swap of the old one |
| Chromosomes.Chromosome.FillBuffer | TSP/inc/MultiValueChromosome.h:249-268 | appends exactly the clamped slice to the buffer's contents |
| Chromosomes.Chromosome.FromBuffer | TSP/inc/MultiValueChromosome.h:273-284 | the code becomes the buffer's contents |
| Chromosomes.CodeValuesBuffer.constructor | TSP/inc/RepresentationInterfaces.h:74-76 | an empty buffer of the given capacity |
| Chromosomes.Recombine | TSP/inc/MultiValueChromosome.h:249-284 | any sequence of fills from any parents, read back, is the concatenation of the clamped slices, inside the buffer when that fits |
| Chromosomes.SlicesJoin | TSP/inc/MultiValueChromosome.h:249-268 | clamped slices that follow each other, anywhere in the code, join to the slice of both sizes |
| Chromosomes.FullFillIsRoundTrip | TSP/inc/MultiValueChromosome.h:249-284 | a fill with the whole code reads back as the code |
| Chromosomes.TwoFillsRejoin | TSP/inc/MultiValueChromosome.h:249-284 | a code cut anywhere and filled in two parts is whole again |
| Chromosomes.Chromosome.Mutation | TSP/inc/Chromosome.h:503-511 | any swaps are done in turn, keep the values and leave no backup; an improving-only mutation that is not better leaves the code as it was |
| Chromosomes.Chromosome.GetCityPosition | TSP/TspAlgorithm.cpp:40-49 | the last place holding the city, or -1 when no place does |
| Chromosomes.MakeNewFromPrototype | TSP/TspAlgorithm.cpp:21-38 | the new code is the shuffle of the registry by exactly the given draws, and a permutation of it |
| Chromosomes.ShuffleReaches | TSP/TspAlgorithm.cpp:27-35 | every order of the cities is reached by some draws |
| Crossovers.BestNeighbourIsNearest | TSP/TspAlgorithm.cpp:83-113 | the scan picks an unvisited neighbour of minimal distance, and none exactly when all neighbours are visited |
| Crossovers.ScanNeighbours | TSP/TspAlgorithm.cpp:85-112 | one parent's turn, branch by branch over the `taken` array, is the ordered scan of both cyclic neighbours |
| Crossovers.FindUntaken | TSP/TspAlgorithm.cpp:117-127 | the modular scan returns the first untaken place backwards from any start, and fails only when all are taken |
| Crossovers.NextCity | TSP/TspAlgorithm.cpp:81-131 | the next city is a greedy step, or the drawn one when all neighbours are visited, and there is none only when all cities are |
| Crossovers.Visit | TSP/TspAlgorithm.cpp:73-79 | appends the city and keeps both `taken` arrays marking exactly the child's cities |
| Crossovers.Crossover | TSP/TspAlgorithm.cpp:51-140 | terminates with a child that starts at the drawn city, has every city once, and whose every step is greedy or, without an unvisited neighbour, to the city drawn |
| CrossoverTheorems.GreedyChildIsPermutation | TSP/TspAlgorithm.cpp:51-140 | the child is a permutation of the parents' cities |
| CrossoverTheorems.EveryEdgeIsGreedy | TSP/TspAlgorithm.cpp:81-128 | while a neighbour in either parent is unvisited, the child goes on to the nearest such neighbour |
| CrossoverTheorems.FirstNearestWins | TSP/TspAlgorithm.h:70-74 | of several nearest unvisited neighbours the first looked at is taken: second parent before first, predecessor before successor |
| CrossoverTheorems.StepStaysOnTour | TSP/TspAlgorithm.cpp:81-128 | with a shared tour each step goes to a neighbour on that tour |
| CrossoverTheorems.SharedTourSurvives | TSP/TspAlgorithm.cpp:69-134 | parents that are one closed tour, rotated or reflected, have that tour as child |
| Evolution.EveryCodeIsATour | TSP/TspAlgorithm.cpp:21-140 | in every run every code is a permutation of the registry and every backup the code its mutation started from |
| Evolution.OrdersJoin | TSP/TspAlgorithm.cpp:21-38 | at any time any order of the cities can join the population |
| Evolution.RejectRestores | TSP/inc/MultiValueChromosome.h:416-427 | rejecting restores exactly the code the mutation started from, after any swaps |
| Evolution.MutationIsThreeEvents | TSP/inc/Chromosome.h:503-511 | a chromosome's improving-only mutation is preparation, swaps and verdict of a run, with the same outcome |
| Evolution.CrossoverIsAlwaysDefined | TSP/TspAlgorithm.cpp:51-79 | any two codes of any run meet the crossover's conditions |
| SmartPtrSteps.StepSpin | TSP/inc/SmartPtr.h:332-356 | a round on either lock, with any macro, keeps references, counts and frees exact while targets stay exclusive |
| SmartPtrSteps.StepDrop | TSP/inc/SmartPtr.h:88-102 | the atomic decrement keeps all counts exact and hands the storage to one thread to free when it reaches zero |
| SmartPtrSteps.StepFree | TSP/inc/SmartPtr.h:94-96 | the storage freed has not been freed before and no pointer accounts for it |
| SmartPtrSteps.StepAdd | TSP/inc/SmartPtr.h:80 | the storage incremented is not freed, nor about to be, and all counts stay exact |
| SmartPtrSteps.StepWrite | TSP/inc/SmartPtr.h:250-253 | the storage written is live with its count already raised, and no count changes its meaning |
| SmartPtrSteps.StepKeepsData | TSP/inc/SmartPtr.h:158-259 | with any spin lock, every step of every operation keeps references, counts and frees exact while targets stay exclusive |
| SmartPtrSteps.BeginKeepsData | TSP/inc/SmartPtr.h:158-259 | so does starting any allowed operation |
| SmartPtrSteps.RunKeepsInv | TSP/inc/SmartPtr.h:158-259 | with any spin lock, the invariant holds at every moment of every run in which operations in their locked part have their targets to themselves |
| SmartPtrLocks.RunKeepsWf | TSP/inc/SmartPtr.h:158-259 | with any spin lock, in all runs, every operation works on existing pointers and constructors and destructors on their own |
| SmartPtrLocks.StepLocks | TSP/inc/SmartPtr.h:332-368 | with a spin lock that waits, each lock is held exactly by the operation that is between taking and releasing it |
| SmartPtrLocks.WaitingLockExcludes | TSP/inc/Threading.h:120-164 | such a lock gives mutual exclusion and makes every run exclusive |
| SmartPtrTheorems.InvIsSafe | TSP/inc/SmartPtr.h:44-48 | no dangling pointer, single free, and at rest: counts are the pointers naming the storage, freed exactly when there are none |
| SmartPtrTheorems.NoUseAfterFree | TSP/inc/SmartPtr.h:80-102 | in an exclusive run no step touches freed storage |
| SmartPtrTheorems.CountIsReferences | TSP/inc/SmartPtr.h:57-58 | at every moment of an exclusive run a count is the number of pointers accounting for the storage, adjusted for operations in flight |
| SmartPtrTheorems.OperationsDeliver | TSP/inc/SmartPtr.h:175-259 | in an exclusive run, when an operation comes to release its locks, its target names what it was asked to |
| SmartPtrEffects.OperationsStart | TSP/inc/SmartPtr.h:158-259 | an operation on pointers that C++ allows is under way once begun, and has changed no other pointer, count or location |
| SmartPtrEffects.OperationsFinish | TSP/inc/SmartPtr.h:158-259 | in every run, an operation that ends leaves its target ready, or gone if it destroyed it |
| SmartPtrEffects.DestroyedIsGone | TSP/inc/SmartPtr.h:214-221 | in every run, a started destructor is under way until the pointer is gone |
| SmartPtrEffects.AloneDelivers | TSP/inc/SmartPtr.h:158-259 | after any exclusive run that has come to rest, an operation run on its own to its end makes its target name what it should, or go, moves no other pointer, and leaves exact counts |
| SmartPtrEffects.LastPointerFrees | TSP/inc/SmartPtr.h:88-102 | so once a pointer is destroyed its storage's count is that of the pointers left, and the storage is freed, once, exactly if none are |
| SmartPtrTheorems.FindRunner | TSP/inc/SmartPtr.h:338-356 | following the locks waited for leads to a thread that can step |
| SmartPtrTheorems.NoDeadlock | TSP/inc/SmartPtr.h:338-356 | with any spin lock, in every reachable state with an unfinished operation some operation has a step that changes the state |
| SmartPtrTheorems.Drain | TSP/inc/SmartPtr.h:158-259 | from every well-formed state a bounded number of steps finishes all operations |
| SmartPtrTheorems.EveryRunCanFinish | TSP/inc/SmartPtr.h:158-259 | with any spin lock, every run can be continued by a bounded number of steps to one without unfinished operations |
| SmartPtrOverlaps.NoOverlapRun | TSP/inc/SmartPtr.h:218-259 | with any spin lock, a run in which no other operation uses the target of an assignment under way is exclusive |
| SmartPtrOverlaps.CopyDangles | TSP/inc/Threading.h:156-162 | with a lock that does not wait, copying from an assignment's target can leave a pointer naming freed storage |
| SmartPtrOverlaps.AssignedDangles | TSP/inc/Threading.h:156-162 | so can assigning from it |
| SmartPtrOverlaps.AssignedTwiceMiscounts | TSP/inc/Threading.h:156-162 | assigning to it again can count the old storage down twice |
| SmartPtrOverlaps.SafeExactly | TSP/inc/Threading.h:120-164 | for every spin loop and every set of overlaps a program may have: all its runs are safe if and only if the loop waits, as all but the GCC one do, or the set is empty |
| ValueSets.MultiValueSet.Inverse | TSP/inc/ValueSets.h:267-294 | the counterpart of the first match, originals before inverses, or nothing |
| ValueSets.MultiValueSet.Belongs | TSP/inc/ValueSets.h:299-317 | membership, counting inverses only with `viceVersa` |
| ValueSets.MultiValueSet.Add | TSP/inc/ValueSets.h:377-387 | appends the pair unless it clashes, and says which |
| ValueSets.MultiValueSet.AddAll | TSP/inc/ValueSets.h:397-415 | equals single additions from the last pair down, and counts them |
| ValueSets.MultiValueSet.Remove | TSP/inc/ValueSets.h:425-439 | removes the first matching pair |
| ValueSets.MultiValueSet.RemoveAt | TSP/inc/ValueSets.h:448-463 | removes the pair at the position, if any |
| ValueSets.Built | TSP/inc/ValueSets.h:377-463 | any sequence of additions and removals keeps the vectors aligned and the pairs separate |
| ValueSets.InverseIsInvolution | TSP/inc/ValueSets.h:267-317 | on every set so built inversion is an involution on exactly the members |
| ValueSets.OneWayInverse | TSP/inc/ValueSets.h:267-294 | without `viceVersa` exactly the originals can be inverted, each to its own counterpart |
| ValueSets.PairsAreInverted | TSP/inc/ValueSets.h:267-294 | with `viceVersa` the two values of each pair are inverted to each other |
| ValueSets.AddTakesHold | TSP/inc/ValueSets.h:267-387 | an addition is refused exactly on a clash; otherwise its values are inverted to each other and all others as before |
| ValueSets.AddedFromTheEnd | TSP/inc/ValueSets.h:397-415 | a list of pairs is added from its end: none changes nothing, one is a single addition, and lists compose backwards |
| ValueSets.RemoveUndoesAdd | TSP/inc/ValueSets.h:377-439 | removing what was just added restores the set |
| ValueSets.RemovedIsGone | TSP/inc/ValueSets.h:425-439 | a removed value is no longer a member |
| ValueSets.RemoveTakesOnePair | TSP/inc/ValueSets.h:425-439 | removal takes the value's own pair and no other |
| ValueSets.ClosestValue | TSP/inc/ValueSets.h:322-366 | without `viceVersa` a member at minimal distance; with it, the value itself if it is an inverse or a later original, else what the second loop makes of a nearest original |
| ValueSets.OriginalIsFound | TSP/inc/ValueSets.h:343-364 | an original nearer than all inverses is returned if and only if no inverse's distance is below the original's value |
| ValueSets.NearestIsFound | TSP/inc/ValueSets.h:343-364 | when the smallest distance is below every member, a nearest member is returned if and only if one is not left again for a later inverse |
| ValueSets.ClosestToMemberIsAnother | TSP/inc/ValueSets.h:324-364 | a member that is not its own closest value |
| SpaceSkip.Trim | TSP/include/m_string.h:326-327 | the byte-at-a-time loop ends behind the last byte that is not a space |
| SpaceSkip.TrimSkips | TSP/include/m_string.h:320-325 | skipping any run of spaces first changes nothing |
| SpaceSkip.WordOfSpaces | TSP/include/m_string.h:282-289 | in either byte order only a word of spaces reads as the word of spaces |
| SpaceSkip.Uint8KorrIsLittleEndian | TSP/include/byte_order_generic.h:56-69 | the decode is the little-endian number, and 0x2020202020202020 exactly for eight spaces |
| SpaceSkip.StoreThenDecode | TSP/include/byte_order_generic.h:56-97 | storing and decoding gives every 64-bit number back |
| SpaceSkip.SkipTrailingSpace | TSP/include/m_string.h:317-329 | eight bytes at a time ends where the byte loop does, for every buffer |
| SpaceSkip.SkipTrailingSpaceAligned | TSP/include/m_string.h:280-310 | aligned words end there too, for every buffer, address, word size and byte order |
| Hash.HashKey | TSP/inc/Catalogue.h:220-235 | the loop and the sign repair compute the hash of the character sum |
| Hash.CharSumAdds | TSP/inc/Catalogue.h:222-227 | a key's sum is the sum of its parts' sums, and a single character's is that character, up to 64 bits |
| Hash.SchrageIdentity | TSP/inc/Catalogue.h:229-230 | the raw remainder differs from 16807 times the sum by a multiple of 2^31-1 |
| Hash.HashIsModularProduct | TSP/inc/Catalogue.h:229-234 | for every 64-bit sum the hash is 16807 times the sum modulo 2^31-1 if and only if the sum's quotient by 127773 is not too large for its remainder |
| Hash.HashIsCongruent | TSP/inc/Catalogue.h:229-234 | for every 64-bit sum, repairable or not, the signed hash is congruent to 16807 times the sum modulo 2^31-1 |
| Hash.HashOfOrdinaryKeys | TSP/inc/Catalogue.h:220-235 | it is for every key whose signed sum is below 127773 * 757223 in size, and zero only for multiples of the modulus |
| Hash.HashOverflows | TSP/inc/Catalogue.h:220-235 | a key whose sum is that bound, for which it is not |

## Left out

- Dispatch.TspView.OnCalcDeliveryData: does not model 32-bit wrap-around of pays and averages; PassStaysInRange bounds every sum by the total, so it cannot occur while the total and the initial average stay 262000 clear of the 32-bit limits.
- Dispatch.TspView.OnCalcDeliveryData: takes the pay of each stop, the vehicle count and the initial average as inputs; the queries that fill them, the fill from the wrong row at TSP/TspView.cpp:690 and the recursion of the re-call are not modelled.
- Dispatch.TspView.constructor: pays must be non-negative and there are at most 512 stops and vehicles, the size of the arrays; the code checks neither.
- Tour.TspFitness: distances are reals, so float rounding is not modelled; the same holds for Crossovers.Crossover and Routing.SubProblemDistance.
- Crossovers.Crossover: needs at least two cities, because the code reads past its one-cell array for a single one; the number of cities is the parents' length, which the code takes from the registry (Evolution.EveryCodeIsATour shows that they agree).
- Routing.Cities.AddCityExt: removing a city and looking one up by id or place are not modelled; removal of a missing id would leave a null entry (TSP/TspCity.cpp:93).
- SmartPtrSteps.StepKeepsData: the pointers are entries of a state value and not heap objects, since the claim is about all interleavings; one step is one access to shared memory, in sequentially consistent order, and the owner recorded in a lock is for the proofs only.
- SmartPtrSteps.BeginKeepsData: construction from an existing raw storage, assignment of a raw pointer or of a storage, unlocked accessors, data whose destructor touches other smart pointers, and use of a pointer while it is destroyed are not modelled.
- Chromosomes.Chromosome.FillBuffer: the buffer's position counts values, not bytes, and the room it needs is a precondition because the code does not check it.
- Chromosomes.Chromosome.Swap: blocks for which the code would step outside its vector are excluded; TSP/inc/MultiValueChromosome.h:159 promises only that an overlapping second block moves behind the first.
- Evolution.EveryCodeIsATour: which codes are crossed, mutated, kept or dropped is arbitrary; selection, replacement, scaling, statistics and the algorithm threads have no bodies in the repository, nor have the mutation and its swap operation: they follow TSP/inc/Chromosome.h:503-511, with any sequence of in-range swaps and any comparison of codes.
- Routing.Cities.OnResearchDeliveryData: the search is any function returning an order of the registered cities; freeing the old cities is not modelled.
- ValueSets.ClosestValue: with `viceVersa` the code compares a distance with a value (TSP/inc/ValueSets.h:354-361), so it need not return a nearest member; the exact condition is proved where an original is nearest or the smallest distance is below every member, and elsewhere only what the loop computes is stated. Random members and changing `viceVersa` later are not modelled.
- SpaceSkip.SkipTrailingSpaceAligned: buffers are sequences of bytes with an address; the read-only memory itself is not modelled.
- Flips, inversions and arithmetic on codes, interval and combined value sets, single-value codes: easy members of the same kind as those modelled.
- Hash.HashKey: the null key, which hashes to 0, is not modelled.
- The catalogue's map, database access, printing, sleeping, string copying and argument parsing.
