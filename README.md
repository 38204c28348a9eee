# A verified model of the backtracking Sudoku solver

This project models `BTSolver`, the backtracking engine of a Sudoku solver
that works on a constraint network. Each cell of the board is a variable.
A variable has a domain of legal values 1..n, an optional assignment and
a "modified" flag. The rows, columns and boxes are all-different
constraints over the variables. The engine has four kinds of operations:

- consistency checks and propagation passes: `assignmentsCheck`,
  `forwardChecking`, `norvigCheck`, `arcConsistency`, `getTournCC`;
- variable selectors: first unassigned, minimum remaining values (MRV),
  and MRV with the degree heuristic as tie breaker;
- value orderers: ascending, and least constraining value (LCV);
- the recursive search `solve`, which backtracks through a trail of
  variable snapshots, and the dispatch that picks one strategy of each
  kind from its configured name.

The model has seven modules:

- `Network` (`network.dfy`): variables (`Cell`), the fixed shape of the
  network (`Shape`) and network consistency.
- `Trails` (`trail.dfy`): the trail as a class with a log of snapshots and
  a stack of markers, and `Rollback`, the value-level meaning of undoing.
- `Propagation` (`propagation.dfy`): the value-level specification of one
  forward-checking pass. `ForwardCheck(s, cells, k)` is the state after the
  first k variables have had their turn. `StopTurn` is the turn at which an
  empty domain stops the pass. It also holds the lemmas the passes rely on.
- `Arcs` (`arc.dfy`): what one round of `arcConsistency` does, stated on
  values. `RemovedAll` is an assigned variable's value removed from its
  neighbours, `Stripped` is a whole constraint's removals, `ArcClean` says
  no assigned member's value is left in a neighbour, and `ForcedAll` is the
  forced assignment of the queued variables.
- `Singles` (`singles.dfy`): what the hidden-single step of `norvigCheck`
  does, stated on values. `Placed` is one placement: `assignValue(z)`
  followed by a forward-checking pass. `Sound` means consistent with no
  empty domain. `SinglesFilled` says every value with a single holder in a
  constraint found that holder assigned.
- `Ordering` (`ordering.dfy`): the specifications of the selectors and
  orderers (`IsMRV`, `IsTieBreakChoice`, `LcvSorted`, ...), with the
  uniqueness of the orders they define.
- `Solver` (`solver.dfy`): the class `BTSolver`. Its fields are the
  variable states, the modified flags, the trail, `hasSolution` and the
  three strategy tags. Every operation is a method with loops and
  invariants, proved against the specifications above.

The model follows the code exactly, including where the code departs from
its comments:

- The forced assignment of `norvigCheck` (line 246) is not pushed on the
  trail, so undo does not revert it. For that reason two promises of
  `Solve` hold only when the check is not `norvigCheck`: a failed search
  restores the variables, and a solution only narrows the domains. A
  failed search restores the trail with every check.
- The hidden-single step of `norvigCheck` makes one pass over the
  constraints. It counts each constraint on the state left by the earlier
  ones. After a placement it goes on with the counts it already has, and
  it never repeats to a fixpoint. So a value whose only holder was taken
  by an earlier value of the same constraint is neither placed nor
  reported: its holder ends up assigned, but not necessarily to it
  (`Singles.StaleCount` shows such a network).
- `MRVwithTieBreaker` returns `[None]` (a null first entry) when every
  variable is assigned.
- The map of `forwardChecking` holds the variables whose modified flag is
  set at the end. A variable's flag is cleared when its own turn comes. So
  the map holds the variables whose domain shrank after their own turn,
  not every variable whose domain shrank (see Findings).
  `ForwardChecking` models the pass as written, and every caller uses it.
  `ForwardCheckingAll` is the corrected pass, which clears every flag once
  before the scan; it is proved alongside and leaves the same variables,
  trail and result.

## Model

| member | source | states |
|---|---|---|
| Solver.BTSolver.HaveSolution | src/BTSolver.cpp:538-541 | a reported solution assigns every variable |
| Solver.BTSolver.AssignmentsCheck | src/BTSolver.cpp:24-31 | the result is true exactly when every constraint is consistent, and no domain changes |
| Solver.BTSolver.GetTournCC | src/BTSolver.cpp:264-267 | the tournament check always fails |
| Solver.BTSolver.ArcConsistency | src/BTSolver.cpp:36-77 | every change is logged on the trail so that undoing restores the entry state; domains only narrow and none is emptied; modified flags are only set; the result is exactly the consistency of the final network; on success every constraint that had a modified member is clean (no assigned member's value left in a neighbour), and every variable the pass brought down to one value is assigned; every value that left a domain is the value of a variable assigned at the end that has that variable as a neighbour (`Justified`), and every variable newly assigned had two or more values on entry (`ForcedOnly`); the recursion terminates because every round of forced assignments lowers the number of unassigned variables |
| Solver.BTSolver.ArcRound | src/BTSolver.cpp:39-64 | the listed constraints in order: domains only narrow, none is emptied and no assignment is made; the queue is exactly the variables brought from two or more values down to one; a failure means the network is inconsistent; otherwise every listed constraint is clean and the state is exactly the entry state with every assigned member of the listed constraints, in order, having removed its value from its neighbours (`Stripped` over `Members`); on failure too, every removal is justified by an assigned neighbour |
| Solver.BTSolver.ArcForced | src/BTSolver.cpp:65-75 | the queued variables are assigned and the pass runs again; the outcome is that of `ArcConsistency` from the start of the round, including that every removal since then is justified by an assigned neighbour and that only variables with two or more values at the start of the round are assigned |
| Solver.BTSolver.ArcConstraint | src/BTSolver.cpp:42-63 | without conflict, a value leaves the domain of j exactly when an assigned member of the constraint with that value has j as a neighbour, and the constraint is clean; a failure means the network is inconsistent; the queue grows by exactly the variables brought down to one value; on failure too, every value removed is the value of an assigned neighbour |
| Solver.BTSolver.ArcNeighbours | src/BTSolver.cpp:45-62 | fails exactly when some neighbour's domain is the assigned value alone, and the network is then inconsistent; otherwise every neighbour has lost the value and nothing else changed; either way, every value removed is that of the assigned variable, a neighbour of the variable that lost it |
| Solver.BTSolver.ArcNeighboursStep | src/BTSolver.cpp:49-61 | one neighbour of the loop: it fails exactly when that neighbour held the value alone at the start of the loop; on failure the state is unchanged; otherwise the removal reaches one more neighbour |
| Solver.BTSolver.ArcNeighbour | src/BTSolver.cpp:51-60 | fails exactly when the neighbour's domain is the value alone, leaving the state unchanged and the network inconsistent; otherwise the neighbour loses the value and nothing else changes; it is queued exactly when the value was one of its two values |
| Solver.BTSolver.ArcRemove | src/BTSolver.cpp:56-59 | the neighbour loses exactly that value, is logged first, and is queued exactly when two values were left |
| Solver.BTSolver.ArcAssign | src/BTSolver.cpp:65-73 | every queued variable takes the one value it has left, logged first, and no other variable changes; strictly fewer variables are unassigned afterwards |
| Arcs.RemovedStep | src/BTSolver.cpp:49-61 | removing a value from one more listed neighbour is one more step of `RemovedAll` |
| Arcs.ForcedStep | src/BTSolver.cpp:67-73 | assigning one more queued variable is one more step of `ForcedAll`, and the variable still has the value it was queued with |
| Arcs.SparedStep | src/BTSolver.cpp:49-61 | while the value is being removed from the neighbours, the next neighbour holds it alone exactly when it did at the start |
| Arcs.RemoveStep | src/BTSolver.cpp:56-59 | removing a value from a domain of two or more narrows without emptying, and queues exactly a domain left with one value |
| Arcs.ArcStepTrans | src/BTSolver.cpp:40-64 | two parts of a round compose, and every variable brought down to one value is queued exactly once |
| Arcs.RemovesFromAppend | src/BTSolver.cpp:43-45 | one more scanned member adds its own removals if it is assigned, and none otherwise |
| Arcs.StrippedStep | src/BTSolver.cpp:43-62 | scanning one more member keeps the state equal to the removals of the scanned members |
| Arcs.StrippedClean | src/BTSolver.cpp:42-63 | a constraint whose removals are all done is clean |
| Arcs.ForcedAssigned | src/BTSolver.cpp:65-74 | a variable the whole pass brings down to one value is assigned by this round's forced assignments or by a later round |
| Arcs.Members | src/BTSolver.cpp:39-43 | a variable is among the scanned members exactly when it belongs to one of the listed constraints |
| Arcs.RemovesFromJoin | src/BTSolver.cpp:40-45 | a value is removed from j by scanning two lists one after the other exactly when one of the two lists removes it |
| Arcs.StrippedTrans | src/BTSolver.cpp:40-64 | scanning one list and then another is scanning both together, since the second scan sees the assignments of the first |
| Arcs.StrippedJustified | src/BTSolver.cpp:45-59 | every value a scan removes is the value of an assigned variable that has the losing variable as a neighbour |
| Arcs.RemovedJustified | src/BTSolver.cpp:47-59 | when an assigned variable's value leaves some of its neighbours, every value removed is justified by that variable |
| Arcs.JustifiedTrans | src/BTSolver.cpp:65-74 | justified removals compose across rounds, since a later round keeps every assignment |
| Arcs.ForcedOnlyTrans | src/BTSolver.cpp:65-74 | only-forced assignments compose across rounds |
| Arcs.ForcedKeeps | src/BTSolver.cpp:67-73 | the forced assignments of a round remove no value, and assign only variables the round brought down from two or more values |
| Network.TouchedGrown | src/BTSolver.cpp:39 | a constraint with a modified member keeps one while flags are only set |
| Solver.BTSolver.LogAndAssign | src/BTSolver.cpp:71-72 | the variable is logged and then assigned; rolling the log back still restores the entry state |
| Network.ModifiedConstraints | src/BTSolver.cpp:39 | a constraint is listed exactly when one of its members has its modified flag set |
| Network.SingletonClash | src/BTSolver.cpp:54-55 | a neighbour whose only value is an assigned variable's value makes the network inconsistent |
| Network.AssignFewer | src/BTSolver.cpp:67-74 | assigning an unassigned variable strictly lowers the number of unassigned variables, and no assignment raises it |
| Network.NarrowedFewer | src/BTSolver.cpp:476-485 | narrowing keeps every assignment, so it never adds an unassigned variable |
| Network.OnlyValue | src/BTSolver.cpp:69-72 | `getValues()[0]` of a one-value domain is that value |
| Solver.BTSolver.ForwardChecking | src/BTSolver.cpp:93-140 | an inconsistent network fails and nothing changes; otherwise the state is the pass specification `ForwardCheck` up to the stopping turn; an empty domain at a turn fails with an empty map; a completed pass leaves no assigned value in a neighbour's domain, reports the consistency of the result, and maps the variables whose domain shrank after their own turn to their domains; every change is logged; assignments never change; the pass fails only by leaving an empty domain or an inconsistent network, so it passes whenever it leaves a sound network |
| Solver.BTSolver.ForwardCheckConsistent | src/BTSolver.cpp:101-139 | the same as `ForwardChecking` for a network that is consistent on entry |
| Solver.BTSolver.Scan | src/BTSolver.cpp:101-128 | the scan stops at the first variable whose domain is empty at its turn, and its state is `ForwardCheck` up to there; a completed scan leaves every flag saying whether the domain shrank after its own turn |
| Solver.BTSolver.ForwardTurn | src/BTSolver.cpp:103-127 | one turn clears the variable's own flag; it reports an empty domain exactly when the pass stops here; otherwise it advances the state and the flags by one turn |
| Solver.BTSolver.EliminateFromNeighbours | src/BTSolver.cpp:113-127 | the turn of an assigned variable takes the state from `ForwardCheck` at i to `ForwardCheck` at i+1 |
| Solver.BTSolver.EliminateFromNeighbour | src/BTSolver.cpp:118-125 | a neighbour holding the value loses it and is flagged, and no other flag changes; the state advances by one neighbour (`Midturn`) |
| Solver.BTSolver.LogAndRemove | src/BTSolver.cpp:121-123 | the neighbour is pushed on the trail, flagged and loses the value; rolling the log back still restores the entry state |
| Solver.BTSolver.ForwardCheckingAll | src/BTSolver.cpp:93-140 | the corrected pass: everything `ForwardChecking` states, except that a completed pass maps every variable whose domain lost a value, at any turn, to its domain |
| Solver.BTSolver.ForwardCheckAllConsistent | src/BTSolver.cpp:101-139 | the same as `ForwardCheckingAll` for a consistent network whose flags are cleared |
| Solver.BTSolver.ClearFlags | src/BTSolver.cpp:103 | every modified flag is cleared, once, before the corrected scan |
| Solver.BTSolver.ScanAll | src/BTSolver.cpp:101-128 | the corrected scan reaches the same state as `Scan`; once completed, every flag says whether the domain shrank during the pass |
| Solver.BTSolver.TurnAll | src/BTSolver.cpp:106-127 | one turn of the corrected scan, which clears no flag; it reports an empty domain exactly when the pass stops here |
| Solver.BTSolver.EliminateAll | src/BTSolver.cpp:113-127 | the turn of an assigned variable in the corrected scan, keeping the flags exact since the start of the pass |
| Propagation.ChangedStep | src/BTSolver.cpp:122 | in the corrected scan, a neighbour that loses a value is flagged, and the flags keep saying which domains shrank since the pass began |
| Propagation.ChangedKeys | src/BTSolver.cpp:131-137 | after the corrected scan, the flagged variables are exactly those whose domain the pass shrank |
| Propagation.ReportedWithinChanged | src/BTSolver.cpp:131-137 | every variable the pass as written reports has lost a value |
| Propagation.ReportedMissesEarlyLoss | src/BTSolver.cpp:103 | on a valid, consistent two-variable network whose pass completes, a variable that lost a value is not reported by the pass as written |
| Solver.BTSolver.ModifiedDomains | src/BTSolver.cpp:131-137 | the map holds exactly the flagged variables, each with its current domain |
| Propagation.StopTurn | src/BTSolver.cpp:106-108 | the first turn at which a variable's domain is empty, or the end; every domain before it is non-empty |
| Propagation.ForwardCheckEliminates | src/BTSolver.cpp:101-128 | after a completed pass no neighbour of an assigned variable still holds its value |
| Propagation.ForwardCheckShrinks | src/BTSolver.cpp:119-123 | a pass only removes values and never changes an assignment |
| Propagation.ForwardCheckAssigned | src/BTSolver.cpp:101-128 | a fully assigned network stays fully assigned through a pass |
| Propagation.ForwardCheckIdempotent | src/BTSolver.cpp:101-128 | a second completed pass changes nothing |
| Propagation.ForwardCheckOK | src/BTSolver.cpp:101-128 | a pass over a consistent network keeps every variable state valid: values in 1..n, an assigned variable keeps its own value |
| Propagation.SolvedPassCompletes | src/BTSolver.cpp:101-128 | a complete, consistent assignment passes forward checking untouched: the scan meets no empty domain and removes nothing |
| Propagation.ElimBeforeMember | src/BTSolver.cpp:113-123 | a value leaves j's domain exactly when it is the value of an assigned neighbour of j whose turn has come |
| Propagation.ElimBeforeMono | src/BTSolver.cpp:101-128 | removals only grow as turns go by |
| Propagation.ElimBeforeVals | src/BTSolver.cpp:113-123 | what a pass removes depends only on the assignments, not on the domains |
| Propagation.UnassignedTurn | src/BTSolver.cpp:110-111 | the turn of an unassigned variable changes nothing |
| Propagation.OwnTurn | src/BTSolver.cpp:115 | a variable is not its own neighbour, so its own turn leaves its domain alone |
| Propagation.MidturnStep | src/BTSolver.cpp:119-123 | handling one neighbour removes the value from that neighbour only, and only if it holds it |
| Propagation.FlagsStep | src/BTSolver.cpp:122 | a neighbour that loses a value is flagged, and the flags keep saying which domains shrank since their own turn |
| Propagation.TurnStart | src/BTSolver.cpp:103-111 | at its turn a variable's domain is what the earlier turns left; clearing its flag starts the turn's flag invariant |
| Propagation.DiesAtTurn | src/BTSolver.cpp:193-194 | a domain empty at its own turn stays empty, so the elimination of `norvigCheck` cannot succeed |
| Propagation.DiesMidturn | src/BTSolver.cpp:212-213 | a domain emptied during a turn stays empty, so the elimination cannot succeed |
| Solver.BTSolver.NorvigCheck | src/BTSolver.cpp:180-255 | an inconsistent network fails and nothing changes; an elimination that empties a domain fails with an empty map; success means the elimination left no domain empty, every value 1..n had a place in every constraint of the state it left, every value with a single place there found that variable assigned, and the final network is consistent with no assigned value left in a neighbour's domain; the map records exactly the newly assigned variables and their values; domains only narrow; the trail's markers stay and its log only grows; conversely, every way of failing (lines 184, 193, 212, 237 and 254) leaves an empty domain, an inconsistent network, or a value 1..n with no place in some constraint, so the check passes whenever it ends with none of these; when the elimination runs to the end, the whole outcome is exactly `SinglesChecked` of the fully eliminated network: the state after the hidden-single step and the last pass, and the verdict, so nothing else is assigned or pruned |
| Solver.BTSolver.NorvigConsistent | src/BTSolver.cpp:187-254 | the same as `NorvigCheck`, in both directions, for a network that is consistent on entry; when the elimination runs to the end, the state and verdict are exactly `SinglesChecked` of the eliminated network |
| Solver.BTSolver.NorvigEliminate | src/BTSolver.cpp:187-217 | the elimination succeeds exactly when no domain is empty once every variable has had its turn, and then the state is the full forward-checking pass; every change is logged; assignments stay; when it stops, the network it leaves has an empty domain |
| Solver.BTSolver.Prune | src/BTSolver.cpp:187-217 | a stop means the elimination cannot succeed and the domain that stopped it is left empty; otherwise the state is the full pass and every domain is non-empty |
| Solver.BTSolver.NorvigTurn | src/BTSolver.cpp:189-199 | an empty domain at the turn stops the elimination, which then cannot succeed, and stays empty; otherwise the state advances by one turn |
| Solver.BTSolver.NorvigNeighbours | src/BTSolver.cpp:199-216 | an assigned variable removes its value from its neighbours, stopping at the first emptied domain, which is left empty |
| Solver.BTSolver.NorvigNeighbour | src/BTSolver.cpp:205-214 | a neighbour emptied by the removal stops the elimination, which then cannot succeed, and is left empty; otherwise every domain seen so far stays non-empty |
| Solver.BTSolver.PruneStep | src/BTSolver.cpp:205-209 | the state advances by one neighbour, keeping the elimination invariant |
| Solver.BTSolver.PruneRemove | src/BTSolver.cpp:205-209 | the state advances by one neighbour, with the change logged |
| Solver.BTSolver.HiddenSingles | src/BTSolver.cpp:219-254 | success means the final network is consistent with no assigned value left in a neighbour's domain, every value had a place in every constraint, and every value with a single place found that variable assigned; the map records exactly the newly assigned variables; conversely, a failure leaves a value with no place, an empty domain or an inconsistent network, so it passes whenever it ends sound with every value placeable; the final state and the verdict are exactly `SinglesChecked` of the entry state |
| Solver.BTSolver.SinglesPass | src/BTSolver.cpp:223-252 | with no failure, every value had a place in every constraint on the state the pass started from; if the network is then sound, every value with a single place in a constraint of that state found that variable assigned; a failure leaves some value 1..n with no place in some constraint; the final state and whether it failed are exactly `SinglesFrom` of the entry state from the first constraint |
| Solver.BTSolver.ConstraintSingles | src/BTSolver.cpp:226-250 | fails exactly when some value 1..n has no place in the constraint; otherwise, if the network is sound at the end, every value with a single place when the constraint was counted found that variable assigned; a failure leaves that value with no place in the constraint, since domains only narrow after counting; the final state is exactly `SinglesUpTo` up to the first value with no place (`GapFrom`), or up to n + 1 if there is none |
| Solver.BTSolver.SingleValue | src/BTSolver.cpp:237-249 | one value of the constraint: placed when its count is one; the earlier single places stay assigned and the later values stay where they were while the network is sound; the state advances exactly from `SinglesUpTo` up to z to `SinglesUpTo` up to z + 1 |
| Solver.BTSolver.CountCandidates | src/BTSolver.cpp:226-233 | `counter[z]` is the number of members of the constraint holding z, for every z in 1..n |
| Solver.BTSolver.CountValues | src/BTSolver.cpp:231-232 | every counter of a value in the domain goes up by one, and the others stay |
| Solver.BTSolver.PlaceValue | src/BTSolver.cpp:241-249 | the free holder of z (an unassigned member still holding it), if there is one, is recorded with z and the state is z placed there (`Placed`); with none, nothing changes; domains only narrow; the state is exactly `PlaceAll` of the members of the constraint |
| Solver.BTSolver.PassConstraint | src/BTSolver.cpp:223-251 | one constraint of the pass: a failure leaves a value with no place and is exactly the failing `SinglesFrom` from that constraint; otherwise the counts of the constraint were all positive, the single places found their variables assigned while the network is sound, and what remains of the pass from the next constraint is what remained from this one |
| Solver.BTSolver.LastCheck | src/BTSolver.cpp:254 | the state is exactly `Checked` of the entry state and the verdict exactly `CheckPasses`; passing means the network is consistent with no assigned value in a neighbour's domain; a sound end means it passes |
| Solver.RecordedUnique | src/BTSolver.cpp:245 | the map of newly assigned variables is determined by the two states |
| Solver.PlacedMap | src/BTSolver.cpp:241-246 | placing z in a constraint records exactly its free holder with z, and nothing when there is none |
| Solver.BTSolver.AssignAndCheck | src/BTSolver.cpp:245-247 | the variable is recorded with z in the map, and the state is exactly `Placed`: z assigned, then the forward-checking pass as specified by `ForwardCheck` up to its stop turn |
| Solver.BTSolver.SetValue | src/BTSolver.cpp:246 | the variable takes z and nothing else changes |
| Solver.RecordedPlace | src/BTSolver.cpp:245-246 | assigning a variable the map did not hold adds exactly that variable with its value |
| Singles.Placed | src/BTSolver.cpp:246-247 | the placed variable holds z, no other assignment changes, and domains only narrow |
| Singles.PlacedByCheck | src/BTSolver.cpp:246-247 | what the forward-checking pass leaves after the assignment is the placement |
| Singles.PlacedSettles | src/BTSolver.cpp:246-247 | a placement that leaves the network sound ran its pass to the end, so no assigned value is left in a neighbour's domain |
| Singles.PlacedKeeps | src/BTSolver.cpp:246-247 | in an eliminated state, a placement takes no value but z from any other variable |
| Singles.ClashKept | src/BTSolver.cpp:184 | two clashing variables still clash after narrowing that empties neither domain |
| Singles.SoundBack | src/BTSolver.cpp:184 | a sound state stays sound when going back to a state it narrows |
| Singles.HolderPair | src/BTSolver.cpp:229-233 | two different members holding a value count at least twice |
| Singles.HolderExists | src/BTSolver.cpp:229-233 | a positive count has a member holding the value behind it |
| Singles.SingleHolder | src/BTSolver.cpp:239-243 | with a count of at most one, two members holding the value are the same member |
| Singles.SinglesStep | src/BTSolver.cpp:236-249 | one value of a constraint: if the network stays sound, a value counted once finds its holder assigned and the later values stay where they were |
| Singles.PlacedFromStart | src/BTSolver.cpp:223-233 | a value with a single holder at the start of the pass, still held when a later constraint is counted, has the same single holder there |
| Singles.Checked | src/BTSolver.cpp:97-127 | the forward-checking pass only narrows domains and assigns nothing |
| Singles.CheckedVerdict | src/BTSolver.cpp:97-139 | the pass passes whenever it leaves a sound network, and a pass that passes ran every turn and left the network consistent with no assigned value in a neighbour's domain |
| Singles.PlaceAll | src/BTSolver.cpp:241-249 | the placement loop over the members of a constraint only narrows domains |
| Singles.PlaceAllPlacing | src/BTSolver.cpp:241-249 | with at most one holder of z, the loop places z at the free holder if there is one (`Placed`) and changes nothing otherwise |
| Singles.PlaceAllFront | src/BTSolver.cpp:241-249 | once the free holder is placed, the last member is not placed again |
| Singles.PlaceAllLast | src/BTSolver.cpp:241-249 | with no free holder before the last member, only the last one can be placed |
| Singles.SinglesUpTo | src/BTSolver.cpp:236-250 | the values of a constraint up to z, each counted once placed, only narrow domains |
| Singles.GapFrom | src/BTSolver.cpp:236-238 | the first value from z on with no place in the constraint: every value before it has a place, and it has none unless it is n + 1 |
| Singles.SinglesFrom | src/BTSolver.cpp:223-252 | the hidden-single step from a constraint on only narrows domains |
| Singles.SinglesChecked | src/BTSolver.cpp:219-254 | the hidden-single step followed by the last pass only narrows domains |
| Singles.StaleCount | src/BTSolver.cpp:229-248 | on a two-variable network, variable 0 is the only holder of both 1 and 2; placing 1 leaves the network sound with no holder of 2, so 2 is neither placed nor reported |
| Singles.StalePlaced | src/BTSolver.cpp:245-247 | on that network, placing 1 at variable 0 and running the forward-checking pass assigns 0 to 1 and leaves variable 1 with 3 |
| Singles.StaleEndSound | src/BTSolver.cpp:236-248 | the state after that placement is consistent, has no empty domain and no value left in a neighbour's domain, and no member can still take 2 |
| Ordering.CountHoldingMono | src/BTSolver.cpp:229-233 | narrowing domains never adds a holder of a value, so a value with a place after narrowing had one before |
| Solver.BTSolver.GetFirstUnassignedVariable | src/BTSolver.cpp:274-282 | the first unassigned variable in storage order, or none when all are assigned |
| Solver.BTSolver.GetMRV | src/BTSolver.cpp:289-301 | the first unassigned variable whose domain is smallest, or none when all are assigned |
| Solver.BTSolver.UnassignedNeighbours | src/BTSolver.cpp:335-338 | the number of unassigned neighbours of the variable |
| Solver.BTSolver.MRVwithTieBreaker | src/BTSolver.cpp:318-366 | with no unassigned variable the result is `[None]`; otherwise it starts with an unassigned variable of smallest domain and, among those, of largest degree (the first such), followed by every later variable tying with it on both, in storage order |
| Solver.BTSolver.TieBreakStep | src/BTSolver.cpp:325-357 | one variable advances the running minimum, best degree and tie list of the scan |
| Ordering.TiesUpTo | src/BTSolver.cpp:342-355 | lists only later variables that tie with the choice, in increasing order |
| Ordering.TiesUpToComplete | src/BTSolver.cpp:342-355 | every variable tying with the choice is listed |
| Solver.BTSolver.GetTournVar | src/BTSolver.cpp:376-379 | the tournament selector selects nothing |
| Solver.BTSolver.GetValuesInOrder | src/BTSolver.cpp:386-391 | the domain of the variable, strictly ascending |
| Ordering.AscendingUnique | src/BTSolver.cpp:388-389 | the ascending arrangement of a set of values is unique |
| Solver.BTSolver.ConflictCount | src/BTSolver.cpp:406-411 | the number of neighbours holding the value |
| Solver.BTSolver.GetValuesLCVOrder | src/BTSolver.cpp:402-421 | the domain of the variable, ordered by increasing number of conflicting neighbours, ties by increasing value |
| Ordering.SortPairs | src/BTSolver.cpp:415 | a strictly increasing rearrangement of distinct (conflicts, value) pairs |
| Solver.LcvFromPairs | src/BTSolver.cpp:416-418 | projecting the sorted pairs onto their values gives the LCV order of exactly the same values |
| Ordering.LcvUnique | src/BTSolver.cpp:415-418 | the LCV arrangement of a set of values is unique |
| Solver.BTSolver.GetTournVal | src/BTSolver.cpp:429-432 | the tournament orderer proposes no value |
| Solver.BTSolver.CheckConsistency | src/BTSolver.cpp:499-511 | whatever the tag, passing means the network is consistent, domains only narrow, and the trail's markers stay while its log only grows; every check but `norvigCheck` logs every change; with `forwardChecking` the outcome is `ForwardOutcome` (the state is `ForwardCheck` up to the stop turn, passing exactly when the pass completes on a consistent network); with `norvigCheck` it is `NorvigOutcome` (everything `NorvigCheck` promises on success, and failure with nothing changed on an inconsistent network); the default check changes nothing and passes exactly on a consistent network; the tournament check changes nothing and fails; `NorvigOutcome` also says the check passes whenever it ends sound with every value placeable, and that once the elimination runs to the end the state and verdict are exactly `SinglesChecked` of the eliminated network; with the default or the forward-checking check, a complete consistent assignment passes and is left unchanged |
| Solver.BTSolver.SelectNextVariable | src/BTSolver.cpp:513-525 | a chosen variable is unassigned; none means all are assigned, unless the tag is the tournament one; each tag gives its selector's choice |
| Solver.BTSolver.GetNextValues | src/BTSolver.cpp:527-536 | the proposed values are the variable's domain, in the order of the tag's orderer; the tournament orderer proposes none |
| Solver.BTSolver.Solve | src/BTSolver.cpp:438-497 | an exhausted budget gives -1 and changes nothing; a solution already found gives 0 and leaves the variables, the log and the markers as they were; with budget left, a complete assignment is recorded as a solution, unchanged, with 0; with any check but `norvigCheck`, a budget larger than the number of unassigned variables never gives -1; a search ending in 0 without a solution leaves the trail as it was; a found solution assigns every variable and is consistent when the start was; the result is 0 or -1 |
| Solver.BTSolver.Attempt | src/BTSolver.cpp:467-495 | a failed value leaves the trail as it was; a solution found is consistent; with any check but `norvigCheck` a failed value leaves the variables as they were, a solution only narrows the domains, and deciding an unassigned variable with more budget than unassigned variables never gives -1; with the default or the forward-checking check and a budget of two or more, a value that completes a consistent assignment is reported as a solution |
| Solver.BTSolver.Descend | src/BTSolver.cpp:476-485 | the check after a decision and, if it passes, the search one level deeper: a failure that is not for lack of budget leaves the trail extended, logged unless the check is `norvigCheck`; a solution found is consistent and, unless the check is `norvigCheck`, only narrows; with any check but `norvigCheck`, a budget larger than the number of unassigned variables plus one never gives -1; with the default or the forward-checking check, a complete consistent assignment is reported as a solution when the budget allows one more level |
| Solver.BTSolver.Decide | src/BTSolver.cpp:471-475 | a marker is placed and the variable is logged and assigned; undoing to that marker reverts exactly this |
| Solver.BTSolver.Backtrack | src/BTSolver.cpp:494 | the log and markers return to their state before the decision; the variables are exactly the rollback of the entries logged since, and so return to their state before the decision when every change since was logged |
| Trails.Trail.Push | src/BTSolver.cpp:472 | the snapshot is appended to the log |
| Trails.Trail.PlaceTrailMarker | src/BTSolver.cpp:471 | a marker at the current end of the log is pushed |
| Trails.Trail.Undo | src/BTSolver.cpp:494 | every entry since the last marker is restored, latest first; the entries are dropped and the marker popped |
| Trails.RollbackAppend | src/BTSolver.cpp:471-494 | undoing a log in two parts, the later part first, equals undoing it at once |
| Trails.RollbackPush | src/BTSolver.cpp:121-123 | pushing a variable and then changing it: rolling back cancels the change |
| Trails.GrownTrans | src/BTSolver.cpp:471-478 | two stretches of logged changes compose into one that rolls back to the earliest state |

## Findings

| source | as written | input that shows it | evidently intended | confidence | as-written member | corrected member |
|---|---|---|---|---|---|---|
| src/BTSolver.cpp:103 | each variable's modified flag is cleared at its own turn (this reading takes `getDomain()` to return a reference to the variable's own domain, so that the flag writes at lines 103 and 121 act on the variable; `Variable` is not part of this model, and with a by-value `getDomain` both writes would act on copies and no flag would ever be set), so a variable that loses a value before its turn is missing from the returned map (`ForwardChecking` maps exactly `Reported`) | two neighbouring variables, the first assigned 1, the second unassigned with domain {1, 2}: the second loses 1 but the map is empty | the map holds every variable whose domain lost a value in the pass, as the comment at lines 88-89 says | medium, not executed | Propagation.ReportedMissesEarlyLoss | Solver.BTSolver.ForwardCheckingAll |

## Left out

- The time budget of `solve` is a budget of recursion levels (`fuel`): each level below the top costs one unit and an exhausted budget gives -1. The clock and the 60-second floor are not modelled.
- Board construction, `getSolution` and `getNetwork` are outside this model.
- `Variable`, `Domain`, `Constraint`, `ConstraintNetwork` and `Trail` are not part of this model; only the contracts the solver relies on are modelled. `Constraint::isConsistent` is `ConstraintConsistent` (two assigned members with the same value, or two one-value domains with the same value, clash). `getNeighborsOfVariable` is a fixed list per variable with the properties of `Shape.WellFormed`. `trail->push` logs a snapshot of one variable's state, and `undo` restores snapshots back to the last marker.
- Variables are indices into a sequence rather than pointers, and the returned maps are keyed by index.
- The strategy names are tags of a datatype; each unrecognised name falls through to the default, which is the tag `DefaultCheck`, `FirstUnassignedTag` or `InOrderTag`.
- The modified flag is set whenever a pass removes a value, including in `arcConsistency`, which does not set it itself. It is not part of the trail's snapshots, so undo does not restore it.
- The tournament strategies are the source's stubs: a check that fails, a selector that selects nothing and an orderer that proposes nothing.
- Solver.BTSolver.Solve: restoration of the variables after a failed search, and narrowing of the domains by a solution, are stated only for checks other than `norvigCheck`, because its forced assignment (line 246) is not logged on the trail.
- Solver.BTSolver.Solve: a search that runs out of budget returns -1 without undoing, so nothing is stated about the trail in that case, as in the source.
- Solver.BTSolver.Solve: the promise that a budget larger than the number of unassigned variables never gives -1 is stated only for checks other than `norvigCheck`: its forced assignments survive an undo, and the model does not track that an undo never unassigns a variable that was assigned before the decision.
- Solver.BTSolver.Solve: it is not stated that the search finds a solution whenever the network has one; what is stated is that a complete assignment is recognised at once and that a consistent completing decision is reported (see `Attempt`).
- Solver.BTSolver.Attempt: a value that completes a consistent assignment is promised to be reported only under the default and the forward-checking checks. Under `norvigCheck` such an assignment still fails when some constraint has fewer members than there are values, since a value 1..n then has no place (line 237). The tournament check always fails.
- Solver.BTSolver.NorvigCheck: a value with a single place in a constraint is promised only that its variable is assigned, not that it holds that value, because the counts of a constraint are taken once (lines 229-233) and an earlier placement in the same constraint may have taken the variable; and only when the final network is sound, which a passing check guarantees. The same holds for `NorvigConsistent`, `HiddenSingles`, `SinglesPass` and `ConstraintSingles`.
- Solver.BTSolver.HiddenSingles: see `NorvigCheck`: the single place of a value is promised to be assigned, not to hold that value.
- Solver.BTSolver.ConstraintSingles: see `NorvigCheck`; the promise is conditioned on the network being sound at the end.
- Solver.BTSolver.NorvigConsistent: see `NorvigCheck`: a single place is promised to be assigned, not to hold the value.
- Solver.BTSolver.SinglesPass: see `NorvigCheck`; the promise is conditioned on the network being sound at the end.
- Solver.BTSolver.CheckConsistency: `checkConsistency`, `norvigCheck` and the hidden-single placements call the pass as written (lines 247, 254 and 502), so their modified flags are those of `ForwardChecking`, not of the corrected `ForwardCheckingAll`; the flags are not part of any promise about those callers.
- Network.Shape.WellFormed: the size n is below 9999. With 9999 or more values in every unassigned domain, `getMRV` (lines 291-300) and `MRVwithTieBreaker` (lines 320-341) would pass over every variable and return nothing, and `solve` (lines 451-459) would end with 0 and no solution; such networks are not modelled.
- Solver.BTSolver.ArcConsistency: the state after several rounds is not given as an exact function of the entry state. Each round's removals are exact (`ArcRound`), and across rounds the promise is that every removed value is the value of an assigned neighbour and that only variables brought down from two or more values are assigned. The same holds for `ArcForced`.
- Solver.BTSolver.NorvigCheck: when the elimination stops at an emptied domain (lines 193 and 212), the state it leaves is stated only as logged, narrowed and not sound, not exactly, since the stop falls inside a turn. The same holds for `NorvigConsistent` and `NorvigEliminate`.
- Solver.BTSolver.NorvigCheck: its trail promise is only that the markers stay and the log grows, because the forced assignments are not logged and rolling back does not restore the entry state.
