# Backtracking CSP solver for Sudoku networks, modelled in Dafny

This project models the search engine of `src/BTSolver.java`: a backtracking
solver for all-different constraint networks such as Sudoku boards. It has
four parts:

- four variable-selection heuristics: first unassigned, minimum remaining
  values (MRV), degree, and MRV with a constraint-load tie-breaker;
- two value orderings: ascending, and least constraining value (LCV);
- three consistency strategies: the plain assignments check, forward
  checking run to a fixpoint, and Norvig's check, which adds forced
  assignment;
- the recursive `solve` with its trail markers, undo and the shared "solution
  found" flag.

The model has seven modules:

- `Network`: cells, constraints, neighbours, the counts the heuristics use,
  and the predicates that say how propagation may change the cells.
  - A cell is a `Variable(id, domain, assignment)`.
  - A constraint is a sequence of cell indices.
  - The neighbours of a cell are the other members of the constraints that
    contain it, in network order.
- `Trail`: the undo log. An entry records a cell's full state before it
  changes. `Rollback` replays the entries newest first. `Undoable` is the
  "push before mutate" discipline: the trail extends the old one, and rolling
  back the new entries restores the old cells.
- `ValueOrder`: ascending order of a domain, and a stable sort of scored
  values by neighbour count.
- `Solutions`: what propagation and search owe the solutions of a network.
  - `SolutionOf(vs, cs, sol)`: `sol` assigns every cell a value of its
    domain in `vs`, keeps the assignments `vs` already has, and satisfies
    every constraint. `Solvable` says some such `sol` exists.
  - `Justified(before, after, cs)`: every value that propagation removed from
    a cell it did not assign is the value of an assigned neighbour, and every
    cell it assigned carries a value no neighbour's domain holds. A cell it
    assigned is exempt from the first clause: what it keeps of its domain is
    bounded only by `PrunedOrForced` (at most the assigned value).
  - `KeepsSolutions`: every solution of the old state solves the new one.
- `Selection`: what each variable heuristic chooses, stated as a property of
  the chosen index, with lemmas that this property fixes the choice.
- `Heuristics`: the three configuration enums. Each enum's first variant is
  the `default:` branch of the source's `switch`.
- `Solver`: the class `BTSolver`. It holds:
  - the cells (`vars`);
  - the set of modified constraint indices (`modified`);
  - the trail (`trail`) and its markers (`markers`);
  - `hasSolution`.

  Each loop of the source is a method with loop invariants. Each
  record-then-mutate step goes through `PushAndRemove` or `PushAndAssign`.

The main results:

- Every selector returns the one index its characterisation allows. It
  returns `None` exactly when every cell is assigned.
- Both propagation strategies:
  - only prune, or force a value of the cell's own domain;
  - record every change on the trail first;
  - terminate, because a measure over the domains decreases;
  - return true exactly when no domain is empty;
  - are justified: each removal is the value of an assigned neighbour, each
    forced value is held by no neighbour;
  - never lose solvability. Forward checking keeps every solution; a forced
    assignment keeps at least one. So a `false` result means the state had
    no solution;
  - track the modified set exactly: after every step it is the entry set
    plus every constraint containing a cell the step changed.

  Both end at a fixpoint over every constraint that was modified on entry or
  that propagation itself touched. Every member of such a constraint is
  settled: an assigned member's value is in no neighbour's domain. Norvig's
  check also leaves every unassigned member of such a constraint without a
  forced value: each value of its domain is still held by a neighbour. If
  every unsettled cell lies in a modified constraint when they start, they
  end with every cell settled.
- A `Solve` that finds no solution leaves the cells, the trail and the
  markers as it found them. A `Solve` that finds one has:
  - every cell assigned;
  - the given assignments kept;
  - every new value taken from the cell's domain;
  - from a sound start, every constraint satisfied. A sound start is a board
    whose assigned domains are collapsed and whose assigned cells break no
    constraint. A board whose givens have collapsed domains and break no
    constraint is one by definition. Every solvable board with collapsed
    assigned domains is one (`SolvableSoundStart`); `FreshBoardSoundStart`
    is a two-cell example that is not yet settled. Each trial keeps the
    start sound: the assigned cell's constraints are modified, propagation
    settles their members, and `PropagatedConsistent` shows that justified
    propagation then breaks no constraint.

  A `Solve` that ends without a solution has proved that none exists: no
  assignment of domain values that keeps the given assignments satisfies
  every constraint.

## Model

| member | source | states |
|---|---|---|
| Network.AssignIsForced | src/BTSolver.java:398 | assigning an unassigned cell a value of its domain is a forcing step and lowers the propagation measure |
| Network.RemoveValue | src/BTSolver.java:83 | removing a value leaves exactly the other values of the domain, keeps the assignment, and shrinks the domain by one when the value was there (and changes nothing when it was not) |
| Network.RemoveFromAllAt | src/BTSolver.java:78-87 | removing a value from each listed cell changes exactly the listed cells, each by one removal |
| Network.RemoveFromAllStep | src/BTSolver.java:81-83 | one more listed cell removes the value there too, and changes nothing when its domain lacks the value (the source's `contains` guard) |
| Network.NeighborsFromMembers | src/BTSolver.java:78 | the neighbours from a given index on are exactly the other cells sharing a constraint with the cell |
| Network.NeighborsFromAscending | src/BTSolver.java:78 | those neighbours are listed in strictly ascending network order |
| Network.NeighborsMembers | src/BTSolver.java:78 | a cell's neighbours are exactly the other cells sharing a constraint with it, each listed once in ascending network order |
| Network.NeighborsSymmetric | src/BTSolver.java:78 | the neighbour relation is symmetric |
| Network.HeldIffSupport | src/BTSolver.java:146-152 | a value is held by some neighbour exactly when its neighbour count is positive, so the forcing test and the LCV count agree |
| Network.CountContaining | src/BTSolver.java:349-351 | the number of listed cells whose domain holds a value is at most the list's length, and it is zero exactly when none holds it |
| Network.PrunedOrForcedTrans | src/BTSolver.java:114-166 | steps that only prune or force a value of the cell's own domain compose into such a step |
| Network.OpenSetShrinks | src/BTSolver.java:401-402 | propagation never unassigns a cell, so the unassigned cells only get fewer (the search's termination measure) |
| Network.MeasureUpdate | src/BTSolver.java:69-92 | replacing one cell changes the propagation measure by that cell's change in weight |
| Network.ForcedKeepsSettled | src/BTSolver.java:143-161 | forcing a value that no neighbour holds settles the forced cell and unsettles no cell |
| Network.TrackedSettles | src/BTSolver.java:73-91 | a pass that settles every member of the modified constraints and unsettles no cell leaves every cell settled when each unsettled cell lay in a modified constraint |
| Network.SettledPrefix | src/BTSolver.java:74-90 | a step that unsettles no cell and settles the next member of a constraint extends the settled prefix of its members |
| Network.ModsPrefixStep | src/BTSolver.java:73-90 | in a pass over the constraints in index order, settling the current modified constraint extends the settled prefix of the modified set |
| Network.ModsCover | src/BTSolver.java:78 | a cell whose every constraint has all members settled is settled itself, since each neighbour shares one of them |
| Network.OpenSetAssign | src/BTSolver.java:398 | assigning an unassigned cell removes exactly that cell from the unassigned set |
| Network.ChangedMembers | src/BTSolver.java:82-83 | the changed cells of two states are exactly the indices where their cells differ |
| Network.TouchingMembers | src/BTSolver.java:82-83 | the constraints touched by a set of cells are exactly those containing one of the cells |
| Network.TouchedNone | src/BTSolver.java:85-87 | a step that changes no cell touches no constraint |
| Network.TouchedOne | src/BTSolver.java:82-83 | changing one cell touches exactly the constraints that contain it |
| Network.TouchedTrans | src/BTSolver.java:114-166 | over two pruning-or-forcing steps, the changed cells and the touched constraints are the unions of those of each step, since no cell returns to its old state |
| Network.ModifiedStep | src/BTSolver.java:121-164 | if each of two steps adds exactly its own touched constraints to the modified set, so does the two-step run |
| Network.PrunedTouchedTrans | src/BTSolver.java:69-92 | two pruning steps make one pruning step whose touched constraints are the union of theirs |
| Network.PrunedModifiedStep | src/BTSolver.java:73-90 | the modified-set bookkeeping of two pruning steps composes into that of one |
| Network.PendingStep | src/BTSolver.java:69-92 | a pass that settles the constraints it was handed and unsettles no cell leaves pending only the constraints it touched itself |
| Network.TouchedBy | src/BTSolver.java:82-83 | a step that changes a member of a constraint touches that constraint |
| Network.UnforcedLocal | src/BTSolver.java:143-152 | whether a cell has a forced value depends only on its own state and its neighbours' |
| Network.UnforcedStep | src/BTSolver.java:141-162 | a later step cannot make a cell forced without touching a constraint that contains it or a neighbour, so such a later change leaves the cell pending |
| Network.UnforcedLater | src/BTSolver.java:121-164 | a cell pending in the constraints touched by a later stretch is pending in those touched by the whole run |
| Network.UnforcedPrefix | src/BTSolver.java:124-164 | within one constraint, a step that leaves its cell unforced extends the prefix of members that are pending or unforced |
| Network.UnforcedModsPrefix | src/BTSolver.java:121-165 | within one pass, the constraint just done joins the earlier ones whose members are pending or unforced |
| Network.UnforcedPassStep | src/BTSolver.java:117-166 | after one more pass, every member of a constraint of the fixpoint set is unforced or lies in a constraint the pass touched |
| Network.NothingPending | src/BTSolver.java:117-118 | once nothing is pending, every member of a constraint of the fixpoint set is unforced |
| Solutions.JustifiedTrans | src/BTSolver.java:114-166 | two justified propagation runs in a row make one justified run (a cell assigned on the way is exempt from the removal clause) |
| Solutions.PrunedSoundTrans | src/BTSolver.java:69-92 | pruning runs that are justified and keep every solution compose |
| Solutions.KeepsSolutionsSolvable | src/BTSolver.java:69-92 | a step that keeps every solution keeps the state solvable |
| Solutions.PruneChangesExactly | src/BTSolver.java:78-87 | pruning from an assigned cell removes its value from exactly its neighbours and leaves every other cell alone |
| Solutions.PruneJustified | src/BTSolver.java:78-87 | each value pruning removes is the value of an assigned neighbour |
| Solutions.PruneKeepsSolutions | src/BTSolver.java:78-87 | pruning discards no solution, since no solution gives an assigned cell's value to one of its neighbours |
| Solutions.PruneOutcome | src/BTSolver.java:78-87 | pruning only removes values, leaves no neighbour holding the value, settles the cell, unsettles none, is justified and keeps every solution |
| Solutions.ForceJustified | src/BTSolver.java:143-161 | assigning a value no neighbour holds is justified |
| Solutions.ForceKeepsSolvable | src/BTSolver.java:143-161 | assigning a domain value no neighbour holds keeps a solvable state solvable |
| Solutions.ForcedConstraintHolds | src/BTSolver.java:143-161 | a solution changed to give the forced value to the forced cell still satisfies every constraint |
| Solutions.UnheldDiffers | src/BTSolver.java:146-157 | an assigned cell whose value no neighbour's domain holds differs from every assigned neighbour with a collapsed, non-empty domain |
| Solutions.PropagatedConsistent | src/BTSolver.java:395-403 | from collapsed domains that break no constraint, assigning a domain value and propagating by justified steps that settle the assigned cell and empty no domain keeps the domains collapsed and breaks no constraint |
| Solutions.SolvableConsistent | src/BTSolver.java:93-97 | a solvable state has no empty domain and breaks no constraint |
| Solutions.SolvableSomeValue | src/BTSolver.java:389-410 | in a solvable state, some value of a cell's domain leads to a solvable state when assigned |
| Solutions.UntriedUnsolvable | src/BTSolver.java:389-410 | when every value of a cell's domain has been tried and none leads to a solution, the state has none |
| Trail.RollbackAppend | src/BTSolver.java:409 | rolling back two stretches of trail is rolling back the newer stretch first |
| Trail.RecordThenSet | src/BTSolver.java:82-83 | recording a cell and then changing it is undoable |
| Trail.UndoableTrans | src/BTSolver.java:391-409 | undoable steps compose, so any sequence of recorded mutations can be undone to the marker |
| ValueOrder.SortedValues | src/BTSolver.java:318-331 | the values of a domain, each exactly once, in strictly ascending order |
| ValueOrder.LeastConstrainingFirst | src/BTSolver.java:342-358 | the corrected LCV sort: the list is ordered by neighbour count, and it is a permutation of its input |
| ValueOrder.SortPermutes | src/BTSolver.java:342-358 | sorting by count keeps the length, the entries and their values |
| ValueOrder.AscendingUnique | src/BTSolver.java:318-331 | two strictly ascending sequences with the same elements are equal, so the ascending order of a domain is unique |
| Selection.FirstUnassignedUnique | src/BTSolver.java:179-187 | at most one index is the first unassigned cell |
| Selection.MrvChoiceUnique | src/BTSolver.java:194-208 | at most one index is a smallest unassigned domain that is earliest among its ties |
| Selection.DegreeChoiceUnique | src/BTSolver.java:215-258 | at most one index is the degree heuristic's choice |
| Selection.LoadChoiceUnique | src/BTSolver.java:267-311 | at most one index is the tie-breaker heuristic's choice |
| Selection.MrvOfEqualSizesIsFirst | src/BTSolver.java:194-208 | when every unassigned domain has one size, MRV picks the first unassigned cell |
| Solver.LcvAsWrittenCounterexample | src/BTSolver.java:342-358 | on two cells of one constraint, the ascending order [1, 2] offers first the value the neighbour holds and is not least constraining, while [2, 1] is |
| Solver.SolvableSoundStart | src/BTSolver.java:365-411 | every solvable board with collapsed assigned domains is a sound start, under every strategy |
| Solver.FreshBoardSoundStart | src/BTSolver.java:29-38 | a freshly built board with one given cell whose neighbour still holds the given value is a sound start under every strategy, although it is not settled |
| Solver.SkippedForcingNotFixpoint | src/BTSolver.java:140-161 | on the two-cell example, a cell keeps a value its only neighbour cannot take, so leaving those cells unchanged is not a fixpoint of Norvig's check (it has a forced value) |
| Solver.OnePassNotFixpoint | src/BTSolver.java:69-92 | on a chain of four cells, stopping after the first pruning pass leaves a touched constraint unsettled, so one pass does not meet the fixpoint that propagation promises |
| Solver.BTSolver.constructor | src/BTSolver.java:29-38 | the solver starts from the given cells, constraints, modified set and heuristics, with an empty trail and no solution |
| Solver.BTSolver.PlaceTrailMarker | src/BTSolver.java:394 | a marker at the current trail depth is pushed; nothing else changes |
| Solver.BTSolver.Undo | src/BTSolver.java:409 | the cells are rolled back over the entries since the newest marker, the trail is cut back to it, and the marker is removed |
| Solver.BTSolver.PushAndRemove | src/BTSolver.java:81-83 | the neighbour is recorded before the value leaves its domain; the step is undoable, only prunes, adds exactly the constraints containing the changed cell to the modified set and lowers the measure |
| Solver.BTSolver.PushAndAssign | src/BTSolver.java:395-398 | the cell is recorded before it is assigned a value of its domain; the step is undoable, adds exactly the constraints containing the cell to the modified set, removes the cell from the unassigned set and lowers the measure |
| Solver.BTSolver.TakeModifiedConstraints | src/BTSolver.java:73 | hands out the modified constraints and clears the record |
| Solver.BTSolver.AssignmentsCheck | src/BTSolver.java:45-52 | true exactly when every constraint holds |
| Solver.BTSolver.NoDomainEmpty | src/BTSolver.java:94-97 | true exactly when no domain is empty |
| Solver.BTSolver.AllVariablesAssigned | src/BTSolver.java:375-387 | true exactly when every cell is assigned |
| Solver.BTSolver.AppearsInNeighbor | src/BTSolver.java:146-152 | true exactly when some neighbour's domain holds the value |
| Solver.BTSolver.CountUnassigned | src/BTSolver.java:248-250 | the number of unassigned cells among those listed |
| Solver.BTSolver.CountSupport | src/BTSolver.java:348-351 | the number of neighbours whose domain holds the value |
| Solver.BTSolver.GetFirstUnassignedVariable | src/BTSolver.java:179-187 | the earliest unassigned cell; None exactly when every cell is assigned |
| Solver.BTSolver.GetMrv | src/BTSolver.java:194-208 | an unassigned cell with no larger domain than any other unassigned cell, the earliest among ties; None exactly when every cell is assigned |
| Solver.BTSolver.CollectMrvs | src/BTSolver.java:221-242 | the candidate list holds only unassigned cells of the minimum size, holds every such cell, and is in network order |
| Solver.BTSolver.CountUnassignedNeighbors | src/BTSolver.java:247-250 | the cell's number of unassigned neighbours |
| Solver.BTSolver.MostUnassignedNeighbors | src/BTSolver.java:245-256 | a candidate whose degree is no smaller than any other candidate's, and strictly larger than that of every candidate earlier in the list |
| Solver.BTSolver.GetDegree | src/BTSolver.java:215-258 | in the MRV set, the cell with the most unassigned neighbours, the earliest among ties; None exactly when every cell is assigned |
| Solver.BTSolver.CountConstraintLoad | src/BTSolver.java:299-303 | the unassigned members summed over every constraint containing the cell |
| Solver.BTSolver.LargestLoad | src/BTSolver.java:297-309 | a candidate whose load is no smaller than any other candidate's, and strictly larger than that of every candidate earlier in the list |
| Solver.BTSolver.MrvWithTieBreaker | src/BTSolver.java:267-311 | in the MRV set, the cell with the largest constraint load, the earliest among ties; None exactly when every cell is assigned |
| Solver.BTSolver.SelectNextVariable | src/BTSolver.java:428-444 | each heuristic's characterised choice, an unassigned cell; None exactly when every cell is assigned |
| Solver.BTSolver.GetValuesInOrder | src/BTSolver.java:318-331 | exactly the domain's values, each once, strictly ascending |
| Solver.BTSolver.ScoreEach | src/BTSolver.java:347-353 | each given value paired with its neighbour count, in the given order |
| Solver.BTSolver.ValuesOf | src/BTSolver.java:355-356 | returns the keys of the scored pairs in order |
| Solver.BTSolver.ScoreValues | src/BTSolver.java:345-353 | the domain's values in ascending order, each paired with its neighbour count |
| Solver.BTSolver.GetValuesLcvOrder | src/BTSolver.java:342-358 | as written: the same ascending sequence as the in-order heuristic, whatever the counts |
| Solver.BTSolver.LeastConstrainingValues | src/BTSolver.java:333-341 | corrected: the domain's values, each once, fewest neighbour holders first, ties ascending |
| Solver.BTSolver.GetNextValues | src/BTSolver.java:446-456 | a permutation of the domain; ascending by default, least constraining order under LCV |
| Solver.BTSolver.PruneNeighbors | src/BTSolver.java:78-89 | exact new state: each neighbour cell loses the assigned value, every other cell is unchanged, each removal is recorded first, and the modified set gains exactly the constraints containing a changed cell; afterwards no neighbour holds the value, the step is justified, keeps every solution, and unsettles no cell |
| Solver.BTSolver.RemoveFromCells | src/BTSolver.java:78-89 | the loop of that pruning: the cells become the listed removals applied in order, each recorded first, the modified set gains exactly the constraints of changed cells, and a reported change lowers the measure |
| Solver.BTSolver.PruneMember | src/BTSolver.java:75-90 | an assigned member prunes its neighbours and is settled afterwards; an unassigned member changes nothing; either way the step only prunes, adds exactly the constraints of changed cells to the modified set, is justified and keeps every solution |
| Solver.BTSolver.PruneConstraint | src/BTSolver.java:74-90 | forward checking over one constraint: only prunes, is undoable, adds exactly the constraints of changed cells to the modified set, is justified, keeps every solution, and settles every member |
| Solver.BTSolver.ForwardCheckingPass | src/BTSolver.java:73-91 | one pass over the modified constraints: only prunes, justified, keeps every solution; adds exactly the constraints of changed cells to the modified set; reports a change exactly when it lowered the measure; unsettles no cell and settles every member of the passed constraints; settles every cell when the passed set covered the unsettled cells |
| Solver.BTSolver.ForwardChecking | src/BTSolver.java:65-98 | only prunes, every change recorded, every removal justified, every solution kept; leaves no modified constraint; true exactly when no domain is empty; the fixpoint: every member of every constraint modified on entry or touched by the propagation is settled; every cell settled when the modified set covered the unsettled cells on entry |
| Solver.BTSolver.FirstForcedValue | src/BTSolver.java:143-162 | the least domain value that no neighbour holds, or None when every value is held |
| Solver.BTSolver.ForceValue | src/BTSolver.java:141-163 | assigns, after recording, the least domain value no neighbour holds, adding exactly the cell's constraints to the modified set; when every value is held, nothing changes; justified, and keeps a solvable state solvable |
| Solver.BTSolver.NorvigCell | src/BTSolver.java:124-163 | prunes from an assigned cell or forces an unassigned one, adding exactly the constraints of changed cells to the modified set; afterwards the cell is settled, and if it is still unassigned every value of its domain is held by a neighbour; justified, and keeps a solvable state solvable |
| Solver.BTSolver.NorvigConstraint | src/BTSolver.java:121-164 | Norvig's work on one constraint: only prunes or forces, is undoable and justified, keeps a solvable state solvable, adds exactly the constraints of changed cells to the modified set, and settles every member; each member is unforced or lies in a constraint the work touched, and when nothing changed every member is unforced |
| Solver.BTSolver.NorvigPass | src/BTSolver.java:120-165 | one pass over the modified constraints: only prunes or forces, justified, keeps solvability; adds exactly the constraints of changed cells to the modified set; reports a change exactly when it lowered the measure; unsettles no cell and settles every member of the passed constraints; each of their members is unforced or lies in a constraint the pass touched, and after a pass that changed nothing every one is unforced |
| Solver.BTSolver.NorvigRound | src/BTSolver.java:117-166 | one round of the loop: takes the modified set and runs a pass; the fixpoint facts about every constraint seen so far are kept, with only the constraints the pass touched left pending |
| Solver.BTSolver.NorvigCheck | src/BTSolver.java:114-172 | only prunes or forces own-domain values, every change recorded and justified, solvability kept; leaves no modified constraint; true exactly when no domain is empty; the fixpoint: every member of every constraint modified on entry or touched by the propagation is settled, and if unassigned has every domain value held by a neighbour; every cell settled when the modified set covered the unsettled cells on entry |
| Solver.BTSolver.CheckConsistency | src/BTSolver.java:413-426 | the configured strategy's guarantees; the plain check changes nothing and is true exactly when every constraint holds; a propagating strategy reaches the fixpoint over the constraints modified on entry or touched, and Norvig's leaves their unassigned members without a forced value; every strategy is justified and keeps solvability, so a false result means the state had no solution |
| Solver.BTSolver.Solve | src/BTSolver.java:365-411 | no change once a solution exists; no solution means cells, trail and markers as on entry, and that the entry state has no solution; a solution is complete, keeps the given assignments and, from a sound start (collapsed domains, no broken constraint, as on a fresh or solvable board), satisfies every constraint |
| Solver.BTSolver.TryValue | src/BTSolver.java:391-410 | one trial under a fresh marker: undone on failure, and then the state with the cell assigned that value has no solution; on success complete, and from a sound start valid, because the start stays sound after the assignment and its propagation |
| Solver.BTSolver.AssignAndCheck | src/BTSolver.java:395-401 | records and assigns the cell, then runs the configured check: the unassigned set shrinks, every change is undoable, a passed check keeps a sound start sound, and a failed check or an unsolvable result rules out every solution giving the cell that value |

## Left out

- Console and board I/O are not modelled: the `System.out.println("Error")` in `solve` (src/BTSolver.java:380), `getSolution` and `toSudokuBoard` (src/BTSolver.java:463-466). The branch that prints still returns without a solution.
- Solver.BTSolver.constructor: building the network from a Sudoku board (src/BTSolver.java:29-38) and the p×q sizing are not modelled. The constructor takes the cells, the constraints and the initially modified constraints as given values.
- `Variable`, `Domain`, `Constraint`, `ConstraintNetwork` and `Trail` are not part of this model. They are specified abstractly:
  - a cell's domain is a finite set of integers;
  - assigning a cell collapses its domain to the assigned value;
  - a trail entry is a full snapshot of one cell;
  - the modified set grows by every constraint containing a cell that was just changed, and taking it clears it.
- Neighbour order and domain iteration order are taken as ascending network order and ascending value order. The collaborators that define them are not part of this model.
- The order in which `getModifiedConstraints` hands out the modified constraints (src/BTSolver.java:73, 121) is taken as ascending constraint index. That order decides which cell Norvig's check forces first, and so which of several forced values it finds. The proved properties (justified steps, kept solvability, the fixpoint over the constraints modified on entry or touched by propagation, the verdict) hold for the modelled order; other orders are not modelled.
- `Constraint.isConsistent` is not part of this model. It is modelled as "no two distinct assigned members share a value".
- Java collection mechanics are not modelled: `Collections.sort` with its comparator, list iterators, and `Integer` boxing.
- The C++ spellings in the source (`bool`, `nullptr`, `push_back`, `front`, the undeclared `Entry`) are modelled with their evident meaning.
- String dispatch on heuristic names is not modelled. It is replaced by enums whose first variant plays the `default:` branch.
- Solver.BTSolver.Solve: a reported solution is proved to satisfy every constraint only from a sound start (`SoundStart`): the assigned cells' domains are collapsed and the assigned cells break no constraint. A board whose givens have collapsed domains and break no constraint meets it by definition, and so does every solvable board with collapsed assigned domains (`SolvableSoundStart`); `FreshBoardSoundStart` is only an example. From other starts a reported solution is only known to be complete: a board whose cells are all assigned is reported solved without any check (src/BTSolver.java:375-387), and under a propagating strategy a clash between givens is found only when propagation reaches a constraint that holds them. The search is complete from every start: no solution reported means none exists.
- Solver.BTSolver.TryValue: the same sound-start condition as `Solve` applies to its validity clause.
- Solver.BTSolver.GetNextValues: under `LeastConstrainingValue` it returns the corrected order (`LeastConstrainingValues`), not the ascending sequence the source's `getValuesLCVOrder` returns as written (see Findings). The as-written method is modelled as `GetValuesLcvOrder`. Search completeness does not depend on the order, since every domain value is tried.
- Solver.BTSolver.LeastConstrainingValues: ties in the neighbour count are stated as "the smaller value first". The stable sort on an ascending input gives exactly that order.
- Integer widths are not modelled: domain sizes and counts are unbounded. They are bounded by the number of cells on any real board.

## Findings

| source | as written | input that shows it | evidently intended | confidence | as-written member | corrected member |
|---|---|---|---|---|---|---|
| src/BTSolver.java:342-358 | `getValuesLCVOrder` computes each value's neighbour count into `unsorted` but never sorts it, so it returns the domain in ascending order | cell 0 with domain {1, 2} and cell 1 with domain {1}, in one constraint: the method returns [1, 2] although value 1 is held by the neighbour and value 2 is not | the documented order, least constraining value first (fewest neighbours holding it), i.e. [2, 1] | not executed | Solver.BTSolver.GetValuesLcvOrder, Solver.LcvAsWrittenCounterexample | Solver.BTSolver.LeastConstrainingValues |
