# CaDiCaL 1.5.2: verified model

This project models the algorithmic core of the SAT solver CaDiCaL 1.5.2, with
its compile-time variants that keep auxiliary variables out of decisions
(`BRANCHAUX`) and learned clauses (`UIPAUX`), and proves its correctness
properties. `dafny verify dfyconfig.toml` checks everything.

Literals are non-zero integers, clauses sequences of literals, formulas sets of
clauses, and models possibly infinite sets of true variables (`Logic.dfy`).
Entailment quantifies over all models.

| files | component |
|---|---|
| `CheckerState`, `CheckerTable`, `OnlineChecker`, `CheckerRuns` | online proof checker: watch lists, hash table, garbage, whole call sequences |
| `Extension`, `WitnessTraversal`, `Reconstruction` | extension stack, its traversal, and model reconstruction over whole runs |
| `ElimState`, `Elimination`, `ResolventBounds`, `VariableElimination` | resolution and bounded variable elimination |
| `Gates`, `MatchedGates`, `MoreGates`, `SignMasks`, `XorGates`, `LossyGates`, `GateElimination`, `ElimRound` | gate extraction (equivalences, AND, if-then-else, XOR), elimination with gates, whole rounds |
| `MoveToFront`, `Blocking` | blocked clause elimination |
| `ImplicationGraph`, `Tarjan`, `Components`, `Decompose` | equivalent literals by an iterative depth-first search |
| `Substitution`, `DecomposeRound` | substitution of representatives and one whole round |
| `TrailState`, `SearchTrail` | assignment trail with chronological backtracking |
| `ConflictResolution`, `ImplicationPoints`, `Analysis`, `AuxFreeLearning`, `AuxDropping`, `Minimization`, `ConflictAnalysis` | conflict analysis of both builds |
| `Probing`, `ProbeClauses`, `FailedLiterals` | implication tree, hyper binary resolution, failed literals |
| `Bits`, `RadixHeap`, `ByteSort`, `RadixSort`, `DecisionQueue`, `Reluctant` | radix heap, radix sort, decision queue, reluctant doubling |
| `Logic`, `Finite`, `Sorting` | propositional logic, finite sets, sorting |

Objects whose fields the source updates are classes; their methods are proved
against functions of the old state, and the lemmas state what these functions
mean. Main results:

* Whole runs of the proof checker are sound (`CheckerRuns.Run`), and its
  propagation is complete: a rejected clause is not derivable by unit
  propagation (`Checker.AddDerivedClause`).
* One backward pass over the flat extension stack repairs models over whole runs
  (`Reconstruction.RunReconstructs`, `ExtendRun`). Blocked clause elimination
  (`Blocker.BlockLiteral`), rounds of variable elimination with gate search
  (`ElimRound.Round`) and equivalent literal substitution
  (`DecomposeRound.Round`) all end in the relation `Repairs` that these runs are
  made of.
* The depth-first search declares unsatisfiability if and only if some literal is
  equivalent to its negation, and otherwise computes exactly the components
  (`Decomposer.FindComponents`).
* Conflict analysis keeps the trail valid and learns the entailed asserting clause
  of the first unique implication point, defined by paths in the implication
  graph (`ImplicationPoints.FoundFirst`, `ConflictAnalysis.Analyze`), in the
  default build and in `UIPAUX`. Unless its depth limit interferes, minimization
  removes exactly what reasons show redundant (`Minimizer.MinimizeClause`).
* A round of probing keeps exactly the models of irredundant clauses and root
  units, while hyper binary resolution adds clauses and drops subsumed ones; every
  probe is propagated to a conflict or a fixpoint (`Prober.ProbeRound`).

Two properties fail without a condition. Each has its exact condition and a
failing state:

* `UIPAUX` learning. The clean-up drops an auxiliary literal that has no reason
  (lines 733-737 of `analyze.cpp`). The cleaned clause follows from every formula
  with this trail and conflict if and only if no literal is dropped
  (`AuxDropping.SoundExactly`); it suffices that no auxiliary variable is a
  decision (`NoAuxNoDrop`). `AuxDecisionUnsound` is a state and a conflict where
  the clause learned is not entailed. It is free of auxiliary literals in any
  case (`CleanUpAuxFree`).
* Gates found by the if-then-else and XOR matchers. These skip assigned literals
  of either value, so a satisfied clause can be taken for a gate clause. The
  guard they lack is exact: matched clauses define the pivot, and may be used for
  substitution, next to whatever other clauses if and only if none of them has a
  true literal (`MatchedGates.GuardExact`, `GuardExactGates`), a test of these
  clauses before marking them. In one given state they do if and only if the
  unassigned literals of every satisfied one follow from the clauses without the
  pivot (`MatchedDefines`). `SatisfiedGateLoses` is a state for each matcher where
  substitution would lose the formula. Satisfied clauses are dropped when a round
  starts (lines 644-657 of `elim.cpp`), but units found while resolvents are added are
  assigned without visiting their occurrences (line 474), so later pivots can
  meet satisfied clauses. Equivalence and AND gates need no condition, since
  their search drops satisfied clauses.

## Model

| member | source | states |
|---|---|---|
| `CheckerRuns.Run` | cadical/src/checker.cpp:161-531 | Over any call sequence from an empty checker: every accepted derivation, and at the end every live clause, root unit and binary watch (garbage clauses included), is entailed by the originals added so far; `inconsistent` means these originals are unsatisfiable; only a rejected derivation or a missing deletion aborts |
| `CheckerState.BinaryWatchSound` | cadical/src/checker.cpp:364-413 | A binary watch may be used for propagation without looking at its clause, because the binary clause it stands for is entailed even after the clause became garbage |
| `OnlineChecker.Checker.Propagate` | cadical/src/checker.cpp:364-413 | Terminates; on success the whole trail is propagated and every live clause has a true literal or two watches not false; on failure the assumed formula is unsatisfiable |
| `CheckerState.MoveClause` | cadical/src/checker.cpp:388-404 | Exchanging the false watch of a long clause for a non-false literal keeps both watch lists, the clause invariant and everything propagated so far |
| `CheckerState.BlitKeeps` | cadical/src/checker.cpp:376-379 | Replacing a blocking literal by another literal of the same clause keeps the watch invariants |
| `CheckerState.ReorderKeepsPropagated` | cadical/src/checker.cpp:388-404 | Reordering literals inside clauses with one new watch that is not falsified keeps the two-watched-literal invariant |
| `OnlineChecker.Checker.VisitLong` | cadical/src/checker.cpp:376-404 | One visited watch of a long clause leaves the visiting invariant at the next position, or the assumed formula is refuted |
| `OnlineChecker.Checker.Backtrack` | cadical/src/checker.cpp:342-360 | Exactly the assignments after the given height are taken back; values and trail agree again |
| `OnlineChecker.Checker.Refute` | cadical/src/checker.cpp:415-424 | Assuming the negated clause and propagating either refutes it, or ends in a fixpoint where every live clause is satisfied or has two unassigned literals, so that unit propagation cannot derive the clause |
| `OnlineChecker.Checker.Check` | cadical/src/checker.cpp:415-424 | Success means the clause is entailed by the originals; failure means unit propagation does not derive it; the trail, values and the fully propagated root state are as before |
| `OnlineChecker.Checker.Tautological` | cadical/src/checker.cpp:252-267 | True exactly for a clause with a root-true literal or complementary literals; otherwise the clause is sorted and repetition-free over the same literals |
| `CheckerTable.CanonicalUnique` | cadical/src/checker.cpp:252-267 | Clauses with the same literals have one canonical form, so the hash does not depend on the order of import |
| `OnlineChecker.Checker.ComputeHash` | cadical/src/checker.cpp:284-293 | The hash of the canonical clause with four rotating nonces and 64-bit wrap-around |
| `OnlineChecker.Checker.ReduceHash` | cadical/src/checker.cpp:271-282 | Folding the upper half down until it fits gives a position within the table |
| `OnlineChecker.Checker.Find` | cadical/src/checker.cpp:295-314 | Finds a live clause over exactly the simplified literals if and only if there is one in the whole table |
| `CheckerTable.FindsItsChain` | cadical/src/checker.cpp:295-314 | A live clause over given literals can only be in the chain of their hash |
| `CheckerTable.InsertEntry` | cadical/src/checker.cpp:316-323 | Linking a clause into its chain keeps every live clause in exactly one chain |
| `CheckerTable.DiscardEntry` | cadical/src/checker.cpp:498-531 | Unlinking a clause and putting it on the garbage list keeps table and garbage list exact |
| `OnlineChecker.Checker.EnlargeClauses` | cadical/src/checker.cpp:82-101 | Doubling the table moves every clause to the chain of its hash and loses none |
| `OnlineChecker.Checker.InsertClause` | cadical/src/checker.cpp:37-68 | A clause with two unassigned literals gets those as watches, is stored, watched twice and found in the table; the root state stays propagated |
| `CheckerState.AddKeeps` | cadical/src/checker.cpp:37-68 | Watching a new clause on two unassigned literals keeps the propagated root state |
| `OnlineChecker.Checker.AddClause` | cadical/src/checker.cpp:428-457 | An entailed clause that is neither satisfied nor tautological is kept as stored clause or unit, or the checker becomes inconsistent |
| `OnlineChecker.Checker.AddOriginalClause` | cadical/src/checker.cpp:459-472 | The originals grow by exactly the clause, which is kept unless it is tautological; all invariants hold again |
| `OnlineChecker.Checker.AddDerivedClause` | cadical/src/checker.cpp:474-494 | An accepted clause is entailed by the originals; a rejected one is not derivable by unit propagation from the live clauses |
| `OnlineChecker.Checker.DeleteClause` | cadical/src/checker.cpp:498-531 | Removes exactly one live clause with these literals; skips satisfied and tautological clauses; reports a clause that is not there |
| `OnlineChecker.Checker.CollectGarbageClauses` | cadical/src/checker.cpp:116-157 | Afterwards no garbage is left, only root-satisfied clauses were lost, and no watch refers to a freed clause |
| `Extension.External.PushClauseOnExtensionStack` | cadical/src/extend.cpp:38-50 | Pushes one zero-separated entry of witness and clause and marks the witness |
| `Extension.External.PushBinaryClauseOnExtensionStack` | cadical/src/extend.cpp:52-61 | Pushes one entry for a binary clause and marks the witness |
| `Extension.FlatConcat` | cadical/src/extend.cpp:5-61 | The flat stack of two groups of entries is the concatenation of their stacks, so pushes compose |
| `Extension.External.Extend` | cadical/src/extend.cpp:94-157 | One backward pass over the flat stack, last entry first: a satisfied clause changes nothing; for a falsified one every witness literal that precedes its negation in the witness is true afterwards, and variables outside the witness keep their value |
| `Extension.External.RepairWitness` | cadical/src/extend.cpp:134-147 | The same for one witness of any length |
| `Extension.ProcessedEntry` | cadical/src/extend.cpp:115-148 | For a consistent witness: if the clause is falsified all witness literals hold afterwards, so does the clause if it contains one of them, and all other variables keep their value; otherwise nothing changes |
| `Reconstruction.OneSided` | cadical/src/extend.cpp:115-146 | Processing clauses that share a witness flips it at most once, and exactly if one of them is unsatisfied |
| `WitnessTraversal.TraverseWitnessesBackward` | cadical/src/extend.cpp:161-180 | Parses the stack back into the pushed entries in reverse order and stops at the first rejected one |
| `WitnessTraversal.TraverseWitnessesForward` | cadical/src/extend.cpp:182-205 | Parses the stack back into the pushed entries in the order of pushing and stops at the first rejected one |
| `Reconstruction.RepairsCompose` | cadical/src/extend.cpp:5-61 | What two steps push in a row repairs models across both |
| `Reconstruction.RunReconstructs` | cadical/src/extend.cpp:94-157 | Over any run of formulas in which every step repairs the models of the one before, extending with everything pushed, last step first, turns every model of the last formula into a model of the first |
| `Reconstruction.ExtendRun` | cadical/src/extend.cpp:94-157 | The pass over the flat stack of such a run repairs the stored assignment |
| `Reconstruction.BlockingReconstructs` | cadical/src/block.cpp:554-563 | Pushing a blocked clause with its blocking literal repairs every model of the remaining clauses |
| `Reconstruction.ConditioningReconstructs` | cadical/src/condition.cpp:745-762 | Pushing a globally blocked clause with its whole autarky as witness repairs every model of the remaining clauses |
| `Reconstruction.EliminationReconstructs` | cadical/src/elim.cpp:444-536 | After variable elimination the pushed clauses, all or only those of a gate that defines the pivot, repair every model of the resolvents and the rest |
| `Reconstruction.DefinedPivot` | cadical/src/elim.cpp:489-536 | With only gate clauses pushed, the clauses that were not pushed are satisfied as well, because the gate determines the pivot |
| `Reconstruction.SubstitutionReconstructs` | cadical/src/decompose.cpp:330-340 | Pushing both implications between a variable and its representative repairs every model of the substituted formula |
| `Elimination.Eliminator.ElimPropagate` | cadical/src/elim.cpp:125-169 | Propagating a unit over occurrence lists keeps live clauses plus units equivalent and drops only satisfied clauses; unless the formula is refuted no clause listed for this or any new unit is live any more, and with complete lists every live clause with a literal they falsify has a true or two open literals |
| `Elimination.Eliminator.ElimOnTheFlySelfSubsumption` | cadical/src/elim.cpp:179-198 | Replaces one antecedent by its literals other than the pivot without changing the models |
| `Elimination.Eliminator.CollectResolvent` | cadical/src/elim.cpp:259-310 | Exactly the resolvent without false literals and the sizes of both antecedents, or a satisfied antecedent is dropped or the resolvent a tautology, and then it is entailed |
| `Elimination.Eliminator.Resolve` | cadical/src/elim.cpp:232-365 | On every branch the live clauses plus units stay equivalent; true gives exactly the resolvent without false literals, not a tautology, of size two or more and longer than the rest of either antecedent; false means the resolvent is already entailed |
| `Elimination.Eliminator.Strengthen` | cadical/src/elim.cpp:325-365 | True exactly if neither antecedent can be strengthened; an antecedent that can is replaced, and both are if both can |
| `Elimination.Eliminator.ResolveClauses` | cadical/src/elim.cpp:232-365 | The same including swapped antecedents and garbage antecedents, for which nothing changes |
| `Elimination.CollectedResolvent` | cadical/src/elim.cpp:259-310 | The literals collected by the two loops are those of the resolvent that are not false |
| `Elimination.SmallerCovers` | cadical/src/elim.cpp:325-362 | If the resolvent is smaller than an antecedent, it consists of the rest of that antecedent, so strengthening is justified |
| `Elimination.SecondCovered` | cadical/src/elim.cpp:325-362 | If the resolvent is smaller than both antecedents, the second one is subsumed by the strengthened first one |
| `ResolventBounds.ResolventCounted` | cadical/src/elim.cpp:376-439 | A resolvent found is one of those counted beforehand, no tautology and within the literals of its antecedents |
| `ResolventBounds.StillWithin` | cadical/src/elim.cpp:376-439 | Simplification and gate flags only take resolvents away, so bounds that held before still hold |
| `VariableElimination.ElimResolventsAreBounded` | cadical/src/elim.cpp:376-439 | Counting only simplifies equivalently, and the pivot stays unassigned when the answer is yes; then at most as many resolvents as the bound says, each within the size limit, are still to be added; the answer must be yes if there are few and short enough non-tautological resolvents, unless the pivot or the formula is decided; for a pure pivot it depends on the bound alone |
| `VariableElimination.ElimAddResolvents` | cadical/src/elim.cpp:444-482 | Afterwards every resolvent that substitution does not skip is entailed without the pivot, unless the formula was refuted |
| `VariableElimination.MarkEliminatedClausesAsGarbage` | cadical/src/elim.cpp:489-536 | Exactly the live clauses of both occurrence lists become garbage, and exactly these or their gate clauses are pushed in order |
| `VariableElimination.EliminationIsValid` | cadical/src/elim.cpp:444-536 | With the resolvents in place the removal meets the hypotheses of the reconstruction theorem, also when only gate resolvents were added |
| `VariableElimination.RemovalRepairs` | cadical/src/elim.cpp:489-536 | Removing the clauses of a variable whose resolvents are in place repairs models with the clauses pushed, all of them or the gate clauses |
| `VariableElimination.TryToEliminateVariable` | cadical/src/elim.cpp:576-586 | If the gate flags are what substitution relies on, what is pushed repairs models; an eliminated variable is gone from all live clauses; without elimination nothing is pushed and the formula is equivalent; within the bounds the variable is eliminated unless it or the formula is decided |
| `Gates.SecondLiteral` | cadical/src/gates.cpp:20-46 | A result is returned exactly for clauses that are binary apart from false literals; only satisfied clauses are dropped |
| `Gates.MarkBinaryLiterals` | cadical/src/gates.cpp:54-87 | The marks are exactly the second literals of binary clauses, both directions, or the literal got a value |
| `Gates.EquivalenceDefines` | cadical/src/gates.cpp:103-154 | The two clauses of an equivalence define the pivot |
| `Gates.FindEquivalence` | cadical/src/gates.cpp:103-154 | A reported equivalence is a definition of the pivot in the simplified state; unless a unit turned up, nothing is reported only if there is none |
| `Gates.AndDefines` | cadical/src/gates.cpp:170-260 | Base clause and one side per input define the pivot |
| `Gates.FindAndGate` | cadical/src/gates.cpp:170-260 | A reported AND gate is a definition of the pivot in the simplified state; unless pivot or formula are decided, nothing is reported only if there is no base clause with a side for every input |
| `MatchedGates.MatchedDefines` | cadical/src/gates.cpp:275-302 | Clauses matched by their unassigned literals alone define the pivot if and only if every matched clause with a true literal has unassigned literals that follow from the clauses without the pivot anyhow |
| `MatchedGates.NoneTrueDefines` | cadical/src/gates.cpp:275-302 | This holds whenever no matched clause has a true literal, which is visible in the matched clauses alone |
| `MatchedGates.GuardExact` | cadical/src/gates.cpp:275-302 | Exactly if no matched clause has a true literal, the matched clauses define the pivot next to whatever other clauses |
| `MatchedGates.GuardExactGates` | cadical/src/gates.cpp:275-302 | The same for what substitution relies on after marking the gate clauses |
| `MoreGates.IteMatched` | cadical/src/gates.cpp:318-373 | The four clauses of an if-then-else are matched: in every assignment one is open, and any two clash |
| `MoreGates.LooseIteDefines` | cadical/src/gates.cpp:318-373 | So they define the pivot exactly under that condition |
| `LossyGates.SatisfiedGateLoses` | cadical/src/gates.cpp:275-302 | Both matchers accept a clause with a true literal: in a concrete valid state the matched clauses do not define the pivot, and a model of everything that substitution keeps extends to no model |
| `MoreGates.FindIfThenElse` | cadical/src/gates.cpp:318-373 | The four clauses reported match an if-then-else by their unassigned literals; with complete occurrence lists nothing is reported only if there is no if-then-else over different variables whose condition is the literal that the search chooses in its first clause |
| `SignMasks.NextEven` | cadical/src/gates.cpp:455-462 | The parity loop steps from one even sign mask to the very next |
| `SignMasks.EvenTotal` | cadical/src/gates.cpp:448-466 | Among the non-zero masks below `2h` exactly `h - 1` are even, the number of clauses the loop has to find |
| `SignMasks.NoneBetween` | cadical/src/gates.cpp:448-466 | When the counts agree no even mask was missed |
| `SignMasks.SomeBetween` | cadical/src/gates.cpp:448-466 | When the counts differ an even mask is still to come |
| `XorGates.XorMatched` | cadical/src/gates.cpp:419-499 | The clauses for all even sign masks are matched for each of their literals: in every assignment one is open, and any two clash |
| `XorGates.FindClause` | cadical/src/gates.cpp:383-415 | Finds a live clause with exactly the given unassigned literals, and with complete occurrence lists fails only if there is none |
| `XorGates.XorDefines` | cadical/src/gates.cpp:419-499 | They define each of their literals if and only if every one with a true literal is redundant up to the pivot |
| `XorGates.CompleteXor` | cadical/src/gates.cpp:444-470 | The sign loop visits each non-zero even mask once: success means a clause for every mask, failure with complete occurrence lists that one is missing |
| `XorGates.FindXorGate` | cadical/src/gates.cpp:419-499 | A reported XOR gate is matched; with complete occurrence lists nothing is reported only if no live clause of the pivot within the arity limit starts a complete XOR |
| `Gates.DefinitionGate` | cadical/src/gates.cpp:146-154 | Marking clauses as gate clauses gives what substitution relies on, a forced pivot and entailed resolvents, if and only if they define the pivot |
| `GateElimination.DefinitionNegated` | cadical/src/gates.cpp:508-519 | A definition of the negated pivot is one of the pivot |
| `GateElimination.FindGateClauses` | cadical/src/gates.cpp:508-519 | The finders run one after the other keep the formula equivalent and add no clause; equivalences and AND gates are definitions, matched gates exactly if their satisfied clauses are redundant, in particular if none has a true literal; nothing is found only if none of these gates is left |
| `GateElimination.PrepareSubstitution` | cadical/src/gates.cpp:508-519 | Finding and marking leaves an equivalent formula with the same clause names, and the gate flags are what elimination by substitution relies on if and only if a matched gate has only redundant satisfied clauses; whatever the other clauses are, exactly if no clause of a matched gate has a true literal |
| `GateElimination.CleanStays` | cadical/src/gates.cpp:275-302 | If no live clause was satisfied and occurrence lists are complete, none is after the units found by the gate search were propagated |
| `GateElimination.EliminateVariable` | cadical/src/elim.cpp:542-587 | The whole attempt for one variable, flushing, limits, gate search, bound, resolvents, removal and unmarking: what is pushed repairs models if the gate found may be used, in particular if no live clause was satisfied before; without elimination nothing is pushed and models are kept in any case; an eliminated variable is gone, no gate flag is left, and complete occurrence lists stay complete; a variable whose live clauses are within the limits is eliminated unless it or the formula is decided on the way; with substitution wanted and complete lists no gate is left unseen |
| `ElimRound.MarkSatisfied` | cadical/src/elim.cpp:644-657 | Exactly clauses with a true literal become garbage at the start of a round, so that no live clause is satisfied |
| `ElimRound.ConnectOccs` | cadical/src/elim.cpp:695-701 | Connecting the live clauses makes the occurrence lists of all unassigned literals complete |
| `ElimRound.Round` | cadical/src/elim.cpp:644-742 | A round over any schedule: what is pushed repairs models of the formula before it if every gate found may be used, always without substitution; an attempt before which no live clause is satisfied, as the first one, finds only such gates; eliminated variables stay away; each scheduled variable is tried unless it has a value, and then eliminated as `EliminateVariable` says |
| `Blocking.FindClash` | cadical/src/block.cpp:78-117 | Finds a literal clashing with the marked ones exactly if there is one, moves the first such literal to the front, and otherwise restores the order |
| `Blocking.Blocker.IsBlockedClause` | cadical/src/block.cpp:39-143 | True exactly if every resolvent on the literal is a tautology; then the occurrence list is restored, else the first open clause moves to its front; literals of the clauses before it are rotated, nothing else changes |
| `Blocking.ClashFound` | cadical/src/block.cpp:39-143 | The search finds a clash exactly if the resolvent is a tautology |
| `Blocking.Blocker.BlockCandidates` | cadical/src/block.cpp:387-433 | Flushes garbage and collects, in order, exactly the clauses within the size limits with a literal negated in a clause with the negation |
| `Blocking.BlockedIsPlausible` | cadical/src/block.cpp:387-433 | This filter never drops a clause within the size limits that passes the exact test |
| `Blocking.CandidatesComplete` | cadical/src/block.cpp:387-433 | The blocked candidates are exactly the clauses the exact test could remove |
| `Blocking.Blocker.BlockImpossible` | cadical/src/block.cpp:441-476 | Gives up exactly if some negative clause has no literal negated in a candidate, and then no candidate is blocked |
| `Blocking.Blocker.BlockLiteralWithOneNegativeOcc` | cadical/src/block.cpp:269-380 | Removes exactly the clauses within the limits blocked on the literal; what is pushed reconstructs models |
| `Blocking.OneClash` | cadical/src/block.cpp:325-361 | With one resolution partner, marking the partner and searching the candidate is the exact test |
| `Blocking.Blocker.BlockLiteralWithAtLeastTwoNegativeOccs` | cadical/src/block.cpp:482-571 | Unless a negative clause is too large, removes exactly the clauses within the limits blocked on the literal, whatever the filters skip; what is pushed reconstructs models |
| `Blocking.Blocker.BlockPureLiteral` | cadical/src/block.cpp:227-261 | All live clauses with a pure literal go, and what is pushed reconstructs models |
| `Blocking.Blocker.BlockLiteral` | cadical/src/block.cpp:623-663 | Over all cases of one scheduled literal: exactly the blocked clauses within the limits go, all clauses if the literal is pure, none if it is inactive, frozen or occurs too often; what is removed is reconstructed, and other clauses only change the order of their literals |
| `Components.ComponentExact` | cadical/src/decompose.cpp:84-104 | When index and minimum agree, the literals above the entry on the component stack are exactly those mutually reachable with it |
| `Components.ClashAtEntry` | cadical/src/decompose.cpp:112-126 | Looking for the negation of the entry alone suffices: without it no literal of the component meets its negation |
| `Components.SmallestUnique` | cadical/src/decompose.cpp:123 | A component without clash has a unique literal of smallest index |
| `Components.EntryRemoved` | cadical/src/decompose.cpp:128-149 | Popping a component keeps the search invariant and gives every non-frozen member the smallest literal, frozen ones themselves |
| `Tarjan.VisitFramesOk` | cadical/src/decompose.cpp:160-180 | Numbering a literal and pushing its unvisited children keeps the depth-first frames in order although a literal can be stacked twice |
| `Decompose.Decomposer.Step` | cadical/src/decompose.cpp:63-181 | One iteration keeps the invariant and makes progress, or stops on a literal that is equivalent to its negation |
| `Decompose.Decomposer.SearchFrom` | cadical/src/decompose.cpp:56-182 | One search terminates with its root traversed |
| `Decompose.Decomposer.FindComponents` | cadical/src/decompose.cpp:53-184 | Unsatisfiability is declared if and only if some literal is equivalent to its negation; otherwise two non-frozen literals share a representative exactly if they reach each other, it is the smallest of the component, and negations have negated representatives |
| `Substitution.ClashUnsat` | cadical/src/decompose.cpp:117-121 | A literal and its negation in one component refute the formula |
| `Substitution.RepresentativeEquivalent` | cadical/src/decompose.cpp:137-145 | In every model of the formula a literal and its representative agree |
| `Substitution.Substituter.SubstituteClause` | cadical/src/decompose.cpp:227-246 | Under the units the new clause holds exactly if the image of the old one does; it is clean and over representatives |
| `Substitution.Substituter.SubstituteAll` | cadical/src/decompose.cpp:204-297 | After the loop the models of units and clauses are exactly those of the units and the images of all clauses |
| `DecomposeRound.SubstitutionIsValid` | cadical/src/decompose.cpp:197-340 | Substitution followed by any propagation of the found units meets the hypotheses of the reconstruction theorem |
| `DecomposeRound.PushEquivalences` | cadical/src/decompose.cpp:330-340 | Exactly the still active substituted variables are pushed, with both implications |
| `DecomposeRound.Round` | cadical/src/decompose.cpp:24-345 | Unsatisfiable is answered if some literal is equivalent to its negation, and only if the formula is; otherwise no clause contains a literal whose component has another representative, the new formula has the models of the images of all clauses and follows from the old one, exactly the substituted variables that are still unassigned are pushed, with both implications, and this reconstructs models |
| `SearchTrail.Internal.AssignmentLevel` | cadical/src/propagate.cpp:30-45 | The highest level of the other literals of the reason |
| `TrailState.AssignKeeps` | cadical/src/propagate.cpp:49-92 | Assigning keeps the whole trail invariant: positions, control, and for each reason false literals earlier on the trail and on no higher level |
| `SearchTrail.Internal.SearchAssign` | cadical/src/propagate.cpp:49-92 | Values and trail change by exactly one literal, on the level of the reason (its own with chronological backtracking, the root for units) |
| `TrailState.DecideKeeps` | cadical/src/propagate.cpp:110-117 | A decision on a new level keeps the trail invariant |
| `SearchTrail.Internal.SearchAssumeDecision` | cadical/src/propagate.cpp:110-117 | A decision opens one level and is first on it |
| `SearchTrail.Internal.Decide` | cadical/src/decide.cpp:151-211 | Fails exactly on a false assumption or a false constraint and then changes nothing; otherwise one level is opened, a satisfied assumption or constraint as pseudo decision, and the assumption or a literal of the constraint is on the trail |
| `SearchTrail.Internal.SearchAssignDriving` | cadical/src/propagate.cpp:119-122 | The driven literal goes to the end of the trail, on the level of its clause |
| `TrailState.BacktrackKeeps` | cadical/src/backtrack.cpp:72-123 | Backtracking keeps the whole trail invariant although literals on lower levels move down the trail |
| `TrailState.KeepOrder` | cadical/src/backtrack.cpp:72-123 | Kept literals stay in their relative order |
| `SearchTrail.Internal.Compact` | cadical/src/backtrack.cpp:95-112 | The in-place compaction leaves exactly the kept literals, with positions updated and all others unassigned |
| `SearchTrail.Internal.Backtrack` | cadical/src/backtrack.cpp:72-123 | Keeps exactly the literals up to the level in their old order, with their level and reason |
| `ConflictAnalysis.ScanLevels` | cadical/src/analyze.cpp:426-450 | The highest level in the conflict, and a forced literal exactly if only one literal is on it |
| `ConflictAnalysis.FindConflictLevel` | cadical/src/analyze.cpp:419-489 | In addition the literals are only rearranged, with one of the highest level first and one of the next highest second |
| `Analysis.Analyzer.AnalyzeLiteral` | cadical/src/analyze.cpp:231-251 | Marks one literal: clause, open count and seen flags follow its level, and for every level the number of seen literals and their first trail position stay exact |
| `Analysis.Analyzer.AnalyzeReason` | cadical/src/analyze.cpp:253-260 | Marks exactly the literals of a reason other than the implied one |
| `ConflictResolution.ResolveStep` | cadical/src/analyze.cpp:708-726 | One round is a resolution step: collected clause and open literals still follow from the formula |
| `ConflictResolution.UipLoopFound` | cadical/src/analyze.cpp:708-726 | The loop on values: from a conflict it ends with a unique implication point whose negation together with the collected clause is entailed, and an auxiliary one has no reason |
| `TrailState.HasReason` | cadical/src/analyze.cpp:708-726 | While another literal of the level is open below it, an open literal was implied by a clause, so there is a reason to resolve with |
| `ImplicationPoints.DownPath` | cadical/src/analyze.cpp:708-726 | From every literal of the conflict level a path of implications leads back to a literal without reason |
| `ImplicationPoints.OnlyOpenPoint` | cadical/src/analyze.cpp:722 | When one literal is open, every path from the conflict back goes through it |
| `ImplicationPoints.PassedOpen` | cadical/src/analyze.cpp:722 | As long as another literal is open, the current one is avoided by some path |
| `ImplicationPoints.FoundFirst` | cadical/src/analyze.cpp:708-726 | The loop stops at the first implication point, that is, the last on the trail, and collects exactly the literals false below the conflict level in the conflict or in a reason on a path above that point |
| `Analysis.Analyzer.FindUip` | cadical/src/analyze.cpp:708-726 | Both loops terminate without running off the trail, with the first implication point and exactly its clause; the `UIPAUX` loop passes over auxiliary ones that have a reason |
| `Analysis.Analyzer.FirstUip` | cadical/src/analyze.cpp:699-728 | Default build: every path of implications from the conflict back to a literal without reason goes through the literal found, for no later literal of the level this holds, and the clause consists of its negation and the literals false on lower levels in the conflict or a reason above it; it is entailed, false, without duplicates, and has exactly one literal on the conflict level |
| `AuxFreeLearning.CleanUpLoop` | cadical/src/analyze.cpp:730-742 | The clean-up loop terminates and computes the recursive clean-up |
| `AuxFreeLearning.CleanUpAuxFree` | cadical/src/analyze.cpp:730-742 | Whatever was decided, no auxiliary literal is left |
| `AuxFreeLearning.SeenImplied` | cadical/src/analyze.cpp:730-742 | In a model falsifying the cleaned clause all seen literals of lower levels hold: literals already seen need not be added again |
| `AuxFreeLearning.CleanUpLearned` | cadical/src/analyze.cpp:730-742 | If the clean-up drops nothing, the cleaned clause is entailed, free of auxiliary literals, and still has one literal on the conflict level |
| `AuxFreeLearning.Learn` | cadical/src/analyze.cpp:699-742 | `UIPAUX` build as a whole, for every conflict: no later implication point is free of auxiliary variables; the clause is the cleaned one and free of auxiliary literals, and it is entailed and asserting unless a literal was dropped |
| `AuxDropping.SoundExactly` | cadical/src/analyze.cpp:730-742 | The cleaned clause follows from every formula for which the trail is valid and the conflict entailed if and only if the clean-up dropped no literal |
| `AuxDropping.DroppedUnsound` | cadical/src/analyze.cpp:733-737 | After a drop the reasons, root units and conflict together do not entail the cleaned clause |
| `AuxDropping.TrailFormulaWeakest` | cadical/src/analyze.cpp:733-737 | These clauses hold in every model of every formula with this trail and conflict |
| `AuxFreeLearning.NoAuxNoDrop` | cadical/src/analyze.cpp:733-737 | Nothing is dropped if no auxiliary variable is a decision |
| `AuxFreeLearning.AuxDecisionUnsound` | cadical/src/analyze.cpp:733-737 | A concrete valid state and conflict with an auxiliary decision where learning drops a literal and leaves a clause that is not entailed |
| `ConflictAnalysis.NewDrivingClause` | cadical/src/analyze.cpp:370-409 | The asserted literal comes first and the jump level is the level of the second literal, the highest below the conflict level |
| `ConflictAnalysis.BestVariable` | cadical/src/analyze.cpp:519-541 | The first of the best variables on the trail from the jump level on, for any strict weak order |
| `ConflictAnalysis.DetermineActualBacktrackLevel` | cadical/src/analyze.cpp:493-567 | Exactly the jump level without chronological backtracking, below the assumptions, or without trail reuse; one below the current level if always wanted or the jump is too long; with trail reuse exactly the levels that start at or before the best variable are kept |
| `ConflictAnalysis.DeriveClause` | cadical/src/analyze.cpp:699-780 | The clause of the first implication point, minimized if wanted: then nothing more can be shown redundant, unless the depth limit interferes; in the `UIPAUX` build the cleaned clause |
| `ConflictAnalysis.FlipForced` | cadical/src/analyze.cpp:641-660 | A conflict with a single highest literal flips it one level below and keeps the trail valid |
| `ConflictAnalysis.RootConflict` | cadical/src/analyze.cpp:675-682 | A conflict on the root level refutes the formula |
| `ConflictAnalysis.Drive` | cadical/src/analyze.cpp:789-797 | After backtracking the other literals of the clause are still false and its first literal is unassigned, so it can be driven |
| `ConflictAnalysis.LearnAndDrive` | cadical/src/analyze.cpp:699-797 | Unless a literal is dropped: from a conflict to the driven literal of the first implication point, with the learned clause entailed, false before, asserting and within the clause of that point, on the level that the options choose |
| `ConflictAnalysis.Analyze` | cadical/src/analyze.cpp:613-812 | The analysis in both builds and both backtracking modes, from any false clause: the trail stays valid. It flips exactly a literal alone on the highest level, refutes exactly on the root level, and otherwise learns an entailed clause of the first implication point that drives its literal on the chosen level, or stops where the clean-up dropped a literal and the clause does not follow from trail and conflict; that never happens without auxiliary decisions |
| `Minimization.KeepIrrelevant` | cadical/src/minimize.cpp:17-41 | Keeping a literal does not change what can be shown about earlier ones, so cached failures stay right in trail order |
| `Minimization.Minimizer.MinimizeLiteral` | cadical/src/minimize.cpp:17-41 | Recursion with `removable`, `poison` and depth limit terminates; success means the literal follows from the kept ones; unless the depth limit interferes it succeeds exactly if reasons show the literal redundant within the early aborts; the literal of the conflict level is never removed |
| `Minimization.Minimizer.MinimizeSortClause` | cadical/src/minimize.cpp:84-91 | The same clause in the order of the trail |
| `Minimization.MinimizedLearned` | cadical/src/minimize.cpp:65-82 | Removing literals that follow from the kept ones leaves an entailed asserting clause |
| `Minimization.Minimizer.MinimizeClause` | cadical/src/minimize.cpp:65-82 | The result is a part of the clause, still entailed, with the literal of the conflict level; unless the depth limit interferes exactly the literals were removed that reasons show redundant under those left and that have company on their level; all flags are cleared |
| `RadixHeap.Reap.Push` | cadical/src/reap.cpp:34-46 | Adds one word not below the last popped one; every word sits in the bucket of its distance to that one |
| `RadixHeap.FirstIsSmallest` | cadical/src/reap.cpp:55-80 | The smallest word of the first non-empty bucket is the smallest of all |
| `RadixHeap.SpreadPlaced` | cadical/src/reap.cpp:82-108 | After redistributing the lowest bucket around the popped word, every word of every bucket sits where its distance to the new base puts it |
| `RadixHeap.Reap.Redistribute` | cadical/src/reap.cpp:82-108 | The bucket is emptied into lower ones and exactly the popped word leaves |
| `RadixHeap.Reap.Pop` | cadical/src/reap.cpp:48-119 | Returns and removes a minimum of the stored multiset, never below the previous one |
| `RadixHeap.Reap.Clear` | cadical/src/reap.cpp:121-130 | Empties the heap and starts over from zero |
| `RadixSort.Distribute` | cadical/src/radix.hpp:119-124 | One pass moves every element behind those of its bucket before it, in order |
| `RadixSort.PassCorrect` | cadical/src/radix.hpp:103-125 | A pass is stable and extends sortedness by one byte |
| `ByteSort.ByteBetween` | cadical/src/radix.hpp:85-94 | Every byte lies between those of the conjunction and disjunction of all ranks, so buckets outside that range are empty |
| `RadixSort.SkipCorrect` | cadical/src/radix.hpp:77-78 | A byte on which all ranks agree can be skipped |
| `ByteSort.LessAll` | cadical/src/radix.hpp:75-126 | Comparing all bytes from the highest down is comparing the ranks |
| `RadixSort.StablePermutation` | cadical/src/radix.hpp:40-141 | A stable rearrangement is a permutation |
| `RadixSort.RSort` | cadical/src/radix.hpp:40-141 | The array is sorted by rank, stable, and a permutation, for any input, with byte skipping and partial clearing of the counters |
| `Probing.ProbeDominator` | cadical/src/probe.cpp:47-64 | Terminates with the closest common ancestor in the implication tree |
| `Probing.AncestorImplies` | cadical/src/probe.cpp:47-64 | Every ancestor implies its descendants |
| `Probing.DominatorImplies` | cadical/src/probe.cpp:113-159 | If the dominator implies the negation of all other literals, the hyper binary resolvent is entailed |
| `ProbeClauses.HyperKept` | cadical/src/probe.cpp:113-159 | A resolvent contained in its antecedent replaces it, irredundant exactly if the antecedent was: the irredundant clauses and root units lose no consequence |
| `FailedLiterals.ReasonDominator` | cadical/src/probe.cpp:119-142 | The closest common ancestor of all literals falsified above the root |
| `FailedLiterals.Prober.HyperBinaryResolve` | cadical/src/probe.cpp:113-159 | The resolvent of the unit with the closest dominator is entailed; it is stored exactly if wanted and a further literal is above the root, with its redundancy, and the antecedent becomes garbage exactly if the resolvent is contained |
| `FailedLiterals.Prober.ForceUnit` | cadical/src/probe.cpp:292-297 | A long clause that became unit below the probe assigns its last literal with the dominator as parent and keeps tree, clauses and everything propagated so far |
| `FailedLiterals.Prober.ProbePropagate2` | cadical/src/probe.cpp:228-242 | Propagates the whole trail over binary clauses, on both levels, building the implication tree |
| `FailedLiterals.Prober.ProbePropagate` | cadical/src/probe.cpp:244-314 | Terminates on both levels in a conflict, falsified with a literal above the root on level one and refuting the formula on the root level, or with everything propagated |
| `ProbeClauses.ClosedMeans` | cadical/src/probe.cpp:244-314 | With everything propagated every live clause is satisfied or has two literals that are not false |
| `ProbeClauses.JustifiedNext` | cadical/src/probe.cpp:244-314 | A literal assigned when a clause became unit keeps the trail a derivation by unit propagation |
| `FailedLiterals.ConflictDominator` | cadical/src/probe.cpp:333-341 | The closest common dominator of the literals of a conflict above the root is refuted |
| `FailedLiterals.Parents` | cadical/src/probe.cpp:343-350 | Collects exactly the ancestors of the dominator, all refuted with it |
| `FailedLiterals.Prober.FailedLiteral` | cadical/src/probe.cpp:320-381 | Only entailed units are derived; unless the formula is refuted, the closest dominator of the conflict and all its ancestors up to the probe end false on a fully propagated root level |
| `FailedLiterals.Prober.Probe` | cadical/src/probe.cpp:597-604 | Unit propagation of the probe: a consistent trail of root units, probe, and literals each implied by a clause from earlier ones. Without failure every live clause is satisfied by it or has two literals left, and clauses and root trail are as before; with failure a clause is falsified by it, and all ancestors of the closest dominator end false, the probe included, or the formula is refuted |
| `FailedLiterals.Prober.ProbeRound` | cadical/src/probe.cpp:597-604 | Over any schedule of probes the irredundant clauses together with the root units keep exactly their models; unless the formula is refuted each scheduled probe was tried in turn as `Probe` says, or was already assigned |
| `DecisionQueue.DequeueLinked` | cadical/src/queue.hpp:37-41 | Bypassing one variable leaves a doubly linked list of the others in order |
| `DecisionQueue.AppendLinked` | cadical/src/queue.hpp:43-48 | Appending a variable gives a doubly linked list that ends with it |
| `DecisionQueue.VmtfQueue.Dequeue` | cadical/src/queue.hpp:37-41 | The list loses exactly this variable |
| `DecisionQueue.VmtfQueue.Enqueue` | cadical/src/queue.hpp:43-48 | The list gets exactly this variable at its end |
| `DecisionQueue.VmtfQueue.InitEnqueue` | cadical/src/queue.cpp:8-40 | A new variable comes last, stamped above all others, and the search starts there |
| `DecisionQueue.VmtfQueue.BumpQueue` | cadical/src/analyze.cpp:36-46 | Moves a variable to the end with a new highest stamp; the search still starts at or after every unassigned variable |
| `DecisionQueue.VmtfQueue.Unassign` | cadical/src/backtrack.cpp:10-27 | After unassigning, everything behind the search position is still assigned |
| `DecisionQueue.PrependLinked` | cadical/src/decide.cpp:21-28 | Relinking in front of the first variable keeps the list linked |
| `DecisionQueue.VmtfQueue.MoveToFront` | cadical/src/decide.cpp:21-28 | The auxiliary variable moves to the front, stamped below all others |
| `DecisionQueue.SearchedStep` | cadical/src/decide.cpp:16-30 | One step of the search moves an auxiliary variable to the front and leaves another one in place |
| `DecisionQueue.VmtfQueue.NextDecisionVariable` | cadical/src/decide.cpp:12-37 | If some variable is neither assigned nor auxiliary, the search terminates with the last such one and moved only auxiliary variables to the front; without auxiliary variables this is the search of lines 39-50 |
| `ReluctantDoubling.GeneratesLuby` | cadical/src/reluctant.hpp:54 | The bit trick on `u` and `v` generates the recursive Luby sequence |
| `ReluctantDoubling.NextOk` | cadical/src/reluctant.hpp:54 | `v` is always a power of two not above the lowest set bit of `u` |
| `ReluctantDoubling.Reluctant.Enable` | cadical/src/reluctant.hpp:31-38 | Starts the sequence over |
| `ReluctantDoubling.Reluctant.Disable` | cadical/src/reluctant.hpp:40 | Takes period and trigger away, so that by the contract of `Tick` ticks change nothing |
| `ReluctantDoubling.Reluctant.Tick` | cadical/src/reluctant.hpp:48-59 | The trigger is set exactly when the period times the current Luby term ticks were counted; then the sequence starts over if there is a limit and the next term reaches it, and otherwise goes on to that term |
| `ReluctantDoubling.LimitReached` | cadical/src/reluctant.hpp:57 | A limit above half of, and at most, `2^k` is first reached by term `2^(k+1) - 1`, so between two restarts the intervals are the Luby terms before that one |
| `ReluctantDoubling.Reluctant.Triggered` | cadical/src/reluctant.hpp:61-65 | Delivers the trigger once |

## Left out

- Input and output, options, logging, statistics, profiling and termination callbacks; limits that options give are parameters.
- Shrinking, subsumption, vivification, ternary resolution, restoring, local search, covering, lookahead and the solver facade; with `opts.shrink` set the default build shrinks instead of minimizing, which is not modelled.
- `condition.cpp`: how globally blocked clauses are found; what pushing them repairs is `Reconstruction.ConditioningReconstructs`.
- `backward.cpp`: the flag set for a satisfied candidate is not reset between candidates, so what it promises is not settled by the code.
- EVSIDS scores, moving averages, glue, tiers, effort limits and target phases; the variable order in `determine_actual_backtrack_level` is a comparison parameter.
- Watch lists of the search engine in `propagate` and `probe_propagate`; the watch lists of the proof checker are modelled.
- `Reap::init` and `Reap::release` (lines 6-20 of `reap.cpp`): they do not leave all buckets empty as the other methods assume.
- Schedules, occurrence counters and rescheduling of `elim` and `block`; the order in which variables are tried is arbitrary.
- The mapping between external and internal variables; both are identified. Traversals of a solver that is already unsatisfiable return at once, which is not modelled.
- Addresses of clauses in the proof checker are numbers, and the random nonces of its hash are parameters. Deleting from a table that was never allocated is modelled as a missing clause, which is an abort in the source as well.
- DecisionQueue.VmtfQueue.NextDecisionVariable: requires a variable that is neither assigned nor auxiliary; without one the source runs off the queue.
- DecisionQueue.VmtfQueue.InitEnqueue: models the default order, not the reversed one.
- FailedLiterals.Prober.ProbePropagate: visits all clauses with the literal that became false instead of its watch list, so the order among long clauses can differ; blocking literals and saved positions are not modelled.
- FailedLiterals.Prober.ProbeRound: the schedule is a parameter; generating, sorting and flushing probes, `propfixed` and the propagation limit are left out.
- Minimization.Minimizer.MinimizeLiteral: says only that success is sound when the depth limit is below the height of the trail; failures at that limit are cached as well, so later attempts can fail for that reason alone.
- Minimization.Minimizer.MinimizeSortClause: insertion sort in place of the library and radix sorts.
- Gates.FindEquivalence: can miss an equivalence that a unit found on the way brings about in a clause visited before.
- ConflictAnalysis.NewDrivingClause: sorts by level and position with insertion sort in place of the library and radix sorts; the clause is not stored.
- ReluctantDoubling.Reluctant.Tick: words are unbounded; the source wraps around only after 2^64 steps.
- AuxFreeLearning.Learn: says only that the clause is free of auxiliary literals and which one it is when a literal was dropped, for which it can be wrong.
- ConflictAnalysis.Analyze: stops with the outcome `Unsound` where the clean-up dropped a literal; the source goes on with that clause.
- GateElimination.EliminateVariable: leaves out the sorting of the occurrence lists by size, the backward subsumption after added resolvents, and marking the variable as eliminated.
- ElimRound.Round: the schedule is a parameter that may repeat variables; resolution limits and garbage collection between attempts are left out, as is the restriction to auxiliary variables of some builds.
- WitnessTraversal.TraverseWitnessesBackward: the callback is a pure predicate.
- WitnessTraversal.TraverseWitnessesForward: the same.
- Extension.External.Extend: starts from the external values; copying them from the internal assignment before is left out.
- DecomposeRound.Round: propagation of the units found by substitution is not part of the method; `SubstitutionIsValid` covers every later set of fixed literals.
- Blocking.Blocker.BlockLiteral: the number of occurrences is a parameter that equals the length of the flushed list, and the pure literal is not recorded as pure.
- Memory layout, arenas, copying of clauses and their deallocation by the solver.
