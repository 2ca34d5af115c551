# Verified model of the CaDiCaL core

This project models the hard parts of the SAT solver vendored under `cadical/` and proves them in Dafny: the Craig
interpolation tracer, the online DRUP checker, the formula-changing simplifications with the reconstruction of models,
conflict analysis with chronological backtracking, the VMTF decision queue, and the heap and the moving garbage
collector below them. `dafny verify dfyconfig.toml` checks everything.

Code that updates objects in place is a class whose methods are proved against specification functions and
predicates; the laws of those are lemmas. Assignments are sets of true variables, literals are non-zero integers, and
clauses are sequences of literals.

## The main results

- **Interpolation** (`AndInverterGraph`, `Interpolation`, `ProofLedger`, `CraigCnf`, `CraigTracer`). `Tracer.Valid` holds
  between any two calls, whatever sequence of labelled original clauses, derived clauses, assumption clauses,
  constraints, deletions and resets was made. It says that every stored entry is a partial interpolant of its clause in
  each of the four systems. `ConcludeUnsat` turns this into the interpolant property for a conflict and for failed
  assumptions, and `CreateCraigInterpolant` carries it to the emitted clauses, for single, smallest, largest, union and
  intersection answers. The invariant is proved with the sides as the code has them: a global assumption counts on the
  B side for symmetric, asymmetric and dual symmetric, and on the A side for dual asymmetric, so the joint answers are
  interpolants with global assumptions on both sides.
- **Constraints** (`Tracer.ConcludeConstraint`). The entry of a single assumption stores the negation of the literal it
  stands for (`cadical/contrib/craigtracer.cpp:476-483`), so the backward pass does not resolve it away. For every chain
  that the solver sends, exactly the literals whose negations were decided are left of the constraint (`ConstraintLeft`).
  With global assumptions on both sides such literals are always harmless (`BothDischarged`), so every failed constraint
  yields an interpolant in every enabled system and in the joint answers. With a global assumption on the one side where a
  system counts it, a literal whose negation is assumed may be dropped if and only if its variable is not global or the
  system is asymmetric or dual asymmetric (`DischargedExactly`); `SingleAssumptionRun` is a run where the symmetric and
  dual symmetric edges do not separate in that sense.
- **Checker** (`UnitPropagation`, `Watches`, `Simplify`, `HashTable`, `OnlineChecker`). `Checker.Valid` says that
  everything on the trail and in the clauses follows from the originals, that the watch structure is intact, that every
  live clause is settled, and that every clause sits in the bucket of its reduced hash. From it `AddDerivedClause` is
  sound (accepted clauses are implied) and complete (every clause with a naive unit refutation over live clauses and
  units is accepted), across additions, deletions, collections and enlarged tables, although watches of deleted binary
  clauses may still propagate.
- **Reconstruction** (`Extension`, `Reconstruction`, `Database`). A step from one formula to another with some pushed
  entries is `Sound` if it loses no model and the backward walk repairs every model of the result. `RunReconstructs`
  composes any run of such steps, and `Extend` is the walk over the flat integers. Variable elimination
  (`TryToEliminate`, `EliminateRound`), blocked clauses (`BlockClause`, `BlockWithOneNegative`), substitution of
  equivalent literals (`DecomposeRound`) and conditional autarkies (`ConditionRound`) each end in `Sound`, from the
  in-place code and with root-level units present. Unless a limit stops it, conditioning also keeps only candidates that
  the autarky does not block.
- **Gates** (`Gates`, `GateSearch`, `VariableElimination`). What the code recognises as an if-then-else or XOR gate
  defines the pivot if and only if none of its clauses is satisfied at the root: `get_ternary_clause` and `is_clause`
  skip true literals. An attempt to eliminate a variable is therefore sound if no clause of the gate it found is
  satisfied, in particular if no live clause on the variable is satisfied when it starts. Satisfied live clauses do not
  appear unless a unit is assigned while resolvents are added, because such units are not propagated
  (`cadical/src/elim.cpp:405-412,580`). `UncleanGateUnsound` follows one run: from a clean formula without model,
  eliminating a first variable leaves a satisfied clause, the next attempt takes it for part of a gate, and the result
  has a model. A search that ends with neither a gate nor a unit shows that none of the four kinds is there, for
  if-then-else gates with the condition where the code looks for it.
- **Components** (`Tarjan`, `Decompose`). The iterative search computes exact strongly connected components,
  representatives commute with negation and agree with their literals in every model, and both phases in one component
  refute the formula.
- **Analysis** (`Trail`, `Analyze`, `ConflictWatches`). `AnalyzeConflict` ends with a clause implied by the formula that is
  unit after backtracking, for every choice between back-jumping and chronological backtracking: the first-UIP clause, the
  level that the options choose for it, and its literal on exactly the level where it belongs. `Backtrack` keeps exactly
  the literals of low level, in order, on trails with out-of-order literals.
- **Decision queue** (`Vmtf`). The search returns the unassigned variable with the largest stamp. In the reverse order
  new variables are put in front; then the search invariant survives exactly if the new stamp is not later than the
  recorded one, and `ReverseMisses` is a run where it is later and the search returns the wrong variable.
- **Data structures** (`Heap`, `Collect`, `Block`). Heap order with inverse positions; the collector as an isomorphism
  from old to new references that clause list, occurrence lists, watches and reasons all follow, that fills exactly the
  prepared bytes, and that leaves the clause list in order of address if sorting is on; and the in-place move-to-front
  schemes of the blocked clause test.

## Model

| member | source | states |
|---|---|---|
| `AndInverterGraph.Aig.CreateVar` | cadical/contrib/craigtracer.cpp:116-128 | the edge denotes the variable; old edges keep their functions; a variable gets one node only (hash map and nodes stay in bijection) |
| `AndInverterGraph.Aig.CreateLiteral` | cadical/contrib/craigtracer.cpp:130-133 | the edge denotes the literal, in either sign |
| `AndInverterGraph.Aig.CreateAnd` | cadical/contrib/craigtracer.cpp:135-161 | for every assignment the edge is the conjunction of its two arguments, whichever simplification applies; children of a new node are non-constant and strictly older, and no pair of children has two nodes |
| `AndInverterGraph.Aig.CombinePairs` | cadical/contrib/craigtracer.cpp:165-183 | one level of the tree reduction is shorter and has the same conjunction, with an odd edge kept |
| `AndInverterGraph.Aig.CreateAndAll` | cadical/contrib/craigtracer.cpp:163-184 | the tree reduction denotes the conjunction of all edges, true for none |
| `AndInverterGraph.Aig.CreateOr` | cadical/contrib/craigtracer.cpp:186-188 | the edge is the disjunction of its two arguments |
| `AndInverterGraph.Aig.CreateOrAll` | cadical/contrib/craigtracer.cpp:190-194 | the edge is the disjunction of all edges, false for none |
| `AndInverterGraph.Aig.IndexVariables` | cadical/contrib/craigtracer.cpp:217-224 | exactly the variable nodes are indexed, each by its variable |
| `AndInverterGraph.Aig.NumberCone` | cadical/contrib/craigtracer.cpp:226-268 | the worklist ends, numbers the root after its whole cone, and the clauses say exactly that each fresh variable has the value of its node |
| `AndInverterGraph.Aig.CreateCnf` | cadical/contrib/craigtracer.cpp:196-275 | for every graph and root: the definition clauses are satisfied by exactly one choice of the fresh variables for every assignment below them, the whole clause form by none or that one according to the value of the root, and it mentions nothing but graph variables and the fresh range; only the constant edges give constant forms |
| `AndInverterGraph.EvalPrefix` | cadical/contrib/craigtracer.cpp:135-161 | growing the node vector never changes the function of an edge |
| `AndInverterGraph.EvalSupport` | cadical/contrib/craigtracer.cpp:116-184 | the function of an edge depends on the variables at the leaves only |
| `AndInverterGraph.DefineNode` | cadical/contrib/craigtracer.cpp:250-267 | with both children numbered, the three clauses of an AND node define one more variable |
| `Definitions.UniqueCompletion` | cadical/contrib/craigtracer.cpp:196-275 | every assignment below the first fresh variable has exactly one completion that satisfies the definition clauses |
| `Definitions.Projection` | cadical/contrib/craigtracer.cpp:196-275 | quantifying the fresh variables away leaves exactly the represented function, also for the two constant forms |
| `Definitions.NegatedRoot` | cadical/contrib/craigtracer.cpp:819-831 | negating the literal of the last unit clause, or swapping the constants, represents the complement |
| `Interpolation.ResolvePartial` | cadical/contrib/craigtracer.cpp:673-742 | for each of the four systems the invariant (A side and negated A part of the clause imply the partial interpolant; B side, negated B part and the partial interpolant are inconsistent) is kept by resolution on a pivot of any label, even if the pivot is missing from a parent |
| `Interpolation.OriginalPartial` | cadical/contrib/craigtracer.cpp:616-671 | the value an original clause starts with satisfies the invariant of each system, if the clause respects its label |
| `Interpolation.AssumptionPartial` | cadical/contrib/craigtracer.cpp:589-614 | the value an assumed literal starts with satisfies the invariant, with the literal counted on the side of its label |
| `Interpolation.WeakenPartial` | cadical/contrib/craigtracer.cpp:420-457 | a partial interpolant of a clause is one of every larger clause |
| `Interpolation.EmptyPartial` | cadical/contrib/craigtracer.cpp:533-556 | for the empty clause the invariant says precisely that the interpolant is implied by A and inconsistent with B (after negation, for dual symmetric) |
| `Interpolation.WholePass` | cadical/contrib/craigtracer.cpp:429-449 | the state after any number of antecedents of the backward pass: what is marked, what is left of the running clause, and which antecedents were used |
| `Interpolation.BackwardPass` | cadical/contrib/craigtracer.cpp:429-449 | over every strictly unit-propagating chain: every resolution is on the literal its antecedent propagated, an antecedent is resolved if and only if its literal is negated in a later one, no pivot is resolved twice (unless a clause repeats its literal), and only literals of the derived clause are left |
| `ProofLedger.SoundOriginal` | cadical/contrib/craigtracer.cpp:392-418 | an original clause with the starting edge is sound in the problem that contains it |
| `ProofLedger.SoundAssumption` | cadical/contrib/craigtracer.cpp:589-614 | an assumed literal with the starting edge is sound as a unit clause |
| `ProofLedger.SoundResolve` | cadical/contrib/craigtracer.cpp:673-742 | edges combined by the rule of the pivot are sound for the resolvent, over all assignments |
| `ProofLedger.SoundEmpty` | cadical/contrib/craigtracer.cpp:533-556 | a sound edge of the empty clause separates the two sides |
| `ProofLedger.SoundExtends` | cadical/contrib/craigtracer.cpp:392-418 | later original clauses, labels and assumptions leave sound entries sound |
| `ProofLedger.AllSoundResolve` | cadical/contrib/craigtracer.cpp:673-742 | one resolution keeps all enabled systems sound at once, and keeps dual symmetric the negation of symmetric |
| `ProofLedger.TableReset` | cadical/contrib/craigtracer.cpp:524-531 | dropping the assumptions ends exactly the entries that rest on them; all others stay sound without assumptions |
| `CraigCnf.RootsMean` | cadical/contrib/craigtracer.cpp:869-941 | under the joined definitions the root literal of every part has the value of its function |
| `CraigCnf.TriggerDone` | cadical/contrib/craigtracer.cpp:869-941 | definitions, trigger pairs and trigger clause represent the conjunction (UNION) or disjunction (INTERSECTION) of the parts |
| `CraigCnf.AddTrigger` | cadical/contrib/craigtracer.cpp:883-941 | appending the parts with a trigger yields a clause form of the conjunction or disjunction over one fresh range |
| `CraigCnf.JoinParts` | cadical/contrib/craigtracer.cpp:869-941 | for every list of parts, constants included, the joined clause form projects to the conjunction (UNION) or disjunction (INTERSECTION) of their functions; it is a constant exactly if a part decides it or all parts are the other constant |
| `CraigTracer.ResolveSymmetric` | cadical/contrib/craigtracer.cpp:679-697 | the new edge is the symmetric combination of the two edges for the label of the pivot, over global variables only |
| `CraigTracer.ResolveAsymmetric` | cadical/contrib/craigtracer.cpp:698-708 | the same for asymmetric; the pivot never enters |
| `CraigTracer.ResolveDualSymmetric` | cadical/contrib/craigtracer.cpp:709-727 | the same for dual symmetric |
| `CraigTracer.ResolveDualAsymmetric` | cadical/contrib/craigtracer.cpp:728-741 | the same for dual asymmetric; the pivot never enters |
| `CraigTracer.Tracer.ExtendInterpolant` | cadical/contrib/craigtracer.cpp:673-742 | all enabled systems take the step of the pivot, disabled ones keep their edge |
| `CraigTracer.Tracer.MarkOne` | cadical/contrib/craigtracer.cpp:975-985 | the two-bit table represents one more literal, and the answer says whether its negation was marked before |
| `CraigTracer.Tracer.UnmarkAll` | cadical/contrib/craigtracer.cpp:987-992 | every mark is zero again and the history empty, whatever was marked |
| `CraigTracer.Tracer.ScanAntecedent` | cadical/contrib/craigtracer.cpp:441-449 | scanning an antecedent takes exactly the resolution steps its marked negations call for, and keeps the running edges sound |
| `CraigTracer.Tracer.RunChain` | cadical/contrib/craigtracer.cpp:429-450 | for any chain of live antecedents the pass yields edges sound for the clause it computes, and leaves no mark |
| `CraigTracer.Tracer.LabelVariable` | cadical/contrib/craigtracer.cpp:376-381 | labels change at the given variable only; every stored entry stays sound, unless a variable that something uses gets another label |
| `CraigTracer.Tracer.LabelClause` | cadical/contrib/craigtracer.cpp:383-386 | the clause label is recorded and nothing else changes |
| `CraigTracer.Tracer.InterpolantForClause` | cadical/contrib/craigtracer.cpp:616-671 | each enabled system gets the starting value of the clause for its label |
| `CraigTracer.Tracer.AddOriginalClause` | cadical/contrib/craigtracer.cpp:392-418 | the next clause label is taken and the clause joins the side of that label, so the sides are exactly the originals so far by the labels they had when added; a restored clause gets its literals back and takes no label; all entries are sound in the grown problem |
| `CraigTracer.Tracer.AddDerivedClause` | cadical/contrib/craigtracer.cpp:420-457 | a clause with a unit-propagating chain of live antecedents gets edges that are sound for it; everything stored before stays as it was |
| `CraigTracer.Tracer.InterpolantForAssumption` | cadical/contrib/craigtracer.cpp:589-614 | the edges have the constant values each system gives an assumption of that label |
| `CraigTracer.Tracer.ResolveAssumptions` | cadical/contrib/craigtracer.cpp:487-500 | resolving away the assumptions that the clause negates is sound for what remains of it |
| `CraigTracer.Tracer.AddAssumptionClause` | cadical/contrib/craigtracer.cpp:459-507 | the clause of failed assumptions is stored with edges sound under the current assumptions, from a chain or from two opposite assumptions; with a single assumption the edges are those of the assumed literal and the stored literal is its negation |
| `CraigTracer.Tracer.DeleteClause` | cadical/contrib/craigtracer.cpp:509-516 | deletion empties the stored literals; the entry stays sound |
| `CraigTracer.Tracer.AddAssumption` | cadical/contrib/craigtracer.cpp:518 | the literal joins the assumptions and every entry stays sound |
| `CraigTracer.Tracer.ResetAssumptions` | cadical/contrib/craigtracer.cpp:524-531 | no assumption and no clause resting on one is left; other clauses are untouched |
| `CraigTracer.Tracer.ConcludeUnsat` | cadical/contrib/craigtracer.cpp:533-556 | whatever calls came before: in each enabled system the final edge is implied by the A side and inconsistent with the B side, with the assumptions on their sides, and dual symmetric is the negation of symmetric |
| `CraigTracer.Tracer.LabelConstraint` | cadical/contrib/craigtracer.cpp:388-390 | the label of the constraint is recorded and nothing else changes |
| `CraigTracer.Tracer.AddConstraint` | cadical/contrib/craigtracer.cpp:520-522 | the constraint is recorded and every entry stays sound |
| `CraigTracer.RelabelledUnsound` | cadical/contrib/craigtracer.cpp:376-381 | another label for a used variable can turn a stored edge into one that is no partial interpolant |
| `CraigTracer.Tracer.ConcludeConstraint` | cadical/contrib/craigtracer.cpp:557-581 | for every failed constraint: each enabled system interpolates if the negations of all literals that the pass leaves of the constraint are assumed, which holds for every chain the solver sends; one system also separates with global assumptions on one side only if it discharges what is left |
| `CraigTracer.BothDischarged` | cadical/contrib/craigtracer.cpp:557-581 | with every assumption on both sides that can see it, a sound edge of literals whose negations are assumed interpolates, in all four systems |
| `CraigTracer.ConstraintResolved` | cadical/contrib/craigtracer.cpp:564-579 | exactly the literals without an entry that stores their negation are left, whatever mixture of entries is sent, if no other stored literal clashes |
| `CraigTracer.ConstraintLeft` | cadical/src/assume.cpp:391-445 | of a constraint failed by decided assumptions, exactly the literals whose negations were decided themselves are left |
| `CraigTracer.FailedAssumed` | cadical/src/assume.cpp:391-445 | hence the negations of all literals left are assumed, for every failed constraint |
| `CraigTracer.SingleAssumptionLeft` | cadical/contrib/craigtracer.cpp:476-483 | the entry of a single assumption stores the literal of the constraint itself, so no step is taken; an entry with its negation would resolve it |
| `CraigTracer.SingleAssumptionRun` | cadical/contrib/craigtracer.cpp:459-581 | a whole run from an empty tracer in which the two symmetric systems do not separate with the global assumption on one side, while all four interpolate with it on both |
| `ProofLedger.DischargedExactly` | cadical/contrib/craigtracer.cpp:589-614 | dropping a literal whose negation is assumed separates for every problem and every sound edge if and only if its variable is not global or the system is asymmetric or dual asymmetric |
| `ProofLedger.GlobalLost` | cadical/contrib/craigtracer.cpp:616-671 | in the two symmetric systems the starting edge of a clause that falsifies a global assumption is sound and does not separate |
| `ProofLedger.SoundDischarged` | cadical/contrib/craigtracer.cpp:557-581 | literals whose negations are assumed on every side that uses them may be dropped without touching the edge |
| `CraigTracer.Tracer.BuildParts` | cadical/contrib/craigtracer.cpp:802-831 | the clause forms of exactly the wanted systems over adjacent fresh ranges, each representing what its system offers, dual symmetric inverted at the root |
| `CraigTracer.Tracer.OfferedInterpolates` | cadical/contrib/craigtracer.cpp:802-831 | every enabled system offers an interpolant with global assumptions on both sides, if the negations of what is left are assumed; after a conflict or failed assumptions nothing is left |
| `CraigTracer.Tracer.OfferedSeparates` | cadical/contrib/craigtracer.cpp:802-831 | every enabled system that discharges what is left separates, with global assumptions on the side where it counts them |
| `CraigTracer.Tracer.AnswerInterpolates` | cadical/contrib/craigtracer.cpp:833-968 | single, smallest, largest, union and intersection answers over all enabled systems are interpolants |
| `CraigTracer.Tracer.CreateCraigInterpolant` | cadical/contrib/craigtracer.cpp:744-968 | the emitted clauses use global and fresh variables only; after a conflict, failed assumptions or a failed constraint every model of the A side extends to a model of the clauses, and no model of them satisfies the B side; a constant answer has its fixed form and function, any other ends in a unit whose literal is equivalent to the interpolant under the clauses before it; the answer is the join for two or more systems, or the first form of least (greatest) size, over the systems in their fixed order, and the next free variable is exact; nothing is emitted if and only if nothing was concluded or no wanted system is enabled |
| `CraigTracer.EmittedSeparates` | cadical/contrib/craigtracer.cpp:744-968 | clauses that project to an interpolant separate the two sides |
| `CraigTracer.PickPart` | cadical/contrib/craigtracer.cpp:942-963 | the first clause form of least (or greatest) number of clauses |
| `UnitPropagation.QuietContains` | cadical/src/checker.cpp:382-455 | below an assignment under which no clause is falsified or unit, every naive unit derivation stays inside it |
| `UnitPropagation.QuietIrrefutable` | cadical/src/checker.cpp:382-455 | no naive unit refutation exists below such an assignment |
| `Watches.PropagatedSettled` | cadical/src/checker.cpp:382-441 | once the whole trail is propagated every live clause has a true blocking literal or unfalsified watches |
| `Watches.SettledQuiet` | cadical/src/checker.cpp:382-441 | a settled clause is neither falsified nor unit |
| `Watches.MoveStructure` | cadical/src/checker.cpp:428-431 | moving a watch to another literal keeps every live clause listed once under each of its two watches |
| `Simplify.Tautological` | cadical/src/checker.cpp:267-287 | redundant exactly if satisfied by the trail or with two opposite literals; otherwise the same literals, each variable once |
| `OnlineChecker.Checker.VisitBinary` | cadical/src/checker.cpp:400-404 | a binary watch, garbage or not, only assigns consequences or finds a contradiction |
| `OnlineChecker.Checker.VisitLarge` | cadical/src/checker.cpp:405-436 | a watch of a longer clause is replaced, propagates or refutes, and the watch structure stays intact |
| `OnlineChecker.Checker.Rewatch` | cadical/src/checker.cpp:421-435 | the clause gets another watch, forces its other literal, or is falsified |
| `OnlineChecker.Checker.VisitAll` | cadical/src/checker.cpp:389-440 | compacting the list of a literal keeps all watches that are still needed, also after an early stop |
| `OnlineChecker.Checker.PropagateLiteral` | cadical/src/checker.cpp:384-441 | after one literal of the trail no live clause waits for it |
| `OnlineChecker.Checker.Propagate` | cadical/src/checker.cpp:382-443 | true: every live clause is settled under the trail; false: the originals and the assumptions are contradictory; in both cases the trail holds consequences only |
| `OnlineChecker.Checker.Backtrack` | cadical/src/checker.cpp:360-380 | the trail is cut at the position and values agree with it |
| `OnlineChecker.Checker.AssumeNegation` | cadical/src/checker.cpp:450-451 | every literal of the clause is false afterwards |
| `OnlineChecker.Checker.Check` | cadical/src/checker.cpp:445-455 | sound and complete: an accepted clause is implied by the originals, and whatever naive unit propagation over the live clauses and units refutes is accepted; the state is as before up to the order of literals |
| `OnlineChecker.Checker.FindUnit` | cadical/src/checker.cpp:464-475 | tells apart no, exactly one and at least two unfalsified literals |
| `OnlineChecker.Checker.SelectWatches` | cadical/src/checker.cpp:51-66 | the same literals with two unassigned ones in front |
| `OnlineChecker.Checker.InsertClause` | cadical/src/checker.cpp:38-71 | one more live clause with these literals, in the bucket of its hash, and a settled checker |
| `OnlineChecker.Checker.AddClause` | cadical/src/checker.cpp:459-494 | the clause is stored or satisfied by the trail unless the checker became inconsistent; no stored clause is lost |
| `OnlineChecker.Checker.AddOriginalClause` | cadical/src/checker.cpp:496-513 | the originals grow by the clause; the invariant holds for the larger set; the clause becomes the one new entry under its hash, or there is none and it is satisfied or tautological |
| `OnlineChecker.Checker.AddDerivedClause` | cadical/src/checker.cpp:515-541 | in every run: an accepted clause is implied by the originals so far, a clause with a naive unit refutation over the live clauses is accepted and becomes the one new entry unless it is redundant, a rejected one changes nothing |
| `OnlineChecker.Checker.Find` | cadical/src/checker.cpp:308-330 | searching only the chain of the reduced hash finds the first live clause with the hash and exactly these literals, or there is none in the whole table |
| `OnlineChecker.Checker.MarkGarbage` | cadical/src/checker.cpp:553-562 | exactly one clause dies and leaves its chain; everything else and the invariant stay |
| `OnlineChecker.Checker.DeleteClause` | cadical/src/checker.cpp:543-579 | succeeds exactly if the checker is inconsistent, the clause redundant or stored; then one matching clause is removed, with the satisfied ones if garbage is collected, and no other |
| `OnlineChecker.Checker.ClauseSatisfied` | cadical/src/checker.cpp:106-117 | whether the permanent trail satisfies the clause |
| `HashTable.Enlarge` | cadical/src/checker.cpp:85-104 | the table is doubled and every live clause is again in the bucket of its reduced hash, once |
| `HashTable.PushedOk` | cadical/src/checker.cpp:332-340 | inserting puts the clause into its bucket and keeps all others right |
| `HashTable.DroppedOk` | cadical/src/checker.cpp:552-562 | removing an entry from a chain keeps all buckets right |
| `OnlineChecker.Checker.CollectGarbage` | cadical/src/checker.cpp:119-166 | a clause survives if and only if it was live and not satisfied; no watch of a dead clause is left; the invariant, and with it completeness, survives |
| `OnlineChecker.Checker.AddAssumptionClause` | cadical/src/checker.cpp:581-587 | checked like a derived clause and forgotten: everything present before is present afterwards, no clause is stored more often than before under any hash, and without a collection every clause exactly as often |
| `OnlineChecker.ForgottenStored` | cadical/src/checker.cpp:581-587 | adding a clause and removing one with the same literals loses nothing that was stored |
| `Extension.External.PushClause` | cadical/src/extend.cpp:47-61 | one more entry with a single witness, laid out with its zeros and identifier words |
| `Extension.External.PushBinary` | cadical/src/extend.cpp:63-75 | the hand-written binary layout is that of an entry with its first literal as witness |
| `Extension.External.PushClauseWithWitness` | cadical/src/condition.cpp:787-793 | one more entry with a whole cube as witness |
| `Extension.External.ReadClause` | cadical/src/extend.cpp:149-168 | reading backward stops before the clause and tells whether it is satisfied |
| `Extension.External.FlipWitness` | cadical/src/extend.cpp:172-190 | all witness literals are true afterwards and nothing else changed |
| `Extension.External.SkipWitness` | cadical/src/extend.cpp:169-171 | a satisfied clause leaves the values alone and the position before its witness |
| `Extension.External.Extend` | cadical/src/extend.cpp:114-197 | the backward walk over the flat integers computes the repair of all entries, last one first, for every stack and every assignment |
| `Extension.RepairConcat` | cadical/src/extend.cpp:114-197 | walking two stacks one on the other is walking the upper and then the lower |
| `Extension.RepairStrip` | cadical/src/extend.cpp:10-16 | identifier words do not influence the walk |
| `Reconstruction.SoundEquisatisfiable` | cadical/src/extend.cpp:114-197 | a sound step keeps satisfiability both ways |
| `Reconstruction.SoundTrans` | cadical/src/extend.cpp:114-197 | sound steps compose, with their entries stacked |
| `Reconstruction.RunReconstructs` | cadical/src/extend.cpp:114-197 | for every run of sound steps of any kind, the walk turns every model of the remaining formula into a model of the first, and both are satisfiable or neither is |
| `Reconstruction.ExtendModel` | cadical/src/extend.cpp:114-197 | after any such run the walk in memory ends in a model of the original formula |
| `Reconstruction.RepairBoth` | cadical/src/elim.cpp:601-650 | walking the entries of both phases sets the pivot so that no entry clause needs the other phase |
| `Reconstruction.EliminationSound` | cadical/src/elim.cpp:547-658 | with all resolvents present, or only gate against non-gate ones and a gate that defines the pivot, dropping the pivot clauses and pushing the gate clauses is sound |
| `Reconstruction.RemovalSound` | cadical/src/extend.cpp:47-61 | dropping a clause with a witness that repairs every falsified model is sound |
| `Reconstruction.BlockedSound` | cadical/src/block.cpp:43-145 | dropping a blocked clause with its blocking literal as witness is sound |
| `Reconstruction.GloballyBlockedSound` | cadical/src/condition.cpp:756-801 | dropping a globally blocked clause with the autarky as witness is sound |
| `Reconstruction.RepairSubstitution` | cadical/src/decompose.cpp:444-495 | replaying the two binaries of each equivalence gives each substituted variable the value of its representative and changes no other |
| `Reconstruction.ReplacedValue` | cadical/src/decompose.cpp:444-495 | after the walk a literal has the value its replacement had before |
| `Reconstruction.SubstitutionSound` | cadical/src/decompose.cpp:444-593 | replacing literals by equivalent ones and pushing the binaries is sound |
| `Database.ContentsModels` | cadical/src/elim.cpp:142-199 | an assignment satisfies the formula of a clause database exactly if it agrees with the units and satisfies every live clause |
| `Database.RemovalHere` | cadical/src/extend.cpp:47-61 | a clause may be dropped at one position even if it occurs at another |
| `Database.PropagatedModels` | cadical/src/elim.cpp:142-199 | root-level propagation neither loses nor adds a model |
| `Database.RestBack` | cadical/src/elim.cpp:264-462 | what was learnt while resolving keeps the clauses off the pivot as strong as before |
| `Database.ReplacedEvolves` | cadical/src/elim.cpp:209-230 | strengthening a clause by a resolvent never weakens the rest of the formula |
| `EliminationState.Eliminator.ScanClause` | cadical/src/elim.cpp:155-168 | satisfied, falsified, unit or several, exactly by the literals without value |
| `EliminationState.Eliminator.VisitFalsified` | cadical/src/elim.cpp:152-187 | removes satisfied clauses and assigns implied units only |
| `EliminationState.Eliminator.PropagateLiteral` | cadical/src/elim.cpp:148-197 | one literal of the work list is propagated: clauses it satisfies are gone and clauses it touches are open or wait for a literal still on the list |
| `EliminationState.Eliminator.ElimPropagate` | cadical/src/elim.cpp:142-199 | every model is kept, and unless the formula is refuted no live clause has a literal that became true, and every live clause with a literal that became false has two open literals |
| `EliminationState.Eliminator.NewClause` | cadical/src/elim.cpp:90-105 | the clause is added and listed under its literals, and only there |
| `Gates.EquivalenceDefines` | cadical/src/gates.cpp:201-315 | two binary clauses of an equivalence define the pivot |
| `Gates.AndDefines` | cadical/src/gates.cpp:323-445 | base clause and binary sides define the pivot |
| `Gates.IteDefines` | cadical/src/gates.cpp:504-574 | the four recognised clauses define the pivot if and only if none of them is satisfied at the root |
| `Gates.XorDefines` | cadical/src/gates.cpp:628-722 | the recognised clauses of any arity define each of their variables if and only if none of them is satisfied at the root |
| `Gates.Undefined` | cadical/src/gates.cpp:458-460 | clauses that a cube off the pivot satisfies do not define it |
| `Elimination.MarkFirst` | cadical/src/elim.cpp:289-317 | the marks are the open literals of the clause without the pivot, unless it is satisfied |
| `Elimination.ScanSecond` | cadical/src/elim.cpp:329-363 | satisfied, clashing, or the union with the open literals of the second clause |
| `Elimination.Resolve` | cadical/src/elim.cpp:283-391 | the outcome is the right one of satisfied, tautological and the resolvent, and no mark stays |
| `Elimination.SelfSubsume` | cadical/src/elim.cpp:209-230 | the strengthened clause replaces the clause; occurrence lists of the pivot are not touched |
| `Elimination.HandleResolvent` | cadical/src/elim.cpp:393-462 | exactly one effect for each kind of resolvent: the empty one refutes, a unit is assigned (and propagated if asked to), a subsumed antecedent is replaced, and a proper one is handed back; the rest of the formula stays as strong |
| `Elimination.ResolveClauses` | cadical/src/elim.cpp:264-462 | the same for any two clauses on the pivot, in either order with the shorter one first: satisfied antecedents go, tautologies do nothing, a resolvent that is handed back has exactly the open literals, and otherwise the pair never has to be resolved again; no satisfied clause stays unless a unit was assigned without propagation |
| `Elimination.ResolventsAreBounded` | cadical/src/elim.cpp:473-542 | a positive answer leaves the pivot without value and the formula unrefuted; all pairs that still have to be resolved were counted, at most positive plus negative occurrences plus bound, and none of their resolvents exceeds the size limit; after a negative answer the pivot has a value, the formula is refuted, or different pairs that had to be resolved exceed the number or the size allowed; the rest of the formula stays as strong |
| `Elimination.AddResolvents` | cadical/src/elim.cpp:547-592 | afterwards the resolvents of all required pairs of live clauses are implied off the pivot, and no more clauses were added than pairs had to be resolved |
| `Elimination.AddedWithin` | cadical/src/elim.cpp:473-592 | no more clauses are added than pairs were counted |
| `Elimination.RemovePhase` | cadical/src/elim.cpp:601-650 | all clauses of a phase are garbage, and pushed are all live ones or, with a gate, those of the gate |
| `Elimination.RemoveBothPhases` | cadical/src/elim.cpp:601-658 | the entries are those of the elimination argument, positive phase first |
| `Elimination.RemovalOfPivotSound` | cadical/src/elim.cpp:547-658 | with the required resolvents there and a defining gate, the removal is sound |
| `Elimination.EliminatePivot` | cadical/src/elim.cpp:547-658 | sound as a whole from the state in which the gate was found if the gate defines the pivot; no live clause mentions the pivot |
| `GateSearch.SecondLiteral` | cadical/src/gates.cpp:20-53 | the other open literal of a clause that is binary up to root-level literals, or zero |
| `GateSearch.MarkBinaryLiterals` | cadical/src/gates.cpp:106-185 | the marks are exactly the partners of the literal in binary clauses; duplicates go, and a clash makes the literal a unit that all models satisfy |
| `GateSearch.UnmarkBinaryLiterals` | cadical/src/gates.cpp:189-194 | no mark is left |
| `GateSearch.FindEquivalence` | cadical/src/gates.cpp:201-315 | no model is lost or added, and a gate that is found defines the pivot exactly if none of its clauses is satisfied; if neither a gate nor a unit is found, no two live clauses form an equivalence |
| `GateSearch.FindAndGate` | cadical/src/gates.cpp:323-445 | the same for AND gates of any arity; if nothing is found and the pivot has no value, every possible base clause lacks a side clause; all marks are removed |
| `GateSearch.GetTernary` | cadical/src/gates.cpp:451-471 | succeeds exactly for live clauses with three open literals |
| `GateSearch.MatchTernary` | cadical/src/gates.cpp:475-487 | exactly whether the open literals are the three given ones |
| `GateSearch.FindTernary` | cadical/src/gates.cpp:489-498 | searching the shortest list finds such a clause if there is one anywhere |
| `GateSearch.FindIfThenElse` | cadical/src/gates.cpp:504-574 | the formula is unchanged and the four clauses found define the pivot exactly if none is satisfied; if nothing is found, no two clauses on the pivot, in list order, belong to a gate whose condition is the literal the code tries |
| `GateSearch.IteMissed` | cadical/src/gates.cpp:519-548 | four clauses that form an if-then-else gate and are not recognised in either order of the list, because the condition stands elsewhere |
| `GateSearch.GetClause` | cadical/src/gates.cpp:580-590 | the open literals of a live clause, each once |
| `GateSearch.IsClause` | cadical/src/gates.cpp:594-611 | exactly whether the open literals are the given ones |
| `GateSearch.FindClause` | cadical/src/gates.cpp:613-626 | searching the shortest list finds such a clause if there is one anywhere |
| `GateSearch.NextEven` | cadical/src/gates.cpp:664-665 | the next number of even parity |
| `GateSearch.FindPatterns` | cadical/src/gates.cpp:659-681 | either all sign patterns of even parity have live clauses, found in order, or some pattern has none |
| `GateSearch.FindXorGate` | cadical/src/gates.cpp:628-722 | what is found defines the pivot exactly if none is satisfied; if nothing is found, every clause on the pivot within the arity limit lacks a sign pattern |
| `GateSearch.FindGateClauses` | cadical/src/gates.cpp:731-747 | the whole search keeps the models, clears all marks and flags exactly the clauses of one gate; if it ends with neither a gate nor a unit, none of the four kinds is there to be recognised |
| `VariableElimination.FlushOccs` | cadical/src/collect.cpp:167-185 | the live clauses of the list in order, and their number |
| `VariableElimination.TryToEliminate` | cadical/src/elim.cpp:664-718 | for every formula: a variable is left alone exactly if both phases occur and one of them too often; otherwise it is eliminated unless the formula is refuted, it gets a value, or the different pairs counted exceed the bound or one the size, and a gate is missed only if there is none to be recognised; the step is sound with the entries it pushes if no clause of the gate was satisfied at the root when found, in particular if no live clause on the variable is satisfied to begin with; an eliminated variable occurs nowhere; no more clauses are added than occurrences plus bound; satisfied clauses do not appear unless a unit was assigned while resolvents were added; no gate flag or mark is left |
| `VariableElimination.UncleanGateUnsound` | cadical/src/elim.cpp:547-658 | all that adding the resolvents promises holds in the state reached, and removing the clauses on the pivot then turns a formula without model into one with a model, so no entries make the step sound |
| `VariableElimination.EliminateRound` | cadical/src/elim.cpp:872-885 | every variable without a value has its attempt, in order, until the formula is refuted; any number of attempts one after the other is sound if no gate found had a satisfied clause, in particular from a formula without satisfied live clause while no unit is assigned during adding |
| `VariableElimination.StartClean` | cadical/src/elim.cpp:664-718 | the concrete run starts from a proper database without satisfied live clause |
| `VariableElimination.CountedReached` | cadical/src/elim.cpp:473-542 | counting resolvents may end in a state in which a pair left to be resolved has a unit resolvent |
| `VariableElimination.UnpropagatedReached` | cadical/src/elim.cpp:547-592 | assigning that unit without propagation reaches a state with all that adding resolvents promises, in which a clause off the variable is satisfied and live |
| `VariableElimination.UncleanShape` | cadical/src/gates.cpp:458-460 | after the clauses on the first variable are removed a satisfied live clause is left, with which an if-then-else gate is recognised that does not define its pivot |
| `Trail.Solver.NewTrailLevel` | cadical/src/decide.cpp:91-94 | a new level starting at the end of the trail; everything before a level start stays below that level |
| `Trail.Solver.AssignDecision` | cadical/src/propagate.cpp:187-194 | the decision of the level sits at its start |
| `Trail.Solver.AssignmentLevel` | cadical/src/propagate.cpp:38-56 | the highest level of the other literals of the reason |
| `Trail.Solver.LevelFor` | cadical/src/propagate.cpp:103-135 | that level, which is at least the level of every other literal of the reason |
| `Trail.Solver.SearchAssign` | cadical/src/propagate.cpp:103-169 | exactly the assignment on level zero for a unit, on the highest level of the other literals with chronological backtracking, and on the current level otherwise; the trail invariant holds |
| `Trail.Solver.CompactTrail` | cadical/src/backtrack.cpp:108-133 | the in-place loop keeps exactly the literals of level at most the target, in order, at their new positions |
| `Trail.Solver.Backtrack` | cadical/src/backtrack.cpp:76-162 | for every trail with out-of-order literals: kept are exactly the literals of level at most the target in their old order, and the trail invariant (levels, positions, reasons) holds again |
| `Trail.BacktrackOk` | cadical/src/backtrack.cpp:76-162 | backtracking keeps positions, level starts and reasons right |
| `Trail.BacktrackTwice` | cadical/src/backtrack.cpp:76-162 | backtracking in two steps is backtracking at once |
| `Trail.DrivenJustified` | cadical/src/propagate.cpp:103-169 | a literal driven by a clause is justified, and a consequence of the formula if the other literals are on level zero |
| `Analyze.Analysis.AnalyzeLiteral` | cadical/src/analyze.cpp:252-293 | the clause in the making stays implied and false, with the open count equal to the pending literals of the conflict level |
| `Analyze.Analysis.AnalyzeReason` | cadical/src/analyze.cpp:295-306 | visiting a whole reason keeps that invariant |
| `Analyze.Analysis.NextOpen` | cadical/src/analyze.cpp:1047-1055 | the latest seen literal of the conflict level on the trail |
| `Analyze.Analysis.DeriveUip` | cadical/src/analyze.cpp:963-1065 | ends with a clause that the formula implies, that is false, and that has exactly one literal of the conflict level and none of level zero; it is the first such point from the end of the trail, and the clause holds exactly the literals of lower levels seen until then |
| `Analyze.SortByRank` | cadical/src/analyze.cpp:464-472 | a permutation in descending order of level and trail position |
| `Analyze.NewDrivingClause` | cadical/src/analyze.cpp:444-482 | the same literals with the flipped one in front, and the jump level is the highest of the others, zero for units only; the literals are in descending order |
| `Analyze.BestPosition` | cadical/src/analyze.cpp:617-637 | the first position whose variable has the largest stamp from the given one on |
| `Analyze.SeenNext` | cadical/src/analyze.cpp:963-1065 | going down the trail, the seen variables grow by the reason of each open literal, and the first position without another open one is found first |
| `Analyze.DetermineLevel` | cadical/src/analyze.cpp:590-665 | the level lies between the jump level and the one before the current; it is the latter when jumping is prohibited, the former when nothing may be kept, and with trail reuse the lowest level that keeps the variable of largest stamp |
| `Analyze.ScanLevels` | cadical/src/analyze.cpp:518-533 | the highest level of the conflict, and its literal if it is alone there |
| `Analyze.MoveHighest` | cadical/src/analyze.cpp:540-577 | a literal of highest remaining level takes the position, and the clause is again watched by its first two literals and by nothing else; the watches of other clauses stay |
| `ConflictWatches.RemoveWatch` | cadical/src/watch.hpp:46-56 | in-place compaction leaves exactly the watches of other clauses, in order |
| `ConflictWatches.SwapWatched` | cadical/src/analyze.cpp:540-577 | after the exchange each of the first two literals watches the clause once, with another literal of it as blocking literal, and no other literal does |
| `Analyze.FindConflictLevel` | cadical/src/analyze.cpp:513-586 | the conflict level, its forced literal if alone, and the literals permuted with the two highest in front, watched by these two |
| `Analyze.ClearAnalyzed` | cadical/src/analyze.cpp:383-402 | no variable stays seen |
| `Analyze.BecomesUnit` | cadical/src/analyze.cpp:1126-1142 | if all but one literal of a false clause are at or below a level, backtracking to it makes the clause unit |
| `Analyze.LearnAndDrive` | cadical/src/analyze.cpp:963-1158 | the learned clause is implied, joins the formula, is unit after backtracking and drives its literal, with the trail invariant kept; it is the first-UIP clause in descending order, the level is the one chosen for its jump level, and the literal sits on its own level |
| `Analyze.AnalyzeConflict` | cadical/src/analyze.cpp:860-1158 | for every conflict and option: the formula is refuted, or the solver is the old one backtracked and a clause that the formula implies (the conflict or a new one) is unit there and drives its literal on its own level; a single literal on the highest level is forced, level zero refutes, and any other conflict is learned from |
| `Tarjan.VisitOk` | cadical/src/decompose.cpp:391-413 | first visits keep the search invariant |
| `Tarjan.LowerAgain` | cadical/src/decompose.cpp:228-246 | visiting a finished literal again only repeats its minimum |
| `Tarjan.FinishOk` | cadical/src/decompose.cpp:382-389 | a literal that is no entry stays on the component stack with a right minimum |
| `Tarjan.ComponentExact` | cadical/src/decompose.cpp:251-375 | what is popped is exactly the strongly connected component of the entry |
| `Tarjan.CompleteOk` | cadical/src/decompose.cpp:350-375 | popping a component keeps the search invariant |
| `Tarjan.Decomposer.PreFix` | cadical/src/decompose.cpp:391-413 | the invariant with one more visited literal |
| `Tarjan.Decomposer.ScanChildren` | cadical/src/decompose.cpp:232-246 | the least minimum of a literal and its children on the stack |
| `Tarjan.Decomposer.FindRepr` | cadical/src/decompose.cpp:310-343 | detects the negated entry in the component, or finds the literal of least variable |
| `Tarjan.Decomposer.PopComponent` | cadical/src/decompose.cpp:350-375 | everything down to the entry leaves the stack with the representative recorded |
| `Tarjan.Decomposer.PostFix` | cadical/src/decompose.cpp:228-389 | the invariant again with one literal finished, or a literal equivalent to its negation |
| `Tarjan.Decomposer.Search` | cadical/src/decompose.cpp:206-416 | one depth-first search traverses its root and keeps what was traversed |
| `Tarjan.Decomposer.Components` | cadical/src/decompose.cpp:194-418 | for every graph: either some literal is equivalent to its negation, or every literal has the least literal of its exact component as representative (frozen ones themselves) |
| `Decompose.ReachHolds` | cadical/src/decompose.cpp:194-418 | reachability in the binary implication graph is implication in every model |
| `Decompose.MutualAgree` | cadical/src/decompose.cpp:194-418 | literals of one component agree in every model |
| `Decompose.ConflictingUnsat` | cadical/src/decompose.cpp:316-346 | both phases in one component refute the formula |
| `Decompose.ReprNegated` | cadical/src/decompose.cpp:350-375 | representatives commute with negation |
| `Decompose.ReprTwice` | cadical/src/decompose.cpp:350-375 | a representative represents itself and is in the component |
| `Decompose.ReprAgrees` | cadical/src/decompose.cpp:350-375 | a literal and its representative agree in every model |
| `Decompose.EquivalencesOk` | cadical/src/decompose.cpp:444-495 | no representative is substituted itself |
| `Decompose.ReplaceIsRep` | cadical/src/decompose.cpp:444-495 | replacing along the pushed equivalences is taking representatives |
| `Decompose.PushEquivalences` | cadical/src/decompose.cpp:444-495 | the two binaries of exactly the substituted variables, in order |
| `Decompose.SubstituteClause` | cadical/src/decompose.cpp:525-593 | the new clause has each representative once, no false literal and, under the units, the truth value of the substituted clause; it is exactly the literals replaced in order without false and repeated ones, or satisfied by a true literal or an opposite pair |
| `Decompose.Substituter.SubstituteAt` | cadical/src/decompose.cpp:507-663 | exactly one clause more is replaced, postponed or left; models and substituted forms correspond |
| `Decompose.Substituter.SubstituteAll` | cadical/src/decompose.cpp:497-665 | every model stays one, every model of the result satisfies all substituted forms, and no live clause holds a substituted literal; the formula is exactly the clauses substituted in order |
| `Decompose.Substituter.DecomposeRound` | cadical/src/decompose.cpp:153-665 | the round is sound with the entries it pushes; unless refuted, the representatives are exact and no live clause holds a substituted literal; it is refuted outright exactly if some literal is equivalent to its negation, and otherwise the formula is exactly the substituted one |
| `Decompose.RoundSound` | cadical/src/decompose.cpp:444-665 | substituting and replaying the pushed binaries preserves satisfiability and rebuilds models |
| `Vmtf.Queue.Dequeue` | cadical/src/queue.hpp:39-49 | the doubly linked list without the variable, in order |
| `Vmtf.Queue.Enqueue` | cadical/src/queue.hpp:51-58 | the list with the variable at its end |
| `Vmtf.Queue.InitEnqueue` | cadical/src/queue.cpp:26-39 | a new variable at the end with a new stamp, and the search invariant |
| `Vmtf.Queue.InitEnqueueReverse` | cadical/src/queue.cpp:10-25 | a new variable in front with the earliest stamp; the search invariant survives if and only if that stamp does not exceed the recorded one |
| `Vmtf.ReverseMisses` | cadical/src/queue.cpp:10-25 | a run in the reverse order in which the search answers an unassigned variable although another one has a larger stamp |
| `Vmtf.Queue.Bump` | cadical/src/analyze.cpp:50-63 | the variable moves to the end with a new stamp and the search invariant holds, assigned or not, even if it is the one to search from; the search starts from it exactly if it is unassigned and was not last |
| `Vmtf.Queue.Unassign` | cadical/src/backtrack.cpp:10-30 | the search position moves exactly if the stamp is later, and the invariant holds |
| `Vmtf.Queue.NextDecisionVariable` | cadical/src/decide.cpp:12-24 | the unassigned variable with the largest stamp of all; the variable the search starts from, if that one is unassigned; the next search starts there |
| `Vmtf.SearchMoved` | cadical/src/analyze.cpp:50-63 | bumping keeps every variable stamped after the recorded stamp assigned |
| `Vmtf.SearchUnassigned` | cadical/src/backtrack.cpp:24-29 | unassigning keeps it, too |
| `Vmtf.Largest` | cadical/src/decide.cpp:12-24 | with everything after it assigned, an unassigned variable has the largest stamp |
| `Condition.Conditioner.Classify` | cadical/src/condition.cpp:293-320 | satisfied at the root, or counts of true and false literals and a true literal to watch |
| `Condition.Conditioner.PrepareClause` | cadical/src/condition.cpp:287-396 | each clause is watched by a true literal, has no false literal, or its false literals became conditional |
| `Condition.Conditioner.Prepare` | cadical/src/condition.cpp:287-396 | afterwards every clause is safe for the initial autarky, and only satisfied clauses were removed |
| `Condition.Conditioner.Scan` | cadical/src/condition.cpp:622-633 | a true literal if there is one, and zero exactly if no autarky literal is negated |
| `Condition.Conditioner.MakeConditional` | cadical/src/condition.cpp:655-691 | the clause is no longer touched by the autarky, or no autarky literal is left in the candidate |
| `Condition.Conditioner.VisitWatches` | cadical/src/condition.cpp:601-703 | the clauses watched by an unassigned literal are safe again |
| `Condition.Conditioner.RefineStep` | cadical/src/condition.cpp:568-704 | one conditional literal handled: it occurs negated in the candidate or is unassigned |
| `Condition.Conditioner.Refine` | cadical/src/condition.cpp:565-705 | at the fixpoint every remaining conditional literal occurs negated in the candidate and every clause negatively touched by the autarky has a true literal; no literal of a blocking part of the assignment is ever given up |
| `Condition.FixpointBlocked` | cadical/src/condition.cpp:706-756 | at the fixpoint the candidate is globally blocked by the autarky |
| `Condition.GivenUp` | cadical/src/condition.cpp:655-691 | a refinement that ends without autarky literal in the candidate shows that no part of the assignment blocks it |
| `Condition.SparesMark` | cadical/src/condition.cpp:655-670 | literals that become conditional are in no blocking autarky |
| `Condition.SparesDrop` | cadical/src/condition.cpp:571-586 | conditional literals that are unassigned are in no blocking part |
| `Condition.Conditioner.RemoveBlocked` | cadical/src/condition.cpp:756-801 | exactly one entry is pushed, with the literals of the autarky as witness, and removing the candidate is sound |
| `Condition.Conditioner.Restore` | cadical/src/condition.cpp:807-827 | assignment, conditional marks and stack are what they were before the candidate |
| `Condition.Conditioner.TryCandidate` | cadical/src/condition.cpp:484-832 | for every candidate and limit: sound, assignment and marks as before, and only the candidate may be removed; if it stays and no limit was hit, no two parts of the assignment are a conditional part and an autarky that block it in the formula the round started from |
| `Condition.Conditioner.ConditionRound` | cadical/src/condition.cpp:155-834 | the whole round is sound with the entries it pushes and leaves no mark, stack or watch; the propagations stay within those of the literals unassigned; unless a limit stops it, no clause that stays was blocked by a part of the assignment |
| `Block.Blocker.MatchLiteral` | cadical/src/block.cpp:85-124 | finds the first clashing literal if there is one and moves exactly it to the front; otherwise the clause is as before |
| `Block.Blocker.TryAll` | cadical/src/block.cpp:65-128 | all resolvents tautological, or the first failing clause moved to the front of the list; clashing literals moved to the front in exactly the clauses before |
| `Block.Blocker.IsBlockedClause` | cadical/src/block.cpp:43-145 | true if and only if every resolvent is tautological; exactly the first clashing literals moved to the front, and the list is as before on success or has the first failing clause in front |
| `Block.Blocker.BlockClause` | cadical/src/block.cpp:618-631 | the clause is removed if and only if all its resolvents on the literal are tautological, and soundly so, whatever root-level units there are; exactly the entry with the literal as witness is pushed; otherwise nothing but these orders change |
| `Block.Blocker.BlockWithOneNegative` | cadical/src/block.cpp:298-430 | with one live clause of the negated literal, removed are exactly the candidates within the size limits that clash with it, soundly, and both lists are flushed in order |
| `Block.Blocker.BlockCandidate` | cadical/src/block.cpp:334-416 | one candidate is removed if and only if its only resolvent is tautological and it is within the limits |
| `Heap.Heap.Exchange` | cadical/src/heap.hpp:65-69 | array and positions stay inverse with two elements swapped |
| `Heap.Heap.Up` | cadical/src/heap.hpp:73-77 | the element is ordered against its ancestors; the elements are the same |
| `Heap.Heap.Down` | cadical/src/heap.hpp:81-93 | the heap order holds everywhere; the elements are the same |
| `Heap.Heap.Contains` | cadical/src/heap.hpp:135-139 | exactly membership in the array |
| `Heap.Heap.PushBack` | cadical/src/heap.hpp:143-152 | one more element in a heap |
| `Heap.Heap.Front` | cadical/src/heap.hpp:156-159 | the maximum of all elements |
| `Heap.Heap.PopFront` | cadical/src/heap.hpp:163-174 | the first element, a maximum, is removed and the rest is a heap |
| `Heap.Heap.Update` | cadical/src/heap.hpp:178-183 | after the key of this element alone changed in either direction the order holds again, with the same elements |
| `Heap.MoveUp` | cadical/src/heap.hpp:73-77 | moving a larger element over its parent leaves at most that element out of order |
| `Heap.MoveDown` | cadical/src/heap.hpp:81-93 | moving a smaller element under its larger child leaves at most that element out of order |
| `Heap.FrontIsMaximum` | cadical/src/heap.hpp:156-159 | in a heap nothing exceeds the first element |
| `Collect.Collector.CountBytes` | cadical/src/collect.cpp:326-330 | the bytes of the surviving clauses |
| `Collect.Collector.CopyClause` | cadical/src/collect.cpp:306-315 | the copy lies at the top of the new space, disjoint from earlier ones, and the old clause points to it |
| `Collect.Collector.CopyInOrder` | cadical/src/collect.cpp:343-402 | visiting references in any order copies exactly the survivors not copied yet, once and in that order |
| `Collect.Collector.CopySurvivors` | cadical/src/collect.cpp:319-402 | for every ordering option each survivor is copied exactly once, in the order of arena, visits and rest, and the prepared bytes are filled exactly |
| `Collect.Collector.FlushList` | cadical/src/collect.cpp:167-185 | the references become those to the copies of exactly these clauses, without the collected ones, in order |
| `Collect.Collector.FlushWatches` | cadical/src/collect.cpp:193-221 | one watch for each watch of a surviving clause, binary ones first, both groups in order: each names the copy of the very clause its old watch named, its size, and the other watched literal |
| `Collect.Collector.FlushAllOccs` | cadical/src/collect.cpp:223-233 | every occurrence list becomes the list of copies of its surviving clauses |
| `Collect.Collector.FlushAllWatches` | cadical/src/collect.cpp:223-233 | every watch list is relocated the same way |
| `Collect.Collector.UpdateReasons` | cadical/src/collect.cpp:237-261 | every reason becomes the copy of that reason |
| `Collect.Collector.SwapSpaces` | cadical/src/arena.cpp:22-28 | only the new space is left, filled to its end |
| `Collect.Collector.CollectGarbage` | cadical/src/collect.cpp:319-434 | for every ordering option there is one map, injective and onto, from the surviving clauses to the clauses of the new memory; it keeps content and size, the images do not overlap and fill exactly the prepared bytes; clause list, occurrence lists, watches and reasons are their old values under this map minus collected clauses, with the clause list in its old order or, if sorted, in ascending order of addresses; the copies lie one behind the other in the order of the visits |
| `Collect.CopiesDisjoint` | cadical/src/arena.hpp:87-93 | two copies never overlap and lie within the space |
| `Collect.CopiesRelocate` | cadical/src/collect.cpp:319-402 | once all survivors are copied the copies are a relocation: injective, onto, content-preserving and without overlap |
| `Collect.Arranged` | cadical/src/collect.cpp:418-423 | sorting the clause list by address only permutes it |
| `Collect.SameBytes` | cadical/src/collect.cpp:319-402 | the space needed does not depend on the order of visits |

## Left out

- Integer widths of edge indices, node counts and identifiers.
- The bits of `reduce_hash` (an arbitrary function into the table size) and `enlarge_vars` of the checker. Whether a deletion triggers a collection is a parameter.
- Find: an empty table answers "not found". The code calls `reduce_hash` with size 0 there (`cadical/src/checker.cpp:289-315`), which is an assertion, and a loop without end if assertions are off.
- The checker's XOR of two watches and a literal is modelled as the other of the two watches. Clauses are named by index instead of address. Fatal messages are returned answers.
- Sorting is a sort by insertion where the source calls `std::sort`, radix sort or `stable_sort` for its order only.
- Identifiers on the extension stack are opaque words. Mapping between external and internal variables, restoring of clauses and witness marks are not modelled.
- Elimination: schedule, occurrence counts and their sorting, backward subsumption, redundant clauses, frozen and active flags. New clauses are connected under all their literals.
- FindIfThenElse: does not claim to find every gate, because the code tries one literal of the first clause as the condition (see `IteMissed`).
- FindEquivalence: says nothing about gates that are missed when a unit is found on the way, because that unit can turn clauses already passed into binary ones.
- Analysis: on-the-fly strengthening, minimization and shrinking, LRAT chains, glue and bumping, external propagators. The propagation loop of the solver itself is not modelled; its reason invariant is part of `TrailOk`, which every modelled assignment and backtrack keeps.
- Decomposition: LRAT chains, the difference between redundant and irredundant clauses, and between shrinking a clause in place and replacing it. The value TRAVERSED of a minimum is membership in a set.
- Decision queue: `shuffle_queue` and scores. The order of the heap is an arbitrary integer key for each element.
- Conditioning: how the assignment is set up and split at its start (`cadical/src/condition.cpp:177-285`), order and selection of candidates, reason clauses, counters.
- Blocking: pure literals, candidate filtering before the general test (`cadical/src/block.cpp:435-543`), rescheduling.
- Collector: shrinking in place, `delete_garbage_clauses`, `protect_reasons` (that reasons are protected is assumed).
- Vivification, probing, subsumption, ternary resolution, restarts, rephasing, local search, averages and EVSIDS arithmetic.
- The Python front end, proof printers, file formats, options, statistics, profiling, signals and the command-line application: plumbing that would only add easy members.
