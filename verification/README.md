# A verified model of the Y4ConstraintSolver core

Y4ConstraintSolver is a Java solver for finite-domain constraint satisfaction problems. It runs
one algorithm, twice. The algorithm is a depth-first backtracking search with reversible domain
changes:

- pick the unassigned variable with the smallest domain;
- assign it a value (left branch);
- unless enough solutions are stored, exclude that value instead (right branch);
- after every change, propagate it by forward checking or by maintaining arc consistency;
- undo the propagation when the branch returns.

There are two copies of the algorithm:

- the **binary extensional engine**: integer-indexed variables and tables of allowed value pairs;
- the **n-ary engine**: named variables and constraints whose satisfying rows are tabulated in
  advance.

The n-ary problem can also be compiled into a binary one (the **dual encoding**). Matrix
declarations expand into one variable per index tuple, and the generated names map back to
`name[i][j]`.

This Dafny project models that core as pure functions over immutable data and proves what the
code promises.

| module (file) | what it models |
|---|---|
| `Wrappers` (wrappers.dfy) | `Option` for Java's `null`. `Result` with a `Fault` for each exception the code can throw: null dereference, empty iterator, index out of range, `IllegalArgumentException`. |
| `Variables` (variables.dfy) | `Variable` / `AscendingVariable` / `BaseVariable`: raw domain, optional value, effective domain (`getDomain`), `retainValues`, and `Prune` / `BaseVarPrune` as an immutable record. |
| `Engine` (engine.dfy) | Pieces both engines share. `Arc`. A `Network` with three parts: the ids, which pairs share a constraint, and the supported sets for an arc. One arc revision (`Revise`). Undoing a list of prunes (`UndoAll`). `Insert`, the `LinkedHashSet.add` the engines keep prunes, arcs and solutions in. |
| `Assignments` (assignment.dfy) | `Assignment` as a map from names to values, and `isCompatibleWith`. |
| `Propagation` (propagation.dfy) | `ForwardChecking` / `NaryForwardChecking` and `MaintainingArcConsistency` / `NaryMaintainingArcConsistency`, written once over a `Network`. |
| `Backtracking` (search.dfy) | `BinarySolving` / `NarySolving`: `solve`, `getSmallestDomainVariable`, `leftBranch`, `rightBranch`, `propagateChange`, `assign` / `unassign`, and storing a solution. |
| `Solving` (solving.dfy) | `SolvingAlgorithm.solve`: resetting the counters, the cap where `<= 0` means all, and the optional `makeConsistent` pre-pass. |
| `Binary` (binary.dfy) | `BinaryTuple`, `BinaryConstraint`, `BinaryConstraintStorage`, `BinaryCSP`, `Arc.prune`, and the binary network. |
| `Nary` (nary.dfy) | `NaryConstraint` (tables, `getSupported`, `getAllowedTuples`, `getValue`), unary constraints, `ECSProblem.prepare` / `getVariable`, `getCommonConstraints`, `BaseVarArc.prune`, and the n-ary network. |
| `Dual` (dual.dfy) | `ECSProblem.asBinaryCSP` (`createBounds`, `createBinaryConstraints`) and `decodeSolution`. Soundness and completeness of the encoding. |
| `Matrix` (matrix.dfy) | `Matrix.parse` and its helpers (`String.split`, `trim`, `parseMinMax`, `parseLimits`). `createBaseVariables` / `recurseForEachValue` / `checkBottom` / `instantiateBaseVar`. `Assignment.asMatrixAccess`. |

## Design

**One generic engine.** The engine is generic in the variable identity: `int` for binary,
`string` for n-ary. A problem presents itself as a `Network`. The two kinds of problem differ
only in what a revision asks:

- The binary `Arc.prune` asks the constraint table for the values the supporter's effective
  domain supports.
- The n-ary `BaseVarArc.prune` asks every common constraint for the values compatible with the
  current partial assignment (the "past"). It never reads the supporter's domain.

`Binary.ReviseIsArcPrune` and `Nary.ReviseIsNaryArcPrune` prove that the engine's `Revise` is
exactly each source `prune`.

**Search.**

- The backtracking search is a mutually recursive family of ghost functions.
- `Search` corresponds to `solve`. The other members of the family are `LeftBranch`,
  `RightBranch` and `PropagateChange`.
- They take the propagator as a parameter (`Reviser`), so the search proofs are written once.
- Every member of the family carries these properties in its own contract:
  - it restores the state it started from;
  - it cannot fail while every future domain is non-empty;
  - it respects the cap;
  - it never stores a duplicate;
  - soundness: every stored solution satisfies every constraint;
  - completeness: while fewer solutions than the cap are stored, every solution has been stored.
- `Solving` instantiates the reviser with the two propagation schemes. It proves that they meet
  the search's hypotheses.

**Deliberately abstract.**

- The iteration order of a `HashSet` is not modelled. It decides which value `getNextVal`
  yields and how ties in `getSmallestDomainVariable` break. The model picks an unspecified
  element instead (`Enumeration`, `NextValue`), and no property depends on the choice.
- Satisfaction of an mxparser expression is an uninterpreted predicate: `sat` for an n-ary
  constraint, `allowed` for a unary one.
- Evaluation of a bound expression in a declaration is a parameter `eval: string -> Option<int>`.
  `None` stands for NaN.

### Where the model follows the code rather than the description of the system

- **Empty domain before solving.** An empty domain makes `solve` throw only when the search
  picks that variable for branching: `getNextVal` then runs on an empty `HashSet`. With no
  variables at all, the null variable is dereferenced. The model returns `Err(NoElement)` or
  `Err(NullReference)` in these cases. An empty domain is not always picked, though.
  `getSmallestDomainVariable` stops at the first variable of size 1
  (src/binary/algorithms/BinarySolving.java:113-116, src/nary/algorithms/NarySolving.java:133-135),
  so an empty variable later in the iteration order may never be looked at. Take var0 = {5}, var1 = {} and one constraint on the pair. var0 is picked and
  assigned 5, forward checking wipes out var1, and the right branch leaves var0 empty and is
  skipped. `solve` then returns with no solutions and no exception. `Solving.Solve` allows both
  outcomes: it promises success only when every future domain is non-empty (`Live`).
- **The pre-pass is never undone.** With `startConsistent`, the prunes made by `makeConsistent`
  stay in place. `Solving.Solve` promises that the final domains are exactly those `Prepared`
  leaves, and `Solving.Prepared` that these are the domains `makeConsistent` produces. They are
  the original domains only when `startConsistent` is false.
- **Duplicate solutions collapse.** `Solution` and `Assignment` extend `LinkedHashMap`, so two
  solutions are equal when their contents are equal, and the `LinkedHashSet` of solutions would
  drop a duplicate. The model stores solutions with `Insert`. It proves that no duplicate ever
  arises.
- **Parse failures throw.** `Matrix.parse` is documented to return null on an invalid
  declaration. It never does: every failure throws. The model returns an `Err` for each failure.

## Model

| member | source | states |
|---|---|---|
| Variables.Range | src/binary/types/AscendingVariable.java:24-29 | v is in the range exactly when lo <= v <= hi. The size is hi - lo + 1, or 0 when lo > hi. |
| Variables.NewVariable | src/nary/types/BaseVariable.java:58-63 | A new variable is unassigned, carries the given identity, and its domain is exactly lo..hi. |
| Variables.AssignmentShapesCurrentDomain | src/binary/types/Variable.java:49-56 | Assign and unassign never touch the raw domain. While a variable is assigned, its effective domain is just the value; afterwards it is the raw domain again. Unassigning an assignment restores an unassigned variable. |
| Variables.RemoveThenAddRestores | src/binary/types/Variable.java:63-74 | Removing a value of the domain and adding it back gives the same variable. The removal makes the variable inconsistent exactly when that value was the only one. |
| Variables.RetainValues | src/binary/types/Variable.java:167-178 | The domain becomes old ∩ supported. The returned set is exactly old \ supported. The two partition the old domain, and nothing but the domain changes. |
| Variables.RetainWhere | src/nary/types/BaseVariable.java:179-190 | The kept values all satisfy the condition and the removed ones all fail it. Together they partition the old domain, and nothing but the domain changes. |
| Variables.NextValue | src/binary/types/AscendingVariable.java:32-39 | There is a value exactly when the domain is non-empty, and it is a member of the domain. An empty domain models the failing `iterator().next()`. |
| Variables.RetainThenUndoRestores | src/binary/algorithms/Prune.java:36-38 | Undoing the record of a retainValues call restores the variable exactly. |
| Engine.Insert | src/binary/algorithms/ForwardChecking.java:39-40 | Like `LinkedHashSet.add`: the element is present afterwards, the old elements keep their order as a prefix, nothing else is added, and a duplicate-free list stays duplicate-free. |
| Engine.Narrow | src/nary/algorithms/BaseVarArc.java:54-65 | The variable keeps exactly the values that every supported set holds. The removed values are old \ new, and only the domain changes. |
| Engine.Revise | src/binary/algorithms/Arc.java:54-73 | One arc revision. Only the dependent changes, and only its domain, which shrinks. The prune names the dependent and records exactly the removed values. |
| Engine.ReviseKeepsSupported | src/binary/algorithms/Arc.java:71-72 | After a revision, the dependent keeps a value exactly when it was in its domain and every supported set holds it. |
| Engine.ReviseIsIdempotent | src/binary/algorithms/Arc.java:54-73 | For dependent ≠ supporter, revising the same arc again changes nothing and records an empty prune. |
| Engine.UndoAll | src/binary/algorithms/BinarySolving.java:200-205 | Undoing a list of prunes gives each variable back all the values any of its prunes recorded, and leaves everything else as it was. |
| Engine.RecordKeepsUndoTarget | src/binary/algorithms/Prune.java:36-38 | Recording a revision's prune in the set keeps every record consistent. Undoing the extended set returns to the same state as undoing the old set before the revision. |
| Engine.RemovedOfInsert | src/binary/algorithms/Prune.java:55-63 | Inserting a prune into the set adds its values to the undo of its variable, unless an equal prune is already present, whose values are then already covered. Prune equality never loses an undo. |
| Engine.TotalSizeShrinks | src/binary/algorithms/MaintainingArcConsistency.java:31-55 | The total domain size never grows when domains shrink, and drops strictly when some domain shrinks strictly. This is the termination measure of the arc-consistency loop. |
| Engine.Enumeration | src/binary/algorithms/BinarySolving.java:106-120 | An iteration order lists every element of the set exactly once. |
| Assignments.IsCompatibleWith | src/nary/constraints/Assignment.java:40-52 | The loop returns true exactly when every variable present in both assignments has the same value in each. |
| Assignments.CompatibleFacts | src/nary/constraints/Assignment.java:40-52 | Compatibility is symmetric. Assignments with disjoint variables, including the empty one, are compatible with anything. |
| Assignments.PutAllAgrees | src/nary/ECSProblem.java:122-130 | putAll assigns the union of the variables, and the later map wins. For compatible maps the result also agrees with the earlier one. |
| Assignments.Restrict | src/nary/constraints/NaryConstraint.java:99-103 | A restriction assigns exactly the given variables among those assigned, each with its original value. |
| Propagation.LinkedTo | src/binary/algorithms/ForwardChecking.java:30-34 | The variables forward checking revises are exactly the listed future variables that share a constraint with the changed one. |
| Propagation.StepContained | src/binary/algorithms/MaintainingArcConsistency.java:33-41 | One popped arc only narrows its dependent, and its prune undoes the narrowing. A wipeout is reported exactly when the dependent's domain became empty. |
| Propagation.ForwardCheckContained | src/binary/algorithms/ForwardChecking.java:29-47 | Forward checking only narrows the future variables, and its prunes undo it. It reports a wipeout only when some revised variable is empty, and no new emptiness when it succeeds. |
| Propagation.ForwardCheckCounts | src/binary/algorithms/ForwardChecking.java:35 | A successful forward check counts exactly one revision per linked future variable. |
| Propagation.ForwardCheckUntouched | src/binary/algorithms/ForwardChecking.java:28-47 | Variables outside the future are never changed by forward checking. |
| Propagation.ForwardCheckNarrowsToSupport | src/nary/algorithms/NaryForwardChecking.java:29-44 | When forward checking succeeds, each future variable holds only values that the constraints with the changed variable support. |
| Propagation.Enqueue | src/binary/algorithms/MaintainingArcConsistency.java:43-53 | After a non-empty prune, the queue gains (h, dep) for every future h other than the supporter that shares a constraint with dep. Nothing else is added, the old queue stays a prefix, and no arc is queued twice. |
| Propagation.RequeueProgress | src/binary/algorithms/MaintainingArcConsistency.java:31-55 | Each loop iteration either shrinks the total domain size strictly, or keeps it and shortens the queue strictly. The loop terminates, and arcs still waiting stay queued. |
| Propagation.ArcConsistencyContained | src/binary/algorithms/MaintainingArcConsistency.java:29-55 | Maintaining arc consistency only narrows future domains, and its prunes undo it. A wipeout is reported exactly when some future domain became empty. |
| Propagation.ArcConsistencySupported | src/nary/algorithms/NaryMaintainingArcConsistency.java:29-56 | On success, for every arc queued from an assigned supporter, each value the dependent keeps is supported. |
| Propagation.ArcConsistencyShrinks | src/binary/algorithms/MaintainingArcConsistency.java:29-55 | Maintaining arc consistency never adds a value to a domain. |
| Propagation.PropagateContained | src/binary/algorithms/BinarySolving.java:200-205 | Either scheme only narrows the listed future variables, and undoing its prunes restores the domains it started from. |
| Propagation.PropagateSupported | src/binary/algorithms/ForwardChecking.java:29-47 | After either scheme succeeds from an assigned variable x, every future variable linked to x holds only values x's constraints support. |
| Propagation.PropagateKeeps | src/binary/algorithms/ForwardChecking.java:42-46 | Neither scheme removes a value of a complete assignment that every constraint supports. So neither reports a wipeout while such an assignment exists. |
| Backtracking.SmallestIsMinimal | src/binary/algorithms/BinarySolving.java:106-120 | The scan over the future ends on a variable whose domain size is no larger than any scanned one. This holds with the early stop at size 1 and the MAX_VALUE sentinel. |
| Backtracking.SmallestDomainVariable | src/nary/algorithms/NarySolving.java:124-139 | The variable returned is in the future, and none is returned for an empty future. |
| Backtracking.SmallestDomainVariableIsMinimal | src/nary/algorithms/NarySolving.java:124-139 | When every future domain is non-empty, the variable returned has a minimum domain size among the future variables. |
| Backtracking.Choose | src/binary/algorithms/BinarySolving.java:71-74 | The branching variable is in the future, and its first value is in its domain. |
| Backtracking.ChooseSmallest | src/binary/algorithms/BinarySolving.java:71-74 | With a non-empty future and non-empty future domains, a choice always exists, and it has a smallest domain. |
| Backtracking.Search | src/binary/algorithms/BinarySolving.java:71-84 | solve restores variables, past and future. It cannot fail while every future domain is non-empty, and it stores at most `cap` solutions. Each new solution extends the state and no duplicate arises. Under a filtering propagator each new solution satisfies every constraint. Under a propagator that keeps supported assignments, every solution reachable from the state is stored while fewer than `cap` are. |
| Backtracking.LeftBranch | src/binary/algorithms/BinarySolving.java:129-146 | The left branch assigns x := val and finally unassigns it. It gives the same guarantees as solve for the assigned state: restoration, cap, no duplicates, soundness, and completeness over the assignments with x = val. |
| Backtracking.RightBranch | src/binary/algorithms/BinarySolving.java:148-157 | The right branch removes val, propagates only if the domain stays non-empty, and always re-adds val. It restores the state, and its solutions are exactly those reachable without x = val. |
| Backtracking.PropagateChange | src/nary/algorithms/NarySolving.java:180-187 | It propagates, recurses only when no domain was wiped out, and undoes every prune whatever the outcome. It restores the state and passes the recursion's guarantees on. |
| Backtracking.AssignKeepsWf | src/nary/algorithms/NarySolving.java:153-169 | assign moves the variable from the future to the past with its value. The past and the future still partition the variables. unassign undoes it exactly. |
| Backtracking.RemoveKeepsWf | src/binary/algorithms/BinarySolving.java:148-157 | Excluding a value of the domain keeps the state well formed and shrinks the total domain size, and re-adding the value restores the domains. |
| Backtracking.StoredSolution | src/binary/algorithms/Solution.java:24-28 | With the future empty, the stored solution is the past, one value per variable id. It extends the state, and it is the only assignment the state reaches. It satisfies the constraints when the past does. |
| Solving.ReviserOfWorks | src/binary/algorithms/BinarySolving.java:200-205 | Both propagation schemes meet what the search relies on: narrowing that the prunes undo, filtering by the assigned variable's constraints, and keeping every supported assignment. |
| Solving.MakeConsistent | src/binary/algorithms/BinarySolving.java:53-57 | The pre-pass revises from each variable's side in turn. It only narrows domains and records prunes that would undo it. |
| Solving.MakeConsistentKeeps | src/nary/algorithms/NarySolving.java:53-59 | The pre-pass removes no value of a complete assignment that every constraint supports. |
| Solving.NewSolver | src/binary/algorithms/BinarySolving.java:40 | A new solver holds every variable in the future and no solution, and is at rest. |
| Solving.Cap | src/main/SolvingAlgorithm.java:63-65 | A solution count <= 0 means Integer.MAX_VALUE, that is all solutions. Otherwise the cap is the count. |
| Solving.Prepared | src/main/SolvingAlgorithm.java:60-71 | The counters are reset, and the pre-pass runs only with startConsistent. With it, the domains are exactly what makeConsistent over the future leaves. The pre-pass keeps every supported complete assignment and leaves the stored solutions alone. |
| Solving.Solve | src/main/SolvingAlgorithm.java:60-71 | The whole entry point. The final domains are exactly those after the preparation. The search undoes its own prunes and never those of makeConsistent, so without a pre-pass the domains are the original ones. At least one node is counted. The cap holds, and no duplicate arises. Every new solution is complete and, for a past-free symmetric network, satisfies every constraint. Under the cap, every supported complete assignment is stored. An empty future fails with a null dereference. |
| Binary.MatchesIsEquality | src/binary/types/BinaryTuple.java:37-39 | matches(v1, v2) holds exactly when the tuple is (v1, v2). So tuple equality is pair equality, as equals and hashCode make it. |
| Binary.SameConstraintIgnoresTuples | src/binary/types/BinaryConstraint.java:37-43 | Constraint equality compares the scope only. Two different tables over one scope are equal constraints. |
| Binary.FirstSupported | src/binary/types/BinaryConstraint.java:71-79 | v is supported exactly when some tuple (v, w) has w in the given domain. An empty domain supports nothing. |
| Binary.SecondSupported | src/binary/types/BinaryConstraint.java:89-97 | v is supported exactly when some tuple (w, v) has w in the given domain. An empty domain supports nothing. |
| Binary.SupportedMonotone | src/binary/types/BinaryConstraint.java:71-97 | Both queries are monotone in the domain, and they stay within the projection of the tuples. |
| Binary.EmptyStorage | src/binary/types/BinaryConstraintStorage.java:33-38 | A new storage is well formed and answers null for every pair. |
| Binary.Map | src/binary/types/BinaryConstraintStorage.java:33-38 | After map(i, j, c), get(i, j) is c, even over an earlier entry. Every other pair, including (j, i), is unchanged, and the storage stays well formed. |
| Binary.GetConstraintsListsEach | src/binary/types/BinaryConstraintStorage.java:55-59 | getConstraints lists the constraint of every stored pair exactly once. The pairs it visits are distinct and are exactly those get answers for. |
| Binary.NewBinaryCsp | src/binary/BinaryCSP.java:32-38 | Construction succeeds exactly when every bounds row has two entries, and otherwise throws. Variable i is fresh, with id i and domain bounds[i][0]..bounds[i][1]. |
| Binary.Ids | src/binary/BinaryCSP.java:98-102 | forEachVariable visits ids 0..n-1, each once, in index order. |
| Binary.ExistsConstraintSymmetric | src/binary/BinaryCSP.java:85-90 | existsConstraint does not depend on the order of its arguments. |
| Binary.ArcSupported | src/binary/algorithms/Arc.java:58-70 | A supported set exists exactly when a constraint is stored in either orientation. Otherwise the null constraint is dereferenced. |
| Binary.ArcPrune | src/binary/algorithms/Arc.java:54-73 | prune succeeds exactly when a constraint exists. The dependent's domain becomes old ∩ supported, with supported read from the supporter's effective domain. The prune holds old \ supported, only the dependent changes, and undoing the prune restores the variables. |
| Binary.ReviseIsArcPrune | src/binary/algorithms/Arc.java:54-73 | On a constrained arc, the engine's revision under the binary network is exactly Arc.prune. |
| Binary.SupportedHas | src/binary/types/BinaryConstraint.java:71-97 | Against a single value, each query reduces to membership of the pair in the table. |
| Binary.AllowsIsPairAllowed | src/binary/algorithms/Arc.java:58-70 | The engine's single-pair check on the binary network is exactly the tuple table of the constraint Arc.prune consults. |
| Binary.BinaryNetworkFacts | src/binary/algorithms/BinarySolving.java:53-57 | Binary supports ignore the past. With one orientation per pair, the network is symmetric. A satisfying assignment is never pruned, and the engine's "satisfies" covers every constraint between distinct variables. |
| Binary.BinarySolver | src/binary/algorithms/BinarySolving.java:40 | A new BinarySolving holds every variable in the future and no solution. |
| Binary.SolveBinary | src/binary/algorithms/BinarySolving.java:71-84 | Every new binary solution assigns each variable a value of its domain. With one orientation per pair, it satisfies every constraint between distinct variables. Under the cap, every satisfying assignment is found. |
| Nary.StoreValidAssignments | src/nary/constraints/NaryConstraint.java:73-133 | storeValidAssignments appends exactly the satisfying combinations of the scope variables' current domain values, each once. Each row assigns exactly the scope. The call throws exactly when a scope variable is undeclared. |
| Nary.StoreFrom | src/nary/constraints/NaryConstraint.java:99-120 | The recursive enumeration stores each completion of the given row that satisfies the constraint, once each. It hands the unassigned names back, reordered. |
| Nary.GetSupported | src/nary/constraints/NaryConstraint.java:217-227 | getSupported is null exactly for a name outside the scope. Otherwise it holds exactly the values that rows compatible with the current assignment give the name. |
| Nary.AllowedTuples | src/nary/constraints/NaryConstraint.java:144-157 | (i, j) is allowed exactly when row i of one table is compatible with row j of the other. Each pair appears once. |
| Nary.GetValue | src/nary/constraints/NaryConstraint.java:165-172 | getValue(i) is a stored row exactly when i is within the row count, and otherwise throws. |
| Nary.ApplyUnary | src/nary/constraints/UnaryConstraint.java:60-74 | Each variable keeps exactly the values every unary constraint on it accepts. An undeclared variable throws. |
| Nary.GetVariable | src/nary/ECSProblem.java:54-56 | The declared variable of that name, or null exactly when none is declared. |
| Nary.Prepare | src/nary/ECSProblem.java:143-153 | prepare succeeds exactly when every constrained variable is declared. It applies the unary constraints first and fills every table over the narrowed domains. Each constraint becomes relevant to exactly the variables of its scope. |
| Nary.Register | src/nary/ECSProblem.java:147-151 | Registering a constraint makes it relevant to exactly the variables of its scope. An undeclared name throws. |
| Nary.RetainAll | src/nary/types/BaseVariable.java:156-166 | The shared constraints are exactly those in both lists. |
| Nary.CommonConstraints | src/nary/types/BaseVariable.java:156-166 | The result is null for a variable against itself, or when nothing is shared. Otherwise it is exactly the constraints relevant to both. |
| Nary.CommonSymmetric | src/nary/types/BaseVariable.java:156-166 | Sharing a constraint does not depend on the order of the two variables. |
| Nary.PruneWith | src/nary/algorithms/BaseVarArc.java:56-64 | The loop keeps exactly the values every common constraint supports given the past. The removals are old \ new. It throws exactly when some constraint does not mention the dependent. |
| Nary.NaryArcPrune | src/nary/algorithms/BaseVarArc.java:54-65 | prune succeeds exactly when every common constraint mentions the dependent. Only the dependent's domain changes, to the values supported by all of them, and undoing the prune restores the variables. |
| Nary.PruneWithIsNarrow | src/nary/algorithms/BaseVarArc.java:54-65 | The loop of prune is the engine's Narrow over the supported sets. |
| Nary.ReviseIsNaryArcPrune | src/nary/algorithms/BaseVarArc.java:54-65 | On an arc between variables sharing constraints, the engine's revision under the n-ary network is exactly BaseVarArc.prune. This holds when every common constraint has the dependent in its scope. |
| Nary.PreparedCommonKnowsDependent | src/nary/ECSProblem.java:143-153 | After prepare, every constraint two variables share has the dependent in its scope. This is the hypothesis of ReviseIsNaryArcPrune, and it comes from the relevant lists prepare builds. |
| Nary.PreparedReviseIsNaryArcPrune | src/nary/algorithms/BaseVarArc.java:54-65 | In a prepared problem, on every linked arc, BaseVarArc.prune never throws and equals the engine's revision. |
| Nary.NarySolver | src/nary/algorithms/NarySolving.java:40 | A new NarySolving holds every declared name in the future and no solution. |
| Nary.SatisfiesNaryUpholds | src/nary/ECSProblem.java:143-153 | After prepare, a complete assignment satisfying every n-ary constraint is supported on every arc, under any past it extends. So propagation never removes it. |
| Nary.SolveNary | src/nary/algorithms/NarySolving.java:67-84 | Every new n-ary solution assigns each variable a value of its domain. Under the cap, every assignment satisfying all constraints is found. |
| Dual.Bounds | src/nary/ECSProblem.java:81-90 | Dual variable i ranges over 0..rows_i - 1. That is empty when the table is empty. |
| Dual.CreateBinaryConstraints | src/nary/ECSProblem.java:98-112 | A constraint of compatible row pairs is stored under (i, j) exactly for i < j, and under no other pair. |
| Dual.AsBinaryCsp | src/nary/ECSProblem.java:64-69 | The unary constraints are applied first, then every table is filled and its dual built. The build fails only through an undeclared variable. |
| Dual.DualOneOrientation | src/nary/ECSProblem.java:98-112 | The dual stores each pair in one orientation only. |
| Dual.Selection | src/nary/ECSProblem.java:122-130 | The rows chosen by the binary solution, in visiting order. An index out of range throws. |
| Dual.PutAll | src/nary/ECSProblem.java:122-130 | The union assigns every variable of every row. For pairwise compatible rows it agrees with each row. |
| Dual.DecodeSolution | src/nary/ECSProblem.java:122-130 | The decoded assignment is the union of the selected rows. For pairwise compatible rows it agrees with each of them. It fails exactly on an index out of range. |
| Dual.AsBinaryCspTables | src/nary/ECSProblem.java:81-90 | Each table ends up holding exactly the rows its constraint must hold over the narrowed domains. |
| Dual.DecodeSound | src/nary/ECSProblem.java:122-130 | Decoding a solution of the dual problem succeeds. It satisfies every n-ary constraint and agrees with each selected row. |
| Dual.EncodeDecodes | src/nary/ECSProblem.java:122-130 | Decoding the dual encoding of an n-ary solution gives the solution back on the constrained variables. |
| Dual.EncodeComplete | src/nary/ECSProblem.java:98-112 | Every n-ary solution has a dual solution that satisfies every binary constraint and decodes back to it. |
| Dual.DualSound | src/nary/ECSProblem.java:122-130 | Every solution the binary solver finds for the dual decodes to an assignment satisfying every n-ary constraint. |
| Dual.DualComplete | src/nary/ECSProblem.java:98-112 | Under the cap, the binary solver finds the encoding of every n-ary solution. |
| Matrix.SplitAll | src/nary/Utilities.java:64-72 | The parts joined with the separator give the string back, and no part contains it. |
| Matrix.JavaSplit | src/nary/Utilities.java:65 | String.split drops the trailing empty parts of the full split and nothing else. Without a separator the string is returned whole. |
| Matrix.SplitExactlyOnce | src/nary/Utilities.java:64-72 | Succeeds exactly when the separator occurs once with a non-empty part after it. The two parts rebuild the string. |
| Matrix.SplitAsWritten | src/nary/Utilities.java:89-95 | The check as written accepts exactly the strings whose Java split has two parts. |
| Matrix.AsWrittenAgrees | src/nary/types/Matrix.java:34-39 | The written check agrees with "exactly one separator" except where extra separators come only with empty trailing parts. |
| Matrix.TrailingSeparator | src/nary/Utilities.java:89-95 | "a,b," passes the written check as (a, b). The intended check rejects it. |
| Matrix.Trim | src/nary/types/Matrix.java:33 | trim removes exactly the leading and trailing blanks. A string without them is unchanged. |
| Matrix.NatToStringRoundTrip | src/nary/types/Matrix.java:170-174 | The decimal digits of a natural number read back as that number. |
| Matrix.IntToStringInjective | src/nary/types/Matrix.java:170-174 | Different integers print differently. |
| Matrix.RecurseForEachValue | src/nary/types/Matrix.java:132-141 | The loop for one dimension produces exactly the tuples with that prefix in range. They come in lexicographic order, and their count is the product of the remaining sizes. |
| Matrix.CheckBottom | src/nary/types/Matrix.java:153-159 | The tuples produced are exactly those extending the given keys with indexes in range. They come in lexicographic order, and their count is the product of the remaining sizes. |
| Matrix.IndexTuples | src/nary/types/Matrix.java:119-122 | Every tuple of the product of the inclusive ranges appears, in lexicographic order with the last index fastest, each once. The count is the product of the sizes, 0 if any range is empty. |
| Matrix.VarNameInjective | src/nary/types/Matrix.java:168-176 | Different index tuples give different variable names. |
| Matrix.AsMatrixAccess | src/nary/constraints/Assignment.java:75-94 | A name not ending in "_" is returned unchanged. An empty name, or a last "_" with no partner, makes the index out of range. |
| Matrix.AccessOfVarName | src/nary/constraints/Assignment.java:75-94 | For a plain matrix name, asMatrixAccess of name_k1_..._kn_ is name[k1]...[kn]. |
| Matrix.SplitJoin | src/nary/types/Matrix.java:45-46 | Splitting a join at a separator none of the parts contains gives the parts back. |
| Matrix.JavaSplitJoin | src/nary/types/Matrix.java:45-46 | String.split gives the parts back when they are non-empty. |
| Matrix.ParseMinMax | src/nary/Utilities.java:89-114 | With the corrected split, it fails unless the bounds contain exactly one ",". Java's split would also accept a trailing "," (see "## Findings"). On success the two sides, trimmed and evaluated, are the minimum and the maximum. Every failure is an IllegalArgumentException. |
| Matrix.ParseMinMaxCut | src/nary/Utilities.java:89-114 | Given one cut at ",", the result is the pair of evaluated sides, or IllegalArgument when either evaluates to NaN. |
| Matrix.ParseLimits | src/nary/types/Matrix.java:64-72 | It succeeds exactly when every dimension parses, and then holds each dimension's (min, max) in order. |
| Matrix.ParseDeclaration | src/nary/types/Matrix.java:29-54 | With the corrected split, exactly one ":" and exactly one "of values" are required. Java's split also accepts a trailing separator (see "## Findings"). The name follows "matrix" and is trimmed, the dimensions are in square brackets, and the values parse to (min, max). Failures are IllegalArgument, or index out of range for a short head. |
| Matrix.CreateBaseVariables | src/nary/types/Matrix.java:119-177 | One unassigned variable per index tuple, with domain min..max, named name_k1_..._kn_. The names are distinct and every tuple has its variable. The call throws when there are no dimensions. |
| Matrix.Parse | src/nary/types/Matrix.java:29-54 | parse succeeds exactly when the declaration parses (with the corrected split) and has at least one dimension, and then yields one variable per index tuple. |
| Matrix.ParseRendered | src/nary/types/Matrix.java:29-54 | Parsing the printed form of a declaration gives the declaration back (a round trip). This holds for a name without ":" or surrounding blanks and an evaluator that reads integers. |
| Matrix.ParseRenderedVariables | src/nary/types/Matrix.java:29-54 | parse of a printed declaration creates exactly the variables createBaseVariables makes for it. |

## Left out

- Reading problems. Not modelled: `BinaryCSPReader`, `ECSPReader`, the `ForAll`/`Exists`/`AllDiff` expansions with their regular expressions, `Constant` and `replaceConstants`. The command-line classes, logging, printing and `toString` are not modelled either. None of them affects how a problem is solved.
- mxparser evaluation. Expression evaluation is double-precision, in a foreign library. Constraint satisfaction is the uninterpreted `sat` / `allowed`. In `parseMinMax`, evaluating a bound and casting the double to `int` is the `eval` parameter, with `None` for NaN. The cast's saturation and truncation are not modelled.
- Timing. Wall-clock timing in `SolvingAlgorithm.solve` is left out.
- HashSet iteration order. It is modelled as an unspecified choice: the value `getNextVal` / `getNextValue` yields, ties in `getSmallestDomainVariable`, and the order of the future set. `AscendingVariable`'s claim that `getNextVal` yields the minimum depends on that order and is not stated.
- `hashCode` and object identity. Identity equality of `Variable` / `BaseVariable` is reflected by keying variables by id. The insertion order of an `Assignment` is not modelled.
- Matrix keys. The `LinkedHashMap<Integer[], BaseVariable>` of `Matrix` compares its array keys by identity. The model lists all the tuples, which are distinct anyway.
- Backtracking.Search: the search is a ghost function. It picks from an unspecified iteration order, so it cannot be run.
- Variables.Range: the Java loop `for (int i = lo; i <= hi; i++)` that fills an `AscendingVariable` never ends when `hi` is `Integer.MAX_VALUE`, because `i` wraps around. The model's range lo..hi is finite for every `hi`. Unbounded integers do not show this.
- Variables.NewVariable: the same `i <= hi` loop of the `BaseVariable` constructor never ends for `hi == Integer.MAX_VALUE`. The model returns the domain lo..hi.
- Binary.NewBinaryCsp: builds its variables with the `AscendingVariable` loop, so it inherits the `Integer.MAX_VALUE` non-termination that is not modelled.
- Matrix.CreateBaseVariables: builds each variable with the `BaseVariable` constructor, so it inherits the `Integer.MAX_VALUE` non-termination that is not modelled.
- Matrix.ParseMinMax: uses the corrected split `Matrix.SplitExactlyOnce`, not Java's `split`. Java reads `"0,1,"` as min 0 and max 1. The model returns an `IllegalArgument` error. The as-written check is `Matrix.SplitAsWritten`, and the discrepancy is under "## Findings".
- Matrix.ParseDeclaration: uses the corrected split for ":" and for "of values". Java accepts a trailing separator, as in `"matrix m : [0,1] of values 0,1 of values"`. The model rejects it.
- Matrix.Parse: inherits the corrected split from `Matrix.ParseDeclaration`. It rejects the declarations with a trailing separator that Java accepts.
- Matrix.RecurseForEachValue: for an upper bound of `Integer.MAX_VALUE`, the Java loop `i <= hi` overflows and never ends. Unbounded integers do not show this.
- Nary.SolveNary: states completeness but not soundness. Soundness of n-ary solving is not proved: the model does not show that a solution `NarySolving` stores satisfies every n-ary constraint. The n-ary supports read the past assignment, so the engine's pairwise notion of satisfaction does not yield it.
- Nary.StoreValidAssignments: the table is filled from the current domains. A constraint whose `setProblem` was never called is not modelled.
- Binary.SolveBinary: soundness assumes at most one orientation is stored per pair of variables. With both orientations present, `Arc.prune` reads only one of them.
- Matrix.AsMatrixAccess: a name with a last "_" but no earlier partner makes Java call `setCharAt(-1)` and throw. The model states this as an `IndexOutOfRange` error only for the single-"_" case; other malformed names are still handled, but with no stated outcome.
- Counters. The node and revision counters are modelled as unbounded naturals, not Java `long`s.

## Findings

| source | as written | input that shows it | evidently intended | confidence | as-written member | corrected member |
|---|---|---|---|---|---|---|
| src/nary/Utilities.java:89-95 (also Utilities.java:64-72 and Matrix.java:34-39) | Splits with `String.split` and demands exactly two parts. `split` drops trailing empty strings, so an extra separator at the end passes the check. | `"0,1,"` is accepted as min 0, max 1. So is `"matrix m : [0,1] of values 0,1 of values"` for "of values". | Exactly one separator, with a value on each side | not executed | Matrix.SplitAsWritten (shown by Matrix.TrailingSeparator and Matrix.TrailingComma) | Matrix.SplitExactlyOnce (used by Matrix.ParseMinMax and Matrix.ParseDeclaration) |
