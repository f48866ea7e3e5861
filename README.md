# A verified model of a small SAT-solver workbench

This is a Dafny model of the core of a small Rust SAT-solver workbench. The workbench reads
CNF formulas in DIMACS form, solves them with several generations of solvers, keeps watch
lists for two-watched-literal propagation, generates random k-SAT instances, and aggregates
benchmark records for plotting. The model covers each of these parts:

- **DIMACS parser** (`parser.dfy`): header, literal range check, clause splitting on `0`,
  and the clause count check. It comes with a write-then-read round trip and the parser's
  own examples.
- **First solver generation** (`solver.rs` → `solver.dfy`): simplification under a partial
  assignment, unit propagation, pure-literal elimination, and the brute-force,
  backtracking and DPLL searches. Soundness and completeness are proved for the brute-force and
  backtracking searches and for the corrected DPLL search (Solver.DpllRec); the DPLL search as
  written is unsound, as shown under "## Findings".
- **Second generation: a state that carries its simplified clauses** (`solverstate.rs` →
  `reduced_state.dfy`): `assign`, pure-literal elimination, one round of unit propagation,
  and `check_assignment`.
- **Third generation: a trail-based state** (`solver_state.rs` → `trail_state.dfy`):
  - unit literals, equivalent clauses and `get_status`;
  - the trail-pushing operations, as a class with methods;
  - propagation and branching.
- **The state API of the CDCL solvers** (`search_state.dfy`): decision levels, backjumping,
  a status with unit and decision cases, and learning clauses. These solvers call it.
- **Searches over the trail state**:
  - the simple searches (`solve_simple.dfy`);
  - conflict-driven clause learning with the `ConflictingLits` cut (`solve_cdcl.dfy`);
  - first-UIP learning (`first_uip.dfy`);
  - cube-and-conquer (`cnc.dfy`).
  
  The learning invariant they share lives in `conflict.dfy`: every learned clause is
  entailed by the formula, and the level-0 trail is forced.
- **Watch lists** (`watch_list.dfy`), **random k-CNF generation** (`random.dfy`) and the
  **benchmark aggregation** of `scripts/viz.py` (`viz.dfy`).

Literals are `Lit(v, value)`: a variable numbered from 1 and the polarity that makes the
literal true. An assignment is a `map<nat, bool>`; a variable outside its keys is unassigned.

## Model

| member | source | states |
|---|---|---|
| Formula.Domain | src/solver.rs:97-104 | a variable is in the set exactly when it lies in 1..n, the variables the brute-force search assigns |
| Formula.FillUnassigned | src/solver.rs:108-112 | the filled assignment extends the input, is total on 1..n, and assigns nothing else new |
| Formula.SatisfiedExtends | src/solver.rs:108-112 | a clause list satisfied by an assignment stays satisfied under every extension, so filling a satisfying cube keeps it a model |
| Formula.FalsifiedExtends | src/solver.rs:113-114 | a falsified clause stays falsified under every extension, so pruning a falsified cube loses no model |
| Formula.FirstUnassigned | src/solver.rs:115-119 | returns an unassigned variable of 1..n, the lowest one, and None exactly when all of 1..n are assigned |
| Formula.AllAssignmentsExact | src/solver.rs:99-102 | the cartesian enumeration holds exactly the total assignments of 1..n |
| Formula.PureAssignment | src/solver.rs:21-37 | the pure assignment assigns exactly the pure variables of 1..n, each to its only polarity |
| Formula.PureAssignmentStep | src/solver.rs:21-37 | one loop round extends the pure assignment of 1..i by variable i+1 exactly when that variable is pure |
| Formula.PureOverrideKeepsModels | src/solver.rs:5-39 | overriding any model with the pure values keeps it a model (the pure-literal rule) |
| Formula.SeenPolarities | src/solver.rs:9-20 | the two flag arrays record, per variable, whether a positive and whether a negative literal occurs |
| Parser.RunLength | src/parser.rs:53-70 | the length of the longest prefix holding no separator |
| Parser.SplitRuns | src/parser.rs:53-70 | every run is non-empty and free of separators |
| Parser.SplitRunsKeepsOrder | src/parser.rs:53-70 | the runs, concatenated, are exactly the non-separator tokens in order |
| Parser.SplitJoinRoundTrip | src/parser.rs:53-70 | splitting inverts writing runs with a separator after each |
| Parser.CommentLineIgnored | src/parser.rs:11-19 | a comment line contributes no token, wherever it stands |
| Parser.ParseU32 | src/parser.rs:25-30 | any value it accepts is below 2^32 (it accepts an optional `+` and one or more digits) |
| Parser.ShowNatParses | src/parser.rs:25-30 | the u32 parser reads back the decimal numeral of every value below 2^32 |
| Parser.ParseI32 | src/parser.rs:42-52 | any value it accepts lies in the i32 range (it accepts an optional sign and one or more digits) |
| Parser.ShowIntParses | src/parser.rs:42-52 | the i32 parser reads back the numeral of every value in the i32 range |
| Parser.LitOf | src/parser.rs:53-70 | a non-zero numeral gives a literal on a positive variable whose numeral is that number |
| Parser.LitNumRoundTrip | src/parser.rs:53-70 | LitOf inverts the DIMACS numeral of every literal |
| Parser.Nums | src/parser.rs:42-52 | one integer per body token, each of magnitude at most numVars |
| Parser.ParseTokens | src/parser.rs:9-80 | InvalidHeader exactly when the header is malformed; an Ok result has the declared variable count and clauses equal to the runs of the body, every token of which is in range |
| Parser.InvalidLiteralRejects | src/parser.rs:42-52 | any body token outside the declared variable range rejects the whole input |
| Parser.ParsedWellFormed | src/parser.rs:53-79 | every parsed clause is non-empty and names only declared variables |
| Parser.ParseDimacsLines | src/parser.rs:9-80 | a written DIMACS text with in-range literals reads back as the clauses written; the clause count alone decides between Ok and IncorrectClauseCount; out-of-range literals give InvalidLiteral |
| Parser.ParseDimacs | src/parser.rs:9-80 | an Ok result is a well-formed formula whose clauses are all non-empty |
| Parser.ParseAfterHeader | src/parser.rs:22-39 | after a well-formed header, the body alone decides the outcome |
| Parser.ParseWrittenTokens | src/parser.rs:42-79 | the token stream of a written text parses to its clauses, or to the clause count error |
| Parser.ParseNormalExample | src/parser.rs:108-180 | the parser's normal example reads as its five clauses over five variables |
| Parser.ParseOutOfBoundsExample | src/parser.rs:87-91 | a literal -4 with 3 declared variables is InvalidLiteral |
| Parser.ParseTooFewExample | src/parser.rs:94-98 | fewer clauses than declared is IncorrectClauseCount |
| Parser.ParseTooManyExample | src/parser.rs:101-105 | more clauses than declared is IncorrectClauseCount |
| Solver.Unassigned | src/solver.rs:76-84 | keeps exactly the literals whose variable is unassigned |
| Solver.ReduceClause | src/solver.rs:76-84 | the loop reports a true literal exactly when the clause has one; otherwise it collects the unassigned literals in order |
| Solver.ApplyAssignment | src/solver.rs:66-95 | the loop returns the formula with numVars kept and the clauses reduced under the assignment |
| Solver.ReducedEmptyIff | src/solver.rs:66-95 | the reduction is empty exactly when the assignment satisfies every clause |
| Solver.ReducedLiterals | src/solver.rs:66-95 | every remaining literal is unassigned and occurred in the input |
| Solver.ReducedVars | src/solver.rs:66-95 | the reduced formula mentions only variables of the input, none of them assigned |
| Solver.ReducedKeepsModels | src/solver.rs:66-95 | an extension of the assignment satisfies the reduced clauses exactly when it satisfies the original ones |
| Solver.ReducedFalsifiedIff | src/solver.rs:66-95 | some clause is emptied exactly when the assignment falsifies some clause |
| Solver.ReducedTwice | src/solver.rs:51-62 | reducing under an assignment and then under an extension of it equals reducing once under the extension, which justifies re-reducing inside the propagation loop |
| Solver.ReducedUntouched | src/solver.rs:66-95 | clauses that mention no assigned variable are unchanged |
| Solver.ReducedAgree | src/solver.rs:66-95 | the reduction depends only on the values of variables that occur |
| Solver.FirstUnit | src/solver.rs:44-46 | the literal of the first clause of length one, and None exactly when no clause has length one |
| Solver.Propagated | src/solver.rs:41-64 | the propagation fixpoint extends the input assignment and assigns only variables of the clauses |
| Solver.UnitPropagate | src/solver.rs:41-64 | returns the propagation fixpoint and the input reduced under it |
| Solver.PropagatedStops | src/solver.rs:51-62 | at the fixpoint the reduced formula is satisfied, falsified, or has no unit clause |
| Solver.PropagatedKeepsModels | src/solver.rs:41-64 | every model extending the input assignment extends the propagated one |
| Solver.PureLiteralEliminate | src/solver.rs:5-39 | returns the input assignment overridden with the pure values of 1..numVars, and the input reduced under that assignment |
| Solver.FirstSatisfying | src/solver.rs:97-104 | the index of the first candidate under which the reduction is satisfied, and None only when there is none |
| Solver.SolveBasicCorrect | src/solver.rs:97-104 | solve_basic finds a model exactly when a total model of 1..numVars exists; the result is total, a model, and the first in cartesian order |
| Solver.SolveBasic | src/solver.rs:97-104 | a returned assignment assigns exactly 1..numVars and satisfies every clause |
| Solver.BacktrackRec | src/solver.rs:108-120 | any result extends the cube and is total on 1..n |
| Solver.BacktrackSound | src/solver.rs:108-120 | any result satisfies the clauses |
| Solver.UndecidedHasUnassigned | src/solver.rs:115-119 | an open reduced formula leaves a variable of 1..n to branch on |
| Solver.BacktrackComplete | src/solver.rs:108-120 | a model of 1..n extending the cube makes the search return a result |
| Solver.SolveBacktrackCorrect | src/solver.rs:106-123 | a returned assignment is total and a model; on a well-formed formula, None exactly when no model exists |
| Solver.SolveBacktrack | src/solver.rs:106-123 | a returned assignment covers 1..numVars and satisfies every clause |
| Solver.DpllRecAsWritten | src/solver.rs:127-139 | the search as written: any result extends the cube and is total on 1..n |
| Solver.DpllRec | src/solver.rs:127-139 | the corrected search: any result extends the cube and is total on 1..n |
| Solver.DpllSound | src/solver.rs:127-139 | any result of the corrected search satisfies the clauses and extends the propagated cube |
| Solver.DpllComplete | src/solver.rs:127-139 | a model of 1..n extending the cube makes the corrected search return a result |
| Solver.SolveDpllCorrect | src/solver.rs:125-143 | corrected solve_dpll: a returned assignment is total and a model; None exactly when no model exists |
| Solver.SolveDpll | src/solver.rs:125-143 | corrected solve_dpll: a returned assignment covers 1..numVars, keeps the pure values and satisfies every clause |
| Solver.SolveDpllAsWritten | src/solver.rs:125-143 | solve_dpll as written: a returned assignment covers 1..numVars and keeps the pure values; it need not be a model (see "## Findings") |
| ReducedState.FromCnf | src/solverstate.rs:11-17 | the state is valid exactly when the formula is well formed, and its models are exactly the formula's |
| ReducedState.DropVar | src/solverstate.rs:26-48 | keeps exactly the literals on other variables, in order |
| ReducedState.Assigned | src/solverstate.rs:26-48 | numVars kept, the variable set, the clauses containing the literal removed, the others without literals on the variable |
| ReducedState.AssignClausesIsReduced | src/solverstate.rs:26-48 | assign agrees with apply_assignment under the one-variable assignment |
| ReducedState.Assign | src/solverstate.rs:26-48 | the loop over the clauses returns the state Assigned describes |
| ReducedState.AssignedValid | src/solverstate.rs:26-48 | assign keeps the state invariant: every literal is on an open variable of 1..numVars |
| ReducedState.AssignedKeepsModels | src/solverstate.rs:26-48 | an assignment extending the new one satisfies the new clauses exactly when it satisfies the old ones |
| ReducedState.ReducedThenAssign | src/solverstate.rs:26-48 | assigning a variable on top of a reduced state is reducing the original clauses under the larger assignment |
| ReducedState.PureLiteralEliminate | src/solverstate.rs:51-83 | the result's assignment is the old one plus the pure values, and its clauses are the input reduced under the pure assignment |
| ReducedState.AssignPure | src/solverstate.rs:62-82 | the assignment loop over the collected polarities reaches the same state |
| ReducedState.UnitPropagate | src/solverstate.rs:85-99 | nothing exactly when the state is satisfied, falsified, or has no unit clause; otherwise the first unit literal and the state assigned to satisfy it |
| ReducedState.UnitPropagateKeepsModels | src/solverstate.rs:85-99 | every model extending the assignment makes the propagated literal true and is a model of the new state |
| ReducedState.UcpExample | src/solverstate.rs:118-131 | test_ucp: on (1 2) (-1 -2) (1) (3 4), one round returns the literal 1, the assignment {1: true} and the clauses (-2) (3 4) |
| ReducedState.PleExample | src/solverstate.rs:133-141 | test_ple: only variable 1 is pure, and the clauses left are (3 4) (3 -4) (-3) |
| ReducedState.CheckAssignmentProperties | src/solverstate.rs:101-111 | an empty clause makes the check false; it agrees with apply_assignment being satisfied; it survives extension |
| TrailState.UnitLiteral | src/solver_state.rs:22-33 | nothing when a literal is true; otherwise the literal at the only unassigned position |
| TrailState.UnitLiteralIff | src/solver_state.rs:22-33 | Some(l) exactly when no literal is true and l is the only unassigned literal |
| TrailState.GetUnitLiteral | src/solver_state.rs:22-33 | the loop returns UnitLiteral |
| TrailState.EquivalentClause | src/solver_state.rs:8-20 | nothing for a satisfied clause, otherwise its unassigned literals in order |
| TrailState.EquivalentClausesAreReduced | src/solver_state.rs:73-80 | the equivalent clauses are exactly what apply_assignment keeps |
| TrailState.EquivalentClauses | src/solver_state.rs:73-80 | at most one clause per input clause, and only literals the assignment leaves open |
| TrailState.StatusOfMeaning | src/solver_state.rs:82-99 | Satisfied exactly when check_assignment holds; Falsified names a clause of the formula whose literals are all false; Unassigned names an open literal of an unsatisfied clause |
| TrailState.StatusOf | src/solver_state.rs:82-99 | an Unassigned status names a literal the assignment leaves open |
| TrailState.ScanClause | src/solver_state.rs:86-97 | reports a true literal exactly when there is one, else the last unassigned literal |
| TrailState.GetStatus | src/solver_state.rs:82-99 | the labelled loop computes the status |
| TrailState.FirstUnitClause | src/solver_state.rs:154-160 | the first clause with a unit literal, with that literal; None when no clause has one |
| TrailState.LastDecision | src/solver_state.rs:121-130 | the largest trail index holding a decision, with that decision's snapshot; None when there is none |
| TrailState.PureTrailDecisions | src/solver_state.rs:132-152 | only decisions are pushed, each on a pure variable of 1..i, set to its polarity |
| TrailState.PureTrailComplete | src/solver_state.rs:132-152 | every pure variable of 1..i is decided |
| TrailState.PureTrailIncreasing | src/solver_state.rs:132-152 | the decisions come in increasing variable order |
| TrailState.Propagate | src/solver_state.rs:162-170 | the propagated assignment extends the input |
| TrailState.PropagateStops | src/solver_state.rs:162-170 | propagation stops where the status is not Unassigned or no unit literal remains |
| TrailState.PropagateJustified | src/solver_state.rs:162-170 | every pushed element has a formula clause containing its literal as reason, the literal is true at the end, and the i-th literal is the unit literal of its clause under the input assignment plus the first i pushed literals |
| TrailState.PropagateInOrder | src/solver_state.rs:162-170 | the i-th pushed literal is the unit literal of its reason clause in the assignment reached just before it |
| TrailState.PropagateTwice | src/solver_state.rs:162-170 | two unit steps followed by a state with no unit clause push exactly those two literals with their clauses |
| TrailState.UcpExample | src/solver_state.rs:198-244 | test_ucp: from the empty assignment the trail is x1 (reason (x1)) then ¬x2 (reason (¬x1 ∨ ¬x2)), and the only equivalent clause left is (x3 ∨ x4) |
| TrailState.PleExample | src/solver_state.rs:246-255 | test_ple: pure-literal elimination sets only x1 True, and the equivalent clauses are the last three clauses unchanged |
| TrailState.PleOccurs | src/solver_state.rs:246-255 | in the test_ple formula x1 occurs only positively, x2, x3 and x4 in both polarities, x5 not at all |
| TrailState.UnitLiteralForced | src/solver_state.rs:22-33 | a unit literal is true in every model extending the assignment |
| TrailState.PropagateKeepsModels | src/solver_state.rs:162-170 | every model extending the assignment extends the propagated one |
| TrailState.SolverState.FromCnf | src/solver_state.rs:64-70 | the formula, the blank assignment and an empty trail |
| TrailState.SolverState.Decide | src/solver_state.rs:101-107 | pushes a decision carrying the old assignment as snapshot and sets the variable |
| TrailState.SolverState.AssignUnitprop | src/solver_state.rs:109-115 | pushes the literal with its reason clause and sets the variable |
| TrailState.SolverState.LearnClause | src/solver_state.rs:117-119 | appends one clause; nothing else changes |
| TrailState.SolverState.PureLiteralEliminate | src/solver_state.rs:132-152 | the assignment gains exactly the pure values, and the trail gains the pure decisions in order |
| TrailState.SolverState.GetUnitClause | src/solver_state.rs:154-160 | returns FirstUnitClause |
| TrailState.SolverState.UnitPropagate | src/solver_state.rs:162-170 | the new assignment and trail are those of Propagate |
| TrailState.SolverState.GetStatusOf | src/solver_state.rs:82-99 | returns the status of the current clauses and assignment |
| TrailState.BranchOnVariable | src/solver_state.rs:173-179 | two states deciding the variable True and False; the input state becomes the False one |
| SearchState.LevelOf | src/solve_cdcl.rs:43-51 | Some exactly when the trail assigns the variable, and then at most the current decision level |
| SearchState.PushStep | src/solver_state.rs:101-115 | pushing a step assigns its literal's value |
| SearchState.Decide | src/solve_cdcl.rs:92-96 | pushes a decision and sets the variable; the decision level rises by one; validity is kept |
| SearchState.AssignUnitprop | src/solve_cdcl.rs:97-101 | pushes the literal with its reason clause and sets the variable; the level stays; validity is kept |
| SearchState.LearnClause | src/solve_cdcl.rs:131 | appends exactly one clause; nothing else changes |
| SearchState.KeepLevels | src/solve_cdcl.rs:132 | a prefix of the trail at level min(level, k), cut just before a decision |
| SearchState.Backjump | src/solve_cdcl.rs:132 | clauses kept, trail cut to the kept prefix, level at most k, state valid |
| SearchState.StatusOf | src/solve_cdcl.rs:88-113 | the status names a falsified clause, or a unit clause and literal, or an open literal to decide, or Satisfied |
| SearchState.StatusMeaning | src/solve_cdcl.rs:88-113 | Satisfied exactly when every clause has a true literal; Falsified exactly when some clause is falsified; a unit status exactly when none is falsified and some clause has a unit literal; a decision only when no clause has one |
| SearchState.UnitPropagated | src/solve_cdcl_first_uip.rs:12 | stops at a status that is not a unit; the trail grows by unit-propagated steps only; the level and validity are kept |
| SearchState.PureLiteralEliminate | src/solve_simple.rs:52-53 | clauses kept; the assignment becomes the old one overridden with the pure values; validity is kept |
| SearchState.PureStepsMap | src/solver_state.rs:132-152 | the pure decisions spell out exactly the pure assignment |
| SearchState.BranchOnVariable | src/solver_state.rs:173-179 | the two states decide the variable True and False |
| SearchState.FromCnf | src/solve_cdcl.rs:148 | the blank assignment at level 0, in a valid state |
| SolveSimple.FirstModel | src/solve_simple.rs:4-12 | the first candidate that check_assignment accepts |
| SolveSimple.SolveBasicCorrect | src/solve_simple.rs:4-12 | satisfiable exactly when a total model exists, and the result is the first model in cartesian order |
| SolveSimple.SolveBasic | src/solve_simple.rs:4-12 | never a proof of unsatisfiability; a Satisfiable result assigns exactly 1..numVars and is a model |
| SolveSimple.BacktrackRec | src/solve_simple.rs:16-28 | never UnsatisfiableWithProof; a Satisfiable result extends the state's assignment and is total |
| SolveSimple.BacktrackSound | src/solve_simple.rs:16-28 | a Satisfiable result is a model of the state's clauses |
| SolveSimple.BacktrackComplete | src/solve_simple.rs:16-28 | a model of 1..numVars extending the trail makes the search satisfiable |
| SolveSimple.SolveBacktrackCorrect | src/solve_simple.rs:14-31 | Satisfiable results are total models; Unsatisfiable exactly when no model exists |
| SolveSimple.SolveBacktrack | src/solve_simple.rs:14-31 | never a proof of unsatisfiability; a Satisfiable result is complete over 1..numVars and is a model |
| SolveSimple.DpllRec | src/solve_simple.rs:35-51 | never UnsatisfiableWithProof; a Satisfiable result extends the state's assignment and is total |
| SolveSimple.DpllSound | src/solve_simple.rs:35-51 | a Satisfiable result is a model of the state's clauses |
| SolveSimple.DpllComplete | src/solve_simple.rs:35-51 | a model of 1..numVars extending the trail makes the search satisfiable |
| SolveSimple.SolveDpllCorrect | src/solve_simple.rs:33-55 | Satisfiable results are total models; Unsatisfiable exactly when no model exists, including after pure-literal elimination |
| SolveSimple.SolveDpll | src/solve_simple.rs:33-55 | never a proof of unsatisfiability; a Satisfiable result is complete over 1..numVars and is a model |
| SolveSimple.SearchesFindModel | src/solve_simple.rs:62-105 | with a model, all three searches return a total model |
| SolveSimple.SearchesFindNone | src/solve_simple.rs:62-105 | without a model, all three searches are unsatisfiable |
| SolveSimple.SatExampleSolved | src/solve_simple.rs:62-98 | the satisfiable test formula gives a total model from each search |
| SolveSimple.UnsatExampleRejected | src/solve_simple.rs:72-105 | the unsatisfiable test formula is rejected by each search |
| ConflictAnalysis.InitialCut | src/solve_cdcl.rs:15-24 | the negations of the falsified clause's literals |
| ConflictAnalysis.Antecedents | src/solve_cdcl.rs:53-69 | the negations of the reason clause's literals on other variables |
| ConflictAnalysis.InitialCutEntailed | src/solve_cdcl.rs:15-24 | the cut of a falsified formula clause is sound: no model makes all its literals true |
| ConflictAnalysis.MoveCutEntailed | src/solve_cdcl.rs:53-69 | moving the cut past a propagated element whose reason is a formula clause keeps it sound |
| ConflictAnalysis.LearnedEntailed | src/solve_cdcl.rs:37-41 | the clause of the negated cut literals is satisfied by every model of the formula |
| ConflictAnalysis.SearchInvStart | src/solve_cdcl.rs:147-150 | the blank state starts the search invariant |
| ConflictAnalysis.DecideKeeps | src/solve_cdcl.rs:92-96 | a decision keeps the invariant |
| ConflictAnalysis.UnitKeeps | src/solve_cdcl.rs:97-101 | assigning the reported unit literal keeps the invariant |
| ConflictAnalysis.UnitPropagatedKeeps | src/solve_cdcl_first_uip.rs:12 | unit propagation keeps the invariant |
| ConflictAnalysis.LearnBackjumpKeeps | src/solve_cdcl.rs:126-132 | learning an entailed clause and backjumping keeps the invariant and the models |
| ConflictAnalysis.SatisfiedResult | src/solve_cdcl.rs:89-91 | a satisfied state gives a total model of the original formula |
| ConflictAnalysis.Level0Conflict | src/solve_cdcl.rs:114-116 | a clause falsified at level 0 means the original formula has no model |
| SolveCdcl.SortedInsert | src/solve_cdcl.rs:43-46 | the set of pairs gains exactly the element and stays strictly sorted |
| SolveCdcl.SortedRemove | src/solve_cdcl.rs:48-51 | the set of pairs loses exactly the element and stays strictly sorted |
| SolveCdcl.Lits | src/solve_cdcl.rs:37-41 | the literals of the pairs |
| SolveCdcl.ConflictingLits.Insert | src/solve_cdcl.rs:43-46 | adds the literal with its variable's level; fails (the unwrap panics) when it is unassigned |
| SolveCdcl.ConflictingLits.Remove | src/solve_cdcl.rs:48-51 | drops the pair of the literal with its level; fails when it is unassigned |
| SolveCdcl.ConflictingLits.Update | src/solve_cdcl.rs:53-69 | the cut becomes the old cut plus the antecedents, minus the element's literal; fails on a decision or a failed check |
| SolveCdcl.ConflictingLits.AddReasonClause | src/solve_cdcl.rs:57-67 | adds every antecedent; fails exactly when a literal fails the check |
| SolveCdcl.ConflictingLits.GetBackjumpLevel | src/solve_cdcl.rs:26-35 | Some exactly when the highest pair is at the current level (otherwise the unwrap panics); the result is at most the current level, and equals it exactly when another pair is at the current level |
| SolveCdcl.ConflictingLits.GetLearnedClause | src/solve_cdcl.rs:37-41 | the negation of every literal of the set, in the set's order |
| SolveCdcl.ConflictingLits.New | src/solve_cdcl.rs:15-24 | the cut holds exactly the negations of the falsified clause's literals, each with its level, and the state is the one given |
| SolveCdcl.AnalyzeConflict | src/solve_cdcl.rs:118-141 | a learned clause is entailed by the formula, the backjump level is below the current one, and the clause is asserting at that level |
| SolveCdcl.LearnedFromCut | src/solve_cdcl.rs:122-132 | a clause learned from a sound sorted cut is entailed and has exactly one literal at the current level |
| SolveCdcl.LearnedShape | src/solve_cdcl.rs:122-132 | a clause read off a sorted cut whose last pair alone is at the current level is asserting at the next-highest level |
| SolveCdcl.SolveCdclFromState | src/solve_cdcl.rs:85-145 | a Satisfiable result is a total model of the original clauses; UnsatisfiableWithProof returns the original clauses plus learned ones with the same models, and no model exists |
| SolveCdcl.SolveCdcl | src/solve_cdcl.rs:147-150 | from the blank state: a Satisfiable result is a total model of the formula, and UnsatisfiableWithProof means it has no model |
| SolveCdcl.SatExampleCdcl | src/solve_cdcl.rs:157-165 | when the loop finishes within the fuel, the satisfiable test formula returns a total model |
| SolveCdcl.UnsatExampleCdcl | src/solve_cdcl.rs:166-170 | when the loop finishes within the fuel, the unsatisfiable test formula gives UnsatisfiableWithProof |
| FirstUip.Elements | src/solve_cdcl_first_uip.rs:42-46 | every element of the set exactly once |
| FirstUip.CutLevels | src/solve_cdcl_first_uip.rs:42-46 | the level of each literal in order; None when one is unassigned |
| FirstUip.CountLevel | src/solve_cdcl_first_uip.rs:47-64 | the number of entries equal to k: its multiplicity in the levels |
| FirstUip.SortDescending | src/solve_cdcl_first_uip.rs:75-77 | a non-increasing permutation of the levels |
| FirstUip.InsertDescending | src/solve_cdcl_first_uip.rs:75-77 | inserting keeps the sequence non-increasing and adds exactly the element |
| FirstUip.BackjumpLevel | src/solve_cdcl_first_uip.rs:75-83 | 0 with fewer than two levels; otherwise one of the levels (the second entry once sorted in decreasing order) |
| FirstUip.SortedTop | src/solve_cdcl_first_uip.rs:75-83 | with one entry at the current level, the sorted levels start with it and the second entry is lower |
| FirstUip.UipLevels | src/solve_cdcl_first_uip.rs:66-83 | the backjump level is below the current level, and every other entry is at most it |
| FirstUip.UipClause | src/solve_cdcl_first_uip.rs:69-73 | the learned clause has one literal at the current level and the rest at most at the backjump level |
| FirstUip.AddAntecedents | src/solve_cdcl_first_uip.rs:98-114 | fails exactly when a literal on the element's variable has the other value; otherwise the cut gains exactly the antecedents |
| FirstUip.AnalyzeFirstUip | src/solve_cdcl_first_uip.rs:34-114 | a learned clause is entailed by the formula and has the first-UIP shape: one literal at the current level, the rest at most at the backjump level, which is below it |
| FirstUip.SolveFirstUipFromState | src/solve_cdcl_first_uip.rs:8-119 | Some is a total model; None means no model exists |
| FirstUip.SolveFirstUip | src/solve_cdcl_first_uip.rs:121-124 | the same for the search from the blank state |
| FirstUip.SatExampleFirstUip | src/solve_cdcl_first_uip.rs:131-137 | when the loop finishes within the fuel, the satisfiable test formula returns a total model |
| FirstUip.UnsatExampleFirstUip | src/solve_cdcl_first_uip.rs:138-142 | when the loop finishes within the fuel, the unsatisfiable test formula returns None |
| Cnc.AssignClausesDrops | src/solve_cnc.rs:10-13 | assigning a clause's literal removes at least that clause |
| Cnc.UnitStep | src/solve_cnc.rs:10-13 | one round shrinks the clause list, keeps the state valid, and keeps exactly the models that make the literal true |
| Cnc.AssignedModels | src/solverstate.rs:26-48 | the models of the assigned state are those of the old state that make the literal true |
| Cnc.Propagate | src/solve_cnc.rs:10-13 | the loop ends where unit_propagate finds nothing; the state stays valid with the same models; the trail grows by propagated literals that are now true |
| Cnc.OpenStateHasVariable | src/solve_cnc.rs:18-19 | an open valid state leaves a variable of 1..numVars unassigned, so the unwrap cannot panic |
| Cnc.CncRec | src/solve_cnc.rs:7-57 | with a sound `conquer`, a result is a total model; with a complete one, None means no model |
| Cnc.SolveCnc | src/solve_cnc.rs:5-68 | a result is a total model of the formula; with a complete `conquer`, None means no model |
| Cnc.PureEliminated | src/solve_cnc.rs:59-61 | after pure-literal elimination the state is valid; its models are models of the formula, and every model of the formula has a counterpart model of it |
| WatchLists.WatchIndexSlots | src/watch_list.rs:18-31 | SlotLit inverts the slot map, and a literal's slot is among the 2n lists `new` creates exactly when its variable is at most n |
| WatchLists.WatchIndexInjective | src/watch_list.rs:25-31 | the slot map is injective and onto |
| WatchLists.WatchIndex | src/watch_list.rs:25-31 | the slot of a literal maps back to that literal through SlotLit, and lies below 2·v |
| WatchLists.WatchList.CachedStatus | src/watch_list.rs:56-58 | returns the cached status and changes nothing; what that status means is stated by UpdateForAssignment |
| WatchLists.EntriesUpdate | src/watch_list.rs:102-108 | replacing one list swaps its watches for those of the new list |
| WatchLists.Push | src/watch_list.rs:38-52 | the table gains exactly the pushed watch |
| WatchLists.SwapRemove | src/watch_list.rs:103 | the last element takes the removed one's place; the multiset loses exactly that element |
| WatchLists.AddedWatchesSound | src/watch_list.rs:33-54 | the table stays sound and gains exactly one watch for a unit clause (blocked by itself) or two for a longer one (each blocked by the other watched literal) |
| WatchLists.PushSound | src/watch_list.rs:104-107 | pushing a fitting watch keeps the table sound |
| WatchLists.RemoveSound | src/watch_list.rs:103 | removing a watch keeps the table sound |
| WatchLists.FindNewWatch | src/watch_list.rs:89-100 | finds the first literal that is neither the negated nor the blocking literal and is not false, or reports that none exists |
| WatchLists.NoReplacementFalsified | src/watch_list.rs:112-115 | no replacement and a false blocking literal: the clause is falsified |
| WatchLists.NoReplacementUnit | src/watch_list.rs:116-121 | no replacement and an open blocking literal: the clause is unit on it |
| WatchLists.MoveEntries | src/watch_list.rs:102-108 | moving a watch between slots keeps the table's watches |
| WatchLists.MoveWatch | src/watch_list.rs:102-108 | moving to the slot of a replacement literal keeps the table's watches and its soundness |
| WatchLists.WatchList.New | src/watch_list.rs:18-23 | 2·numVars empty lists and no cached status |
| WatchLists.WatchList.AddClause | src/watch_list.rs:33-54 | the table becomes AddedWatches; an empty clause is refused |
| WatchLists.WatchList.ClearStatus | src/watch_list.rs:60-62 | the cached status becomes None; the watches are unchanged |
| WatchLists.WatchList.UpdateForAssignment | src/watch_list.rs:64-126 | the table keeps its watches and its soundness, and only the negated literal's list loses watches; every watch another list gained came from the negated literal's list, keeps its blocking literal, and sits on a replacement literal (not the negated literal, not the blocking literal, not false); every watch with a true blocking literal stays on the negated literal's list; a cached Falsified names a falsified clause, a cached unit a clause that is unit on its literal; unless a falsified clause was found, every watch left on the negated literal is settled |
| WatchLists.WatchList.ScanWatch | src/watch_list.rs:77-124 | one turn of the scan keeps the watches, their soundness and the cached-status meaning, and keeps MovedFrom: moved watches sit on replacement literals and true-blocked watches stay; it stops exactly when a falsified clause is cached, and otherwise the settled prefix grows or the list shrinks |
| WatchLists.MovedFromStep | src/watch_list.rs:89-108 | moving a watch whose blocking literal is not true to the slot of a replacement literal keeps MovedFrom |
| WatchLists.WatchList.Relocate | src/watch_list.rs:102-108 | swap_remove then push: the watch moves to the replacement slot |
| RandomCnf.GenerateRandomCnf | src/random.rs:5-24 | None exactly when k > n; otherwise n variables and l clauses, each with k literals on distinct variables of 1..n |
| RandomCnf.GenerateRandomClause | src/random.rs:26-47 | k literals on distinct variables of 1..n |
| RandomCnf.FreshVariable | src/random.rs:30-32 | a set of fewer than n variables of 1..n misses one, so the drawing loop can continue |
| RandomCnf.DomainSize | src/random.rs:30-32 | the variables 1..n number n |
| RandomCnf.DistinctVarsSize | src/random.rs:66-83 | literals on distinct variables mention as many variables as there are literals |
| RandomCnf.FullClause | src/random.rs:102-108 | with k = n, a clause mentions every variable of 1..n exactly once |
| Viz.Ratios | scripts/viz.py:25-33 | one ratio l/n per record, in order |
| Viz.KeyIndex | scripts/viz.py:31 | the position of the group keyed by the ratio, and None exactly when there is no such group |
| Viz.GroupByRatio | scripts/viz.py:25-33 | None exactly when some record has n = 0; otherwise groups keyed by the distinct ratios in first-seen order, each holding the records of its ratio in input order |
| Viz.AddToGroup | scripts/viz.py:31 | a record whose ratio already has a group is appended to that group |
| Viz.NewGroup | scripts/viz.py:31 | a record with a new ratio opens a group at the end |
| Viz.DedupMembers | scripts/viz.py:25-33 | the keys are exactly the ratios present |
| Viz.DedupDistinct | scripts/viz.py:25-33 | no key is repeated |
| Viz.FilterHolds | scripts/viz.py:25-33 | every record lands in the group of its ratio |
| Viz.FilterOnly | scripts/viz.py:25-33 | a group holds only records of its ratio |
| Viz.GroupsPartition | scripts/viz.py:25-33 | the groups partition the records: distinct keys, no empty group, each record in exactly its ratio's group |
| Viz.DurationSumBounds | scripts/viz.py:46 | the duration sum lies between n·min and n·max |
| Viz.CalculateMetrics | scripts/viz.py:36-55 | one entry per group, index-aligned: its ratio, its mean duration and its fraction of satisfiable records |
| Viz.FractionBounds | scripts/viz.py:49 | the satisfiable fraction lies in [0, 1] |
| Viz.MeanBetween | scripts/viz.py:46 | the mean duration lies between the group's least and greatest duration |
| SolverExamples.DpllAsWrittenUnsound | src/solver.rs:127-139 | on (1) (-1 2 3) (-2 -3), the search as written returns {1: false, 2: false, 3: true}, which falsifies the clause (1) |
| SolverExamples.BadModels | src/solver.rs:127-139 | the returned assignment is not a model of the formula |
| SolverExamples.SolversFindModel | src/solver.rs:145-197 | with a model, the basic, backtracking and corrected DPLL searches each return a total model |
| SolverExamples.SolversFindNone | src/solver.rs:145-197 | without a model, all three return None |
| SolverExamples.SatModel | src/solver.rs:152-158 | the satisfiable test formula has a model |
| SolverExamples.UnsatNoModel | src/solver.rs:161-165 | the unsatisfiable test formula has no model |
| SolverExamples.SatExampleSolved | src/solver.rs:152-191 | the basic, backtracking and corrected DPLL searches, and the DPLL search as written that test_solve_dpll_sat calls, each return an assignment covering 1..5 that satisfies the satisfiable test formula |
| SolverExamples.DpllAsWrittenSatExample | src/solver.rs:183-189 | the DPLL search as written returns a model of the satisfiable test formula: the pure values of 1 and 3 already satisfy every clause |
| SolverExamples.DpllAsWrittenPureSolves | src/solver.rs:127-143 | when the pure assignment satisfies every clause, the search as written returns a model |
| SolverExamples.UnsatExampleRejected | src/solver.rs:161-197 | the basic, backtracking and corrected DPLL searches, and the DPLL search as written that test_solve_dpll_unsat calls, each return None on the unsatisfiable test formula |
| SolverExamples.DpllAsWrittenUnsatExample | src/solver.rs:191-197 | the DPLL search as written returns None on the unsatisfiable test formula |
| SolverExamples.UnsatLow | src/solver.rs:127-139 | in the branch 1 := false, propagating 2 := true falsifies (1 -2) and the search gives up |
| SolverExamples.UnsatHigh | src/solver.rs:127-139 | in the branch 1 := true, propagating 3 := false and 4 := true falsifies (3 -4) and the search gives up |
| SolverExamples.ReducedFirstUnit | src/solver.rs:44-46 | the first unit of a simplified formula is the literal left by the first clause that simplifies to one literal |
| SolverExamples.PropagatedUnitAt | src/solver.rs:51-58 | with no clause falsified, propagation assigns the literal of the first clause that simplifies to a unit |
| SolverExamples.DpllAsWrittenFails | src/solver.rs:127-133 | once propagation falsifies a clause, the search as written returns None |

## Left out

- The Assignment type (`set`, `get`, `fill_unassigned`, `get_unassigned_var`, `from_vector`) is not part of this model's sources; `src/formula.rs` holds only an older form of the types. Its behaviour is reconstructed from how the solvers call it.
- Formula.FillUnassigned: gives every unassigned variable the value `false`. Which value the source's filler picks is not known, and the contracts do not depend on it.
- Formula.FirstUnassigned: picks the lowest unassigned variable. The source only promises some unassigned variable.
- The state API that the CDCL, first-UIP and cube-and-conquer solvers call (decision levels, backjumping, a status with unit and decision cases, the `CdclState` wrapper) differs from the one in `src/solver_state.rs`. SearchState rebuilds it from those callers.
- `solve_cdcl_from_cdcl_state`, which the cube-and-conquer leaves call, is not part of this model's sources. Cnc.CncRec and Cnc.SolveCnc take it as the `conquer` parameter, with its soundness and completeness as hypotheses.
- SolveCdcl.SolveCdclFromState and FirstUip.SolveFirstUipFromState run at most `fuel` iterations of the main loop and report running out of fuel. Termination of the CDCL loop is not proved.
- SolveCdcl.SatExampleCdcl, SolveCdcl.UnsatExampleCdcl, FirstUip.SatExampleFirstUip and FirstUip.UnsatExampleFirstUip: these state the test outcomes only for runs that finish within the fuel.
- The panics of `unwrap`, `unreachable!` and `panic!` become an error outcome: `ok == false`, None, or Panicked.
- Iteration order of a HashSet (first-UIP cut) and of a BTreeSet (CDCL cut): the hash set is iterated in an arbitrary order (FirstUip.Elements). The ordered set is a strictly sorted sequence of (level, literal) pairs; the literal order inside a level is the model's own order, not Rust's derived Ord.
- FirstUip.SortDescending: `sort_unstable` followed by `reverse` is modelled as a function giving a non-increasing permutation, not as the in-place sort.
- RandomCnf.GenerateRandomCnf and RandomCnf.GenerateRandomClause: each random draw is an arbitrary choice (`:|`) among the allowed values, so the contracts hold for every sequence of draws. The draw of a variable already chosen is rejected and drawn again, and only accepted draws are modelled, so termination of the rejection loop relies on FreshVariable.
- Viz: floating-point division is modelled as exact division over reals. Reading records, `create_plots`, `main` and the plotting are left out.
- The parser reads lines through `map_while(Result::ok)`, which stops at the first I/O error. The model starts from the lines read. An I/O error from the reader is left out.
- u32, i32 and usize widths appear only where the parser checks ranges. The solvers use unbounded integers, because counts never approach those limits in the model.
- Rust's `.or` in `solve_cnc_rec` evaluates both branches eagerly. The model returns the same value, the first result if there is one, without modelling the cost of the second search.
- WatchLists.WatchList.UpdateForAssignment: does not state that the first unit clause found is the one cached, only that any cached unit status is a real unit clause.
- Cnc.CubeReason: a propagated step on a cube's trail carries no reason clause. The `unit_propagate` that `solve_cnc_rec` calls, which builds those trail elements, is not part of this model's sources, and no modelled code reads the reason of a propagated cube step.
- The `Vec<Vec<Watch>>` of the watch lists is a `seq<seq<Watch>>` field that the methods reassign, not an in-place vector of vectors.
- Logging (`info!`), the `Display` implementations, `src/main.rs` and `src/bin/` are left out; they only print.
- Solver.DpllRecAsWritten: the search as written is modelled faithfully, and SolverExamples.DpllAsWrittenUnsound shows it unsound. The soundness and completeness lemmas are stated for the corrected Solver.DpllRec.

## Findings

| source | as written | input that shows it | evidently intended | confidence | as-written member | corrected member |
|---|---|---|---|---|---|---|
| src/solver.rs:134 | after unit propagation, `solve_dpll_rec` picks the branching variable from the cube it was called with, not from the propagated assignment, and the branch assignment overrides a propagated value | `p cnf 3 3` with clauses (1), (-1 2 3), (-2 -3): propagation sets 1 true, the False branch sets 1 false, and the search returns {1: false, 2: false, 3: true}, which falsifies (1) | branch on a variable that the propagated assignment leaves unassigned | not executed | SolverExamples.DpllAsWrittenUnsound | Solver.SolveDpllCorrect |
