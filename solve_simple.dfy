/**
 * The three simple searches of src/solve_simple.rs, over the trail-based
 * solver state: exhaustive enumeration, chronological backtracking, and DPLL
 * (backtracking with unit propagation and an initial pure-literal pass).
 *
 * Each search is a function of the state it is given; the recursion descends
 * on the set of clause variables the trail leaves unassigned.
 */
module SolveSimple {
  import opened Formula
  import opened SearchState
  import TrailState
  import SolverExamples

  // ---------------------------------------------------------------------------
  // solve_basic
  // ---------------------------------------------------------------------------

  /** The position of the first candidate that check_assignment accepts. */
  function FirstModel(ts: seq<Assignment>, f: CnfFormula): (r: Option<nat>)
    ensures r.Some? ==> r.value < |ts| && CheckAssignment(f, ts[r.value])
    ensures r.Some? ==> forall j :: 0 <= j < r.value ==> !CheckAssignment(f, ts[j])
    ensures r.None? <==> forall t :: t in ts ==> !CheckAssignment(f, t)
  {
    if ts == [] then None
    else if CheckAssignment(f, ts[0]) then
      assert ts[0] in ts;
      Some(0)
    else
      var r := FirstModel(ts[1..], f);
      assert forall t :: t in ts <==> t == ts[0] || t in ts[1..];
      if r.Some? then Some(r.value + 1) else None
  }

  /** solve_basic: the first of every possible assignment that satisfies the formula. */
  function SolveBasic(f: CnfFormula): (r: SolverResult)
    ensures !r.UnsatisfiableWithProof?
    ensures r.Satisfiable? ==> r.assignment.Keys == Domain(f.numVars) && CheckAssignment(f, r.assignment)
  {
    var ts := AllAssignments(f.numVars);
    match FirstModel(ts, f)
    case None => Unsatisfiable
    case Some(k) =>
      AllAssignmentsExact(f.numVars, ts[k]);
      Satisfiable(ts[k])
  }

  /**
   * solve_basic is satisfiable exactly when some total assignment of
   * 1..numVars is a model; what it returns is total, a model, and the first
   * model in the enumeration order.
   */
  lemma SolveBasicCorrect(f: CnfFormula)
    ensures SolveBasic(f).Satisfiable? ==>
      var t := SolveBasic(f).assignment;
      t.Keys == Domain(f.numVars) && CheckAssignment(f, t) &&
      exists k :: 0 <= k < |AllAssignments(f.numVars)| && AllAssignments(f.numVars)[k] == t &&
        forall j :: 0 <= j < k ==> !CheckAssignment(f, AllAssignments(f.numVars)[j])
    ensures SolveBasic(f).Unsatisfiable? <==>
      forall t: Assignment :: t.Keys == Domain(f.numVars) ==> !CheckAssignment(f, t)
  {
    var ts := AllAssignments(f.numVars);
    forall t: Assignment ensures t in ts <==> t.Keys == Domain(f.numVars) {
      AllAssignmentsExact(f.numVars, t);
    }
    if SolveBasic(f).Satisfiable? {
      var k := FirstModel(ts, f).value;
      AllAssignmentsExact(f.numVars, ts[k]);
    }
  }

  // ---------------------------------------------------------------------------
  // solve_backtrack
  // ---------------------------------------------------------------------------

  /**
   * solve_backtrack_rec: satisfied gives the filled assignment, falsified
   * gives Unsatisfiable; on any unassigned literal it branches on its
   * variable, the False branch first and the True branch only when that
   * one is unsatisfiable.
   */
  function BacktrackRec(s: State): (r: SolverResult)
    ensures !r.UnsatisfiableWithProof?
    ensures r.Satisfiable? ==> Extends(r.assignment, s.assignment) && Complete(r.assignment, s.numVars)
    decreases Vars(s.clauses) - s.assignment.Keys, 1
  {
    match StatusOf(s)
    case Satisfied => Satisfiable(FillUnassigned(s.assignment, s.numVars))
    case Falsified(_) => Unsatisfiable
    case UnassignedDecision(lit) =>
      StatusLitOpen(s);
      BacktrackBranch(s, lit)
    case UnassignedUnit(lit, _) =>
      StatusLitOpen(s);
      BacktrackBranch(s, lit)
  }

  function BacktrackBranch(s: State, lit: Lit): (r: SolverResult)
    requires lit.v in Vars(s.clauses) - s.assignment.Keys
    ensures !r.UnsatisfiableWithProof?
    ensures r.Satisfiable? ==> Extends(r.assignment, s.assignment) && Complete(r.assignment, s.numVars)
    decreases Vars(s.clauses) - s.assignment.Keys, 0
  {
    var branches := BranchOnVariable(s, lit.v);
    var lo := BacktrackRec(branches.1);
    ResultExtends(lo, s.assignment, lit.v, false);
    if lo.Satisfiable? then lo
    else
      var hi := BacktrackRec(branches.0);
      ResultExtends(hi, s.assignment, lit.v, true);
      hi
  }

  /** A result extending the assignment with one more variable set extends the assignment. */
  lemma ResultExtends(r: SolverResult, a: Assignment, v: nat, b: bool)
    requires v !in a
    ensures r.Satisfiable? && Extends(r.assignment, a[v := b]) ==> Extends(r.assignment, a)
  {
  }

  /** solve_backtrack: the search from the blank state. */
  function SolveBacktrack(f: CnfFormula): (r: SolverResult)
    ensures !r.UnsatisfiableWithProof?
    ensures r.Satisfiable? ==> Complete(r.assignment, f.numVars) && CheckAssignment(f, r.assignment)
  {
    var r := BacktrackRec(FromCnf(f));
    if r.Satisfiable? then
      BacktrackSound(FromCnf(f));
      r
    else r
  }

  /** What backtracking returns satisfies the state's clauses. */
  lemma {:induction false} BacktrackSound(s: State)
    requires BacktrackRec(s).Satisfiable?
    ensures AllSatisfied(s.clauses, BacktrackRec(s).assignment)
    decreases Vars(s.clauses) - s.assignment.Keys
  {
    var st := StatusOf(s);
    if st.Satisfied? {
      StatusMeaning(s);
      SatisfiedExtends(s.clauses, s.assignment, BacktrackRec(s).assignment);
    } else {
      StatusLitOpen(s);
      var v := st.lit.v;
      if BacktrackRec(Decide(s, v, false)).Satisfiable? {
        BacktrackSound(Decide(s, v, false));
      } else {
        BacktrackSound(Decide(s, v, true));
      }
    }
  }

  /** An assignment that extends the state's and satisfies its clauses leaves no clause falsified. */
  lemma ModelNotFalsified(s: State, t: Assignment)
    requires Extends(t, s.assignment) && AllSatisfied(s.clauses, t)
    ensures !StatusOf(s).Falsified?
  {
    if StatusOf(s).Falsified? {
      var c := StatusOf(s).clause;
      FalsifiedExtends(c, s.assignment, t);
    }
  }

  /**
   * Backtracking misses no model: when every variable lies in 1..numVars and
   * some assignment of 1..numVars extending the trail's satisfies the clauses,
   * the search is satisfiable.
   */
  lemma {:induction false} BacktrackComplete(s: State, t: Assignment)
    requires forall c, l :: c in s.clauses && l in c.literals ==> 1 <= l.v <= s.numVars
    requires Domain(s.numVars) <= t.Keys && Extends(t, s.assignment) && AllSatisfied(s.clauses, t)
    ensures BacktrackRec(s).Satisfiable?
    decreases Vars(s.clauses) - s.assignment.Keys
  {
    ModelNotFalsified(s, t);
    var st := StatusOf(s);
    if !st.Satisfied? {
      var v := st.lit.v;
      StatusLitOpen(s);
      ModelDecides(s, t);
      BranchKeepsModel(s, v, t);
      if t[v] {
        if BacktrackRec(Decide(s, v, false)).Unsatisfiable? {
          BacktrackComplete(Decide(s, v, true), t);
        }
      } else {
        BacktrackComplete(Decide(s, v, false), t);
      }
    }
  }

  /** A model of 1..numVars gives a value to the variable the status names. */
  lemma ModelDecides(s: State, t: Assignment)
    requires forall c, l :: c in s.clauses && l in c.literals ==> 1 <= l.v <= s.numVars
    requires Domain(s.numVars) <= t.Keys
    requires StatusOf(s).UnassignedDecision? || StatusOf(s).UnassignedUnit?
    ensures StatusOf(s).lit.v in t
  {
    StatusLitOpen(s);
    var l := StatusOf(s).lit;
    var c, m :| c in s.clauses && m in c.literals && m.v == l.v;
  }

  /** Deciding `v` the way a model extending the trail does keeps the model extending it. */
  lemma BranchKeepsModel(s: State, v: nat, t: Assignment)
    requires Extends(t, s.assignment) && v in t
    ensures Extends(t, Decide(s, v, t[v]).assignment)
  {
  }

  /**
   * solve_backtrack: a satisfiable result is total and a model; on a formula
   * whose variables lie in 1..numVars it is unsatisfiable exactly when no
   * assignment of 1..numVars is a model.
   */
  lemma SolveBacktrackCorrect(f: CnfFormula)
    ensures !SolveBacktrack(f).UnsatisfiableWithProof?
    ensures SolveBacktrack(f).Satisfiable? ==>
      Complete(SolveBacktrack(f).assignment, f.numVars) && CheckAssignment(f, SolveBacktrack(f).assignment)
    ensures WellFormed(f) ==>
      (SolveBacktrack(f).Unsatisfiable? <==> forall t: Assignment :: Domain(f.numVars) <= t.Keys ==> !CheckAssignment(f, t))
  {
    if SolveBacktrack(f).Satisfiable? {
      BacktrackSound(FromCnf(f));
    }
    if WellFormed(f) {
      forall t: Assignment | Domain(f.numVars) <= t.Keys && CheckAssignment(f, t)
        ensures SolveBacktrack(f).Satisfiable?
      {
        BacktrackComplete(FromCnf(f), t);
      }
    }
  }

  // ---------------------------------------------------------------------------
  // solve_dpll
  // ---------------------------------------------------------------------------

  /**
   * solve_dpll_rec: as backtracking, except that a unit literal is assigned
   * with its clause as reason and the search goes on from the same state,
   * without branching.
   */
  function DpllRec(s: State): (r: SolverResult)
    ensures !r.UnsatisfiableWithProof?
    ensures r.Satisfiable? ==> Extends(r.assignment, s.assignment) && Complete(r.assignment, s.numVars)
    decreases Vars(s.clauses) - s.assignment.Keys, 1
  {
    match StatusOf(s)
    case Satisfied => Satisfiable(FillUnassigned(s.assignment, s.numVars))
    case Falsified(_) => Unsatisfiable
    case UnassignedDecision(lit) =>
      StatusLitOpen(s);
      DpllBranch(s, lit)
    case UnassignedUnit(lit, clause) =>
      StatusLitOpen(s);
      var r := DpllRec(AssignUnitprop(s, lit.v, lit.value, clause));
      ResultExtends(r, s.assignment, lit.v, lit.value);
      r
  }

  function DpllBranch(s: State, lit: Lit): (r: SolverResult)
    requires lit.v in Vars(s.clauses) - s.assignment.Keys
    ensures !r.UnsatisfiableWithProof?
    ensures r.Satisfiable? ==> Extends(r.assignment, s.assignment) && Complete(r.assignment, s.numVars)
    decreases Vars(s.clauses) - s.assignment.Keys, 0
  {
    var branches := BranchOnVariable(s, lit.v);
    var lo := DpllRec(branches.1);
    ResultExtends(lo, s.assignment, lit.v, false);
    if lo.Satisfiable? then lo
    else
      var hi := DpllRec(branches.0);
      ResultExtends(hi, s.assignment, lit.v, true);
      hi
  }

  /** solve_dpll: pure-literal elimination on the blank state, then the recursive search. */
  function SolveDpll(f: CnfFormula): (r: SolverResult)
    ensures !r.UnsatisfiableWithProof?
    ensures r.Satisfiable? ==> Complete(r.assignment, f.numVars) && CheckAssignment(f, r.assignment)
  {
    var r := DpllRec(PureLiteralEliminate(FromCnf(f)));
    if r.Satisfiable? then
      DpllSound(PureLiteralEliminate(FromCnf(f)));
      r
    else r
  }

  /** What the DPLL search returns satisfies the state's clauses. */
  lemma {:induction false} DpllSound(s: State)
    requires DpllRec(s).Satisfiable?
    ensures AllSatisfied(s.clauses, DpllRec(s).assignment)
    decreases Vars(s.clauses) - s.assignment.Keys
  {
    var st := StatusOf(s);
    if st.Satisfied? {
      StatusMeaning(s);
      SatisfiedExtends(s.clauses, s.assignment, DpllRec(s).assignment);
    } else {
      StatusLitOpen(s);
      var v := st.lit.v;
      if st.UnassignedUnit? {
        DpllSound(AssignUnitprop(s, v, st.lit.value, st.clause));
      } else if DpllRec(Decide(s, v, false)).Satisfiable? {
        DpllSound(Decide(s, v, false));
      } else {
        DpllSound(Decide(s, v, true));
      }
    }
  }

  /**
   * The DPLL search misses no model: a unit literal is true in every model
   * extending the trail's assignment, so assigning it loses none, and
   * branching loses none as in backtracking.
   */
  lemma {:induction false} DpllComplete(s: State, t: Assignment)
    requires forall c, l :: c in s.clauses && l in c.literals ==> 1 <= l.v <= s.numVars
    requires Domain(s.numVars) <= t.Keys && Extends(t, s.assignment) && AllSatisfied(s.clauses, t)
    ensures DpllRec(s).Satisfiable?
    decreases Vars(s.clauses) - s.assignment.Keys
  {
    ModelNotFalsified(s, t);
    var st := StatusOf(s);
    if st.UnassignedUnit? {
      StatusLitOpen(s);
      UnitKeepsModel(s, t);
      DpllComplete(AssignUnitprop(s, st.lit.v, st.lit.value, st.clause), t);
    } else if st.UnassignedDecision? {
      var v := st.lit.v;
      StatusLitOpen(s);
      ModelDecides(s, t);
      BranchKeepsModel(s, v, t);
      if t[v] {
        if DpllRec(Decide(s, v, false)).Unsatisfiable? {
          DpllComplete(Decide(s, v, true), t);
        }
      } else {
        DpllComplete(Decide(s, v, false), t);
      }
    }
  }

  /** A unit literal is true in every model extending the trail, so assigning it keeps the model extending it. */
  lemma UnitKeepsModel(s: State, t: Assignment)
    requires StatusOf(s).UnassignedUnit?
    requires Extends(t, s.assignment) && AllSatisfied(s.clauses, t)
    ensures Extends(t, AssignUnitprop(s, StatusOf(s).lit.v, StatusOf(s).lit.value, StatusOf(s).clause).assignment)
  {
    var st := StatusOf(s);
    TrailState.UnitLiteralForced(st.clause, s.assignment, t);
  }

  /**
   * solve_dpll: a satisfiable result is total and a model; on a formula whose
   * variables lie in 1..numVars it is unsatisfiable exactly when no
   * assignment of 1..numVars is a model. Pure-literal elimination loses no
   * model because overriding a model with the pure values keeps it one.
   */
  lemma SolveDpllCorrect(f: CnfFormula)
    ensures !SolveDpll(f).UnsatisfiableWithProof?
    ensures SolveDpll(f).Satisfiable? ==>
      Complete(SolveDpll(f).assignment, f.numVars) && CheckAssignment(f, SolveDpll(f).assignment)
    ensures WellFormed(f) ==>
      (SolveDpll(f).Unsatisfiable? <==> forall t: Assignment :: Domain(f.numVars) <= t.Keys ==> !CheckAssignment(f, t))
  {
    var s := PureLiteralEliminate(FromCnf(f));
    assert map[] + PureAssignment(f.clauses, f.numVars) == PureAssignment(f.clauses, f.numVars);
    if SolveDpll(f).Satisfiable? {
      DpllSound(s);
    }
    if WellFormed(f) {
      forall t: Assignment | Domain(f.numVars) <= t.Keys && CheckAssignment(f, t)
        ensures SolveDpll(f).Satisfiable?
      {
        PureOverrideKeepsModels(f.clauses, t, f.numVars);
        DpllComplete(s, t + PureAssignment(f.clauses, f.numVars));
      }
    }
  }

  // ---------------------------------------------------------------------------
  // The unit tests of src/solve_simple.rs
  // ---------------------------------------------------------------------------

  /** On a formula with a model of 1..numVars, all three searches return a total model. */
  lemma SearchesFindModel(f: CnfFormula, m: Assignment)
    requires WellFormed(f) && m.Keys == Domain(f.numVars) && CheckAssignment(f, m)
    ensures SolveBasic(f).Satisfiable? && Complete(SolveBasic(f).assignment, f.numVars)
    ensures CheckAssignment(f, SolveBasic(f).assignment)
    ensures SolveBacktrack(f).Satisfiable? && Complete(SolveBacktrack(f).assignment, f.numVars)
    ensures CheckAssignment(f, SolveBacktrack(f).assignment)
    ensures SolveDpll(f).Satisfiable? && Complete(SolveDpll(f).assignment, f.numVars)
    ensures CheckAssignment(f, SolveDpll(f).assignment)
  {
    SolveBasicCorrect(f);
    SolveBacktrackCorrect(f);
    SolveDpllCorrect(f);
  }

  /** On a formula without a model, all three searches are unsatisfiable. */
  lemma SearchesFindNone(f: CnfFormula)
    requires WellFormed(f) && forall t: Assignment :: !CheckAssignment(f, t)
    ensures SolveBasic(f).Unsatisfiable? && SolveBacktrack(f).Unsatisfiable? && SolveDpll(f).Unsatisfiable?
  {
    SolveBasicCorrect(f);
    SolveBacktrackCorrect(f);
    SolveDpllCorrect(f);
  }

  /** test_solve_*_sat: every search returns a total assignment that satisfies the formula. */
  lemma SatExampleSolved(f: CnfFormula)
    requires f == CnfFormula(5, SolverExamples.SatClauses())
    ensures SolveBasic(f).Satisfiable? && Complete(SolveBasic(f).assignment, 5)
    ensures CheckAssignment(f, SolveBasic(f).assignment)
    ensures SolveBacktrack(f).Satisfiable? && Complete(SolveBacktrack(f).assignment, 5)
    ensures CheckAssignment(f, SolveBacktrack(f).assignment)
    ensures SolveDpll(f).Satisfiable? && Complete(SolveDpll(f).assignment, 5)
    ensures CheckAssignment(f, SolveDpll(f).assignment)
  {
    var m := map[1 := true, 2 := false, 3 := true, 4 := false, 5 := false];
    SolverExamples.SatModel(f, m);
    SearchesFindModel(f, m);
  }

  /** test_solve_*_unsat: every search is unsatisfiable. */
  lemma UnsatExampleRejected(f: CnfFormula)
    requires f == CnfFormula(5, SolverExamples.UnsatClauses())
    ensures SolveBasic(f).Unsatisfiable? && SolveBacktrack(f).Unsatisfiable? && SolveDpll(f).Unsatisfiable?
  {
    SolverExamples.UnsatNoModel(f, map[]);
    forall t: Assignment
      ensures !CheckAssignment(f, t)
    {
      SolverExamples.UnsatNoModel(f, t);
    }
    SearchesFindNone(f);
  }
}
