/**
 * Cube-and-conquer (src/solve_cnc.rs) over the simplifying solver state of
 * src/solverstate.rs. Each node propagates units to a fixpoint, recording
 * every propagation on its trail; it then stops on a satisfied or falsified
 * state, splits on an unassigned variable while the depth allows (the True
 * child first), and at depth 0 hands its state to a conflict-driven solver.
 *
 * That solver (solve_cdcl_from_cdcl_state) is not part of this model: it is
 * the parameter `conquer`, and what the search guarantees is stated relative
 * to what `conquer` guarantees.
 */
module Cnc {
  import opened Formula
  import opened Solver
  import RS = ReducedState

  /** Why a literal is on a cube's trail: propagated, or decided with the state before the decision. */
  datatype CubeReason = Propagated | Decision(snapshot: RS.State)

  datatype CubeStep = CubeStep(lit: Lit, reason: CubeReason)

  /** CdclState: a simplified solver state together with the trail that led to it. */
  datatype CubeState = CubeState(state: RS.State, trail: seq<CubeStep>)

  /** The assignments that extend the state's and satisfy its remaining clauses. */
  ghost predicate ModelOf(s: RS.State, t: Assignment)
  {
    Extends(t, s.assignment) && AllSatisfied(s.clauses, t)
  }

  /** What a sound conflict-driven solver promises: whatever it returns is a total model of the state it got. */
  ghost predicate ConquerSound(conquer: CubeState -> Option<Assignment>)
  {
    forall st :: conquer(st).Some? ==>
      ModelOf(st.state, conquer(st).value) && Complete(conquer(st).value, st.state.numVars)
  }

  /** What a complete conflict-driven solver promises: it returns something whenever the state has a model. */
  ghost predicate ConquerComplete(conquer: CubeState -> Option<Assignment>)
  {
    forall st: CubeState, t :: ModelOf(st.state, t) ==> conquer(st).Some?
  }

  // ---------------------------------------------------------------------------
  // Propagation to a fixpoint
  // ---------------------------------------------------------------------------

  /** Assigning the literal of a clause that contains it removes at least that clause. */
  lemma {:induction false} AssignClausesDrops(cs: seq<Clause>, v: nat, b: bool)
    requires exists c :: c in cs && Lit(v, b) in c.literals
    ensures |RS.AssignClauses(cs, v, b)| < |cs|
  {
    if Lit(v, b) !in cs[0].literals {
      var c :| c in cs && Lit(v, b) in c.literals;
      assert c in cs[1..];
      AssignClausesDrops(cs[1..], v, b);
    }
  }

  /**
   * One round of unit propagation on a valid state: the clause count drops,
   * the state stays valid, and the models are exactly those of the old state
   * that make the literal true.
   */
  lemma UnitStep(s: RS.State)
    requires RS.Valid(s) && RS.UnitPropagate(s).Some?
    ensures var (l, s') := RS.UnitPropagate(s).value;
      RS.Valid(s') && s'.numVars == s.numVars && |s'.clauses| < |s.clauses| &&
      l.v !in s.assignment && s'.assignment == s.assignment[l.v := l.value] &&
      forall t :: ModelOf(s', t) <==> ModelOf(s, t) && IsTrue(t, l)
  {
    var (l, s') := RS.UnitPropagate(s).value;
    assert Clause([l]) in s.clauses && l in Clause([l]).literals;
    AssignClausesDrops(s.clauses, l.v, l.value);
    RS.AssignedValid(s, l.v, l.value);
    forall t ensures ModelOf(s', t) <==> ModelOf(s, t) && IsTrue(t, l) {
      AssignedModels(s, l, t);
    }
  }

  /** The models of the state with `l` assigned are the models of the state that make `l` true. */
  lemma AssignedModels(s: RS.State, l: Lit, t: Assignment)
    requires l.v !in s.assignment
    ensures ModelOf(RS.Assigned(s, l.v, l.value), t) <==> ModelOf(s, t) && IsTrue(t, l)
  {
    var s' := RS.Assigned(s, l.v, l.value);
    if ModelOf(s, t) && IsTrue(t, l) {
      assert Extends(t, s.assignment[l.v := l.value]);
      RS.AssignedKeepsModels(s, l.v, l.value, t);
    }
    if ModelOf(s', t) {
      RS.AssignedKeepsModels(s, l.v, l.value, t);
    }
  }

  /**
   * The `while let` loop of solve_cnc_rec: propagate until unit_propagate
   * finds nothing, pushing each propagated literal onto the trail. The
   * models stay the same, the assignment only grows, and the pushed
   * literals are true in it.
   */
  method Propagate(s: CubeState) returns (r: CubeState)
    requires RS.Valid(s.state)
    ensures RS.Valid(r.state) && r.state.numVars == s.state.numVars
    ensures RS.UnitPropagate(r.state).None?
    ensures forall t :: ModelOf(r.state, t) <==> ModelOf(s.state, t)
    ensures Extends(r.state.assignment, s.state.assignment)
    ensures |s.trail| <= |r.trail| && r.trail[..|s.trail|] == s.trail
    ensures forall i :: |s.trail| <= i < |r.trail| ==>
      r.trail[i].reason.Propagated? && IsTrue(r.state.assignment, r.trail[i].lit)
  {
    r := s;
    while RS.UnitPropagate(r.state).Some?
      invariant RS.Valid(r.state) && r.state.numVars == s.state.numVars
      invariant forall t :: ModelOf(r.state, t) <==> ModelOf(s.state, t)
      invariant Extends(r.state.assignment, s.state.assignment)
      invariant |s.trail| <= |r.trail| && r.trail[..|s.trail|] == s.trail
      invariant forall i :: |s.trail| <= i < |r.trail| ==>
        r.trail[i].reason.Propagated? && IsTrue(r.state.assignment, r.trail[i].lit)
      decreases |r.state.clauses|
    {
      var (l, next) := RS.UnitPropagate(r.state).value;
      UnitStep(r.state);
      forall t | ModelOf(next, t) ensures IsTrue(t, l) { }
      r := CubeState(next, r.trail + [CubeStep(l, Propagated)]);
    }
  }

  // ---------------------------------------------------------------------------
  // The search
  // ---------------------------------------------------------------------------

  /** A state that is neither satisfied nor falsified leaves a variable of 1..numVars unassigned. */
  lemma OpenStateHasVariable(s: RS.State)
    requires RS.Valid(s) && !IsSatisfied(s.clauses) && !IsFalsified(s.clauses)
    ensures FirstUnassigned(s.assignment, s.numVars).Some?
  {
    var c := s.clauses[0];
    assert c in s.clauses;
    assert c.literals != [];
    var l := c.literals[0];
    assert 1 <= l.v <= s.numVars && l.v !in s.assignment;
  }

  /** A clause list holding an empty clause has no model. */
  lemma FalsifiedNoModel(cs: seq<Clause>, t: Assignment)
    requires IsFalsified(cs)
    ensures !AllSatisfied(cs, t)
  {
    var c :| c in cs && c.literals == [];
    assert !ClauseSatisfied(c, t);
  }

  /** A model of a state, given a value for one more open variable, is a model of the assigned state. */
  lemma ChildModel(s: RS.State, v: nat, t: Assignment)
    requires ModelOf(s, t) && v !in s.assignment
    ensures var t' := if v in t then t else t[v := true];
      ModelOf(RS.Assigned(s, v, t'[v]), t')
  {
    var t' := if v in t then t else t[v := true];
    SatisfiedExtends(s.clauses, t, t');
    RS.AssignedKeepsModels(s, v, t'[v], t');
  }

  /**
   * solve_cnc_rec: with a sound `conquer`, what it returns is a total model
   * of the state it got; with a complete one, it returns something whenever
   * that state has a model.
   */
  method CncRec(s: CubeState, depth: nat, conquer: CubeState -> Option<Assignment>) returns (r: Option<Assignment>)
    requires RS.Valid(s.state)
    ensures ConquerSound(conquer) && r.Some? ==> ModelOf(s.state, r.value) && Complete(r.value, s.state.numVars)
    ensures forall t :: ConquerComplete(conquer) && ModelOf(s.state, t) ==> r.Some?
    decreases depth
  {
    var ucp := Propagate(s);
    var st := ucp.state;
    if IsSatisfied(st.clauses) {
      r := Some(FillUnassigned(st.assignment, st.numVars));
    } else if IsFalsified(st.clauses) {
      r := None;
      forall t ensures !ModelOf(st, t) {
        FalsifiedNoModel(st.clauses, t);
      }
    } else if depth > 0 {
      OpenStateHasVariable(st);
      var v := FirstUnassigned(st.assignment, st.numVars).value;
      var trueState := CubeState(RS.Assigned(st, v, true), ucp.trail + [CubeStep(Lit(v, true), Decision(st))]);
      var falseState := CubeState(RS.Assigned(st, v, false), ucp.trail + [CubeStep(Lit(v, false), Decision(st))]);
      RS.AssignedValid(st, v, true);
      RS.AssignedValid(st, v, false);
      var onTrue := CncRec(trueState, depth - 1, conquer);
      var onFalse := CncRec(falseState, depth - 1, conquer);
      r := if onTrue.Some? then onTrue else onFalse;
      forall t | ModelOf(st, t)
        ensures r.Some? || !ConquerComplete(conquer)
      {
        ChildModel(st, v, t);
      }
      if r.Some? && ConquerSound(conquer) {
        var b := if onTrue.Some? then true else false;
        RS.AssignedKeepsModels(st, v, b, r.value);
      }
    } else {
      r := conquer(ucp);
    }
  }

  /**
   * solve_cnc: pure-literal elimination on the blank state, then the search
   * from an empty trail. With a sound `conquer` a returned assignment is a
   * total model of the formula; with a complete one, a formula that has a
   * model gets one.
   */
  method SolveCnc(f: CnfFormula, depth: nat, conquer: CubeState -> Option<Assignment>) returns (r: Option<Assignment>)
    requires WellFormed(f)
    ensures ConquerSound(conquer) && r.Some? ==> CheckAssignment(f, r.value) && Complete(r.value, f.numVars)
    ensures forall t :: ConquerComplete(conquer) && CheckAssignment(f, t) ==> r.Some?
  {
    var blank := RS.FromCnf(f);
    var ple := RS.PureLiteralEliminate(blank);
    PureEliminated(f, ple);
    r := CncRec(CubeState(ple, []), depth, conquer);
  }

  /**
   * The state pure_literal_eliminate leaves on a well-formed formula is valid;
   * its models are models of the formula, and every model of the formula,
   * overridden with the pure polarities, is one of its models.
   */
  lemma PureEliminated(f: CnfFormula, ple: RS.State)
    requires WellFormed(f) && ple.numVars == f.numVars
    requires ple.assignment == map[] + PureAssignment(f.clauses, f.numVars)
    requires ple.clauses == Reduced(f.clauses, PureAssignment(f.clauses, f.numVars))
    ensures RS.Valid(ple)
    ensures forall t :: ModelOf(ple, t) ==> CheckAssignment(f, t)
    ensures forall t :: CheckAssignment(f, t) ==> ModelOf(ple, t + ple.assignment)
  {
    var p := PureAssignment(f.clauses, f.numVars);
    assert ple.assignment == p;
    PureEliminatedValid(f, ple);
    forall t | ModelOf(ple, t) ensures CheckAssignment(f, t) {
      ReducedKeepsModels(f.clauses, p, t);
    }
    forall t | CheckAssignment(f, t) ensures ModelOf(ple, t + p) {
      PureOverrideModel(f, t);
    }
  }

  /** A model of the formula, overridden with the pure polarities, is a model of what is left. */
  lemma PureOverrideModel(f: CnfFormula, t: Assignment)
    requires CheckAssignment(f, t)
    ensures var p := PureAssignment(f.clauses, f.numVars);
      Extends(t + p, p) && AllSatisfied(Reduced(f.clauses, p), t + p)
  {
    var p := PureAssignment(f.clauses, f.numVars);
    PureOverrideKeepsModels(f.clauses, t, f.numVars);
    ReducedKeepsModels(f.clauses, p, t + p);
  }

  lemma PureEliminatedValid(f: CnfFormula, ple: RS.State)
    requires WellFormed(f) && ple.numVars == f.numVars
    requires ple.clauses == Reduced(f.clauses, ple.assignment)
    ensures RS.Valid(ple)
  {
    ReducedLiterals(f.clauses, ple.assignment);
    forall c, l | c in ple.clauses && l in c.literals
      ensures 1 <= l.v <= ple.numVars && l.v !in ple.assignment
    {
      assert Occurs(f.clauses, l);
      var d :| d in f.clauses && l in d.literals;
    }
  }
}
