/**
 * The solver state of the later revision used by src/solve_simple.rs,
 * src/solve_cdcl.rs, src/solve_cdcl_first_uip.rs and src/watch_list.rs. Its
 * source (the later src/solver_state.rs) is not part of this model; the
 * interface below is rebuilt from those callers: a four-way status, a trail
 * whose decisions define decision levels, decide / assign_unitprop /
 * learn_clause, unit propagation to a fixpoint, pure-literal elimination,
 * and backjumping to a decision level.
 *
 * The assignment is the one the trail spells out, and the decision level of
 * a variable is the number of decisions up to the trail element that set it.
 */
module SearchState {
  import opened Formula
  import TrailState

  datatype Reason = Decision | UnitProp(clause: Clause)

  datatype Step = Step(lit: Lit, reason: Reason)

  /**
   * The assignment is kept beside the trail that produced it; `Valid` says
   * that the two agree.
   */
  datatype State = State(numVars: nat, clauses: seq<Clause>, assignment: Assignment, trail: seq<Step>)

  datatype Status =
    | Satisfied
    | Falsified(clause: Clause)
    | UnassignedDecision(lit: Lit)
    | UnassignedUnit(lit: Lit, clause: Clause)

  datatype SolverResult =
    | Satisfiable(assignment: Assignment)
    | Unsatisfiable
    | UnsatisfiableWithProof(clauses: seq<Clause>)

  // ---------------------------------------------------------------------------
  // Assignment and decision levels read off the trail
  // ---------------------------------------------------------------------------

  /** The assignment the trail spells out; a later element for the same variable wins. */
  function AssignmentOf(trail: seq<Step>): Assignment
  {
    if trail == [] then map[]
    else
      var last := trail[|trail| - 1];
      AssignmentOf(trail[..|trail| - 1])[last.lit.v := last.lit.value]
  }

  /** decision_level: the number of decisions on the trail. */
  function DecisionLevel(trail: seq<Step>): nat
  {
    if trail == [] then 0
    else DecisionLevel(trail[..|trail| - 1]) + if trail[|trail| - 1].reason.Decision? then 1 else 0
  }

  /**
   * get_decision_level: the decision level at the last trail element that
   * set `v`, or nothing when `v` is unassigned.
   */
  function LevelOf(trail: seq<Step>, v: nat): (r: Option<nat>)
    ensures r.Some? <==> v in AssignmentOf(trail)
    ensures r.Some? ==> r.value <= DecisionLevel(trail)
  {
    if trail == [] then None
    else if trail[|trail| - 1].lit.v == v then Some(DecisionLevel(trail))
    else LevelOf(trail[..|trail| - 1], v)
  }

  /** The state invariant: the assignment is the one the trail spells out. */
  predicate Valid(s: State)
  {
    s.assignment == AssignmentOf(s.trail)
  }

  /** Pushing a step assigns its literal's value. */
  lemma PushAssignment(trail: seq<Step>, e: Step)
    ensures AssignmentOf(trail + [e]) == AssignmentOf(trail)[e.lit.v := e.lit.value]
  {
    assert (trail + [e])[..|trail|] == trail;
  }

  lemma PushStep(trail: seq<Step>, e: Step)
    ensures AssignmentOf(trail + [e]) == AssignmentOf(trail)[e.lit.v := e.lit.value]
    ensures DecisionLevel(trail + [e]) == DecisionLevel(trail) + if e.reason.Decision? then 1 else 0
    ensures forall v :: v != e.lit.v ==> LevelOf(trail + [e], v) == LevelOf(trail, v)
    ensures LevelOf(trail + [e], e.lit.v) == Some(DecisionLevel(trail + [e]))
  {
    assert (trail + [e])[..|trail|] == trail;
  }

  /** Every trail variable is assigned. */
  lemma {:induction false} TrailAssigned(trail: seq<Step>)
    ensures forall e :: e in trail ==> e.lit.v in AssignmentOf(trail)
  {
    if trail != [] {
      var k := |trail| - 1;
      TrailAssigned(trail[..k]);
      assert trail == trail[..k] + [trail[k]];
      PushStep(trail[..k], trail[k]);
    }
  }

  // ---------------------------------------------------------------------------
  // decide, assign_unitprop, learn_clause, backjump_to_decision_level
  // ---------------------------------------------------------------------------

  /** decide: push a decision and set the variable; the decision level rises by one. */
  function Decide(s: State, v: nat, b: bool): (r: State)
    ensures r.numVars == s.numVars && r.clauses == s.clauses
    ensures r.trail == s.trail + [Step(Lit(v, b), Decision)]
    ensures r.assignment == s.assignment[v := b]
    ensures DecisionLevel(r.trail) == DecisionLevel(s.trail) + 1
    ensures Valid(s) ==> Valid(r)
  {
    PushStep(s.trail, Step(Lit(v, b), Decision));
    s.(assignment := s.assignment[v := b], trail := s.trail + [Step(Lit(v, b), Decision)])
  }

  /** assign_unitprop: push the literal with its reason clause and set the variable; the level stays. */
  function AssignUnitprop(s: State, v: nat, b: bool, c: Clause): (r: State)
    ensures r.numVars == s.numVars && r.clauses == s.clauses
    ensures r.trail == s.trail + [Step(Lit(v, b), UnitProp(c))]
    ensures r.assignment == s.assignment[v := b]
    ensures DecisionLevel(r.trail) == DecisionLevel(s.trail)
    ensures Valid(s) ==> Valid(r)
  {
    PushStep(s.trail, Step(Lit(v, b), UnitProp(c)));
    s.(assignment := s.assignment[v := b], trail := s.trail + [Step(Lit(v, b), UnitProp(c))])
  }

  /** learn_clause: append one clause; nothing else changes. */
  function LearnClause(s: State, lits: seq<Lit>): (r: State)
    ensures r.numVars == s.numVars && r.assignment == s.assignment && r.trail == s.trail
    ensures r.clauses == s.clauses + [Clause(lits)]
  {
    s.(clauses := s.clauses + [Clause(lits)])
  }

  /**
   * The trail kept by a backjump to level k: the longest prefix with at most
   * k decisions, i.e. everything before the (k+1)-th decision.
   */
  function KeepLevels(trail: seq<Step>, k: nat): (r: seq<Step>)
    ensures |r| <= |trail| && r == trail[..|r|]
    ensures DecisionLevel(r) == if DecisionLevel(trail) <= k then DecisionLevel(trail) else k
    ensures |r| < |trail| ==> trail[|r|].reason.Decision?
  {
    if DecisionLevel(trail) <= k then trail
    else
      var r := KeepLevels(trail[..|trail| - 1], k);
      assert trail[..|trail| - 1][..|r|] == trail[..|r|];
      r
  }

  /**
   * backjump_to_decision_level: undo every assignment above level k; the
   * assignment becomes the one the kept trail spells out.
   */
  function Backjump(s: State, k: nat): (r: State)
    ensures r.numVars == s.numVars && r.clauses == s.clauses
    ensures r.trail == KeepLevels(s.trail, k) && Valid(r)
    ensures DecisionLevel(r.trail) <= k
  {
    var kept := KeepLevels(s.trail, k);
    s.(assignment := AssignmentOf(kept), trail := kept)
  }

  /** Backjumping keeps the level-0 part of the trail. */
  lemma {:induction false} KeepLevelsZero(trail: seq<Step>, k: nat)
    ensures KeepLevels(KeepLevels(trail, k), 0) == KeepLevels(trail, 0)
  {
    if DecisionLevel(trail) > k {
      KeepLevelsZero(trail[..|trail| - 1], k);
    }
  }

  /** A step pushed above level 0 leaves the level-0 part alone; one pushed at level 0 joins it, unless it is a decision. */
  lemma KeepLevelsZeroPush(trail: seq<Step>, e: Step)
    ensures KeepLevels(trail + [e], 0) ==
      if DecisionLevel(trail) == 0 && e.reason.UnitProp? then trail + [e] else KeepLevels(trail, 0)
  {
    PushStep(trail, e);
    assert (trail + [e])[..|trail|] == trail;
  }

  // ---------------------------------------------------------------------------
  // get_status
  // ---------------------------------------------------------------------------

  function FirstFalsified(cs: seq<Clause>, a: Assignment): (r: Option<Clause>)
    ensures r.Some? ==> r.value in cs && ClauseFalsified(r.value, a)
    ensures r.None? <==> forall c :: c in cs ==> !ClauseFalsified(c, a)
  {
    if cs == [] then None
    else if ClauseFalsified(cs[0], a) then Some(cs[0])
    else
      assert forall c :: c in cs <==> c == cs[0] || c in cs[1..];
      FirstFalsified(cs[1..], a)
  }

  /** The first unassigned literal of the first clause that is open: not satisfied, not fully assigned. */
  function FirstOpenLit(cs: seq<Clause>, a: Assignment): (r: Option<Lit>)
    ensures r.Some? ==> r.value.v !in a && Occurs(cs, r.value)
    ensures r.None? ==> forall c :: c in cs ==> ClauseSatisfied(c, a) || ClauseFalsified(c, a)
  {
    if cs == [] then None
    else
      var c := cs[0];
      if !ClauseSatisfied(c, a) && exists l :: l in c.literals && l.v !in a then
        var l :| l in c.literals && l.v !in a;
        assert c in cs;
        Some(FirstOpenIn(c.literals, a))
      else
        assert forall d :: d in cs <==> d == c || d in cs[1..];
        FirstOpenLit(cs[1..], a)
  }

  function FirstOpenIn(lits: seq<Lit>, a: Assignment): (r: Lit)
    requires exists l :: l in lits && l.v !in a
    ensures r in lits && r.v !in a
  {
    if lits[0].v !in a then lits[0]
    else
      assert forall l :: l in lits ==> l == lits[0] || l in lits[1..];
      FirstOpenIn(lits[1..], a)
  }

  /**
   * get_status (rebuilt): a falsified clause first, then the first clause
   * with a unit literal, then an unassigned literal of an open clause to
   * decide on; satisfied when none of these is found.
   */
  function StatusOf(s: State): (r: Status)
    ensures r.Falsified? ==> r.clause in s.clauses && ClauseFalsified(r.clause, s.assignment)
    ensures r.UnassignedUnit? ==>
      r.clause in s.clauses && TrailState.UnitLiteral(r.clause, s.assignment) == Some(r.lit)
    ensures r.UnassignedDecision? ==> r.lit.v !in s.assignment && Occurs(s.clauses, r.lit)
  {
    var a := s.assignment;
    match FirstFalsified(s.clauses, a)
    case Some(c) => Falsified(c)
    case None =>
      match TrailState.FirstUnitClause(s.clauses, a)
      case Some((c, l)) => UnassignedUnit(l, c)
      case None =>
        match FirstOpenLit(s.clauses, a)
        case Some(l) => UnassignedDecision(l)
        case None => Satisfied
  }

  /**
   * What get_status reports: Satisfied exactly when every clause has a true
   * literal, Falsified exactly when some clause has every literal false, a
   * unit literal exactly when nothing is falsified and some clause is unit,
   * and a decision literal only when no clause is unit.
   */
  lemma StatusMeaning(s: State)
    ensures StatusOf(s) == Satisfied <==> AllSatisfied(s.clauses, s.assignment)
    ensures StatusOf(s).Falsified? <==> exists c :: c in s.clauses && ClauseFalsified(c, s.assignment)
    ensures StatusOf(s).UnassignedUnit? <==>
      !StatusOf(s).Falsified? && TrailState.FirstUnitClause(s.clauses, s.assignment).Some?
    ensures StatusOf(s).UnassignedDecision? ==> TrailState.FirstUnitClause(s.clauses, s.assignment).None?
  {
    var a := s.assignment;
    var ff := FirstFalsified(s.clauses, a);
    if ff.Some? {
      var c := ff.value;
      assert !ClauseSatisfied(c, a) by {
        forall l | l in c.literals ensures !IsTrue(a, l) {
          assert IsFalse(a, l);
        }
      }
    } else if TrailState.FirstUnitClause(s.clauses, a).Some? {
      var c := TrailState.FirstUnitClause(s.clauses, a).value.0;
      assert !ClauseSatisfied(c, a);
    } else if FirstOpenLit(s.clauses, a).Some? {
      OpenLitNotAllSatisfied(s.clauses, a, FirstOpenLit(s.clauses, a).value);
    }
  }

  /** A status naming an unassigned literal names a clause variable that the trail leaves open. */
  lemma StatusLitOpen(s: State)
    requires StatusOf(s).UnassignedDecision? || StatusOf(s).UnassignedUnit?
    ensures StatusOf(s).lit.v in Vars(s.clauses) - s.assignment.Keys
  {
    var st := StatusOf(s);
    if st.UnassignedUnit? {
      assert st.lit in st.clause.literals;
    } else {
      var c :| c in s.clauses && st.lit in c.literals;
    }
  }

  lemma {:induction false} OpenLitNotAllSatisfied(cs: seq<Clause>, a: Assignment, l: Lit)
    requires FirstOpenLit(cs, a) == Some(l)
    ensures !AllSatisfied(cs, a)
  {
    var c := cs[0];
    assert c in cs;
    if !(!ClauseSatisfied(c, a) && exists m :: m in c.literals && m.v !in a) {
      OpenLitNotAllSatisfied(cs[1..], a, l);
      assert forall d :: d in cs[1..] ==> d in cs;
    }
  }

  // ---------------------------------------------------------------------------
  // unit_propagate, pure_literal_eliminate, branch_on_variable
  // ---------------------------------------------------------------------------

  /**
   * unit_propagate (rebuilt): while the status is UnassignedUnit, assign its
   * literal with its clause as reason. It stops with a status that is not
   * UnassignedUnit, having pushed only unit propagations.
   */
  function UnitPropagated(s: State): (r: State)
    ensures r.numVars == s.numVars && r.clauses == s.clauses
    ensures !StatusOf(r).UnassignedUnit?
    ensures |s.trail| <= |r.trail| && r.trail[..|s.trail|] == s.trail
    ensures forall i :: |s.trail| <= i < |r.trail| ==> r.trail[i].reason.UnitProp?
    ensures DecisionLevel(r.trail) == DecisionLevel(s.trail)
    ensures Valid(s) ==> Valid(r)
    decreases Vars(s.clauses) - s.assignment.Keys
  {
    match StatusOf(s)
    case UnassignedUnit(l, c) =>
      StatusLitOpen(s);
      var next := AssignUnitprop(s, l.v, l.value, c);
      var r := UnitPropagated(next);
      UnitPropsExtend(s.trail, next.trail, r.trail);
      r
    case _ => s
  }

  lemma UnitPropsExtend(t0: seq<Step>, t1: seq<Step>, t2: seq<Step>)
    requires |t1| == |t0| + 1 && t1[..|t0|] == t0 && t1[|t0|].reason.UnitProp?
    requires |t1| <= |t2| && t2[..|t1|] == t1
    requires forall i :: |t1| <= i < |t2| ==> t2[i].reason.UnitProp?
    ensures |t0| <= |t2| && t2[..|t0|] == t0
    ensures forall i :: |t0| <= i < |t2| ==> t2[i].reason.UnitProp?
  {
    assert t2[|t0|] == t1[|t0|];
    assert t2[..|t0|] == t1[..|t0|];
  }

  /** The pure decisions of pure_literal_eliminate for variables 1..i, in increasing order. */
  function PureSteps(cs: seq<Clause>, i: nat): seq<Step>
  {
    if i == 0 then []
    else
      var step := match PureValue(cs, i)
        case None => []
        case Some(b) => [Step(Lit(i, b), Decision)];
      PureSteps(cs, i - 1) + step
  }

  /** pure_literal_eliminate (rebuilt as in the earlier revision): decide every pure variable. */
  function PureLiteralEliminate(s: State): (r: State)
    ensures r.numVars == s.numVars && r.clauses == s.clauses
    ensures r.assignment == s.assignment + PureAssignment(s.clauses, s.numVars)
    ensures Valid(s) ==> Valid(r)
  {
    PureStepsAssign(s.trail, s.clauses, s.numVars);
    s.(assignment := s.assignment + PureAssignment(s.clauses, s.numVars),
       trail := s.trail + PureSteps(s.clauses, s.numVars))
  }

  /** Pushing the pure decisions of 1..i onto a trail overrides its assignment with the pure values. */
  lemma PureStepsAssign(t: seq<Step>, cs: seq<Clause>, i: nat)
    ensures AssignmentOf(t + PureSteps(cs, i)) == AssignmentOf(t) + PureAssignment(cs, i)
  {
    AssignmentOfAppend(t, PureSteps(cs, i));
    PureStepsMap(cs, i);
  }

  /** The steps of a suffix override the assignment of the prefix. */
  lemma {:induction false} AssignmentOfAppend(t: seq<Step>, u: seq<Step>)
    ensures AssignmentOf(t + u) == AssignmentOf(t) + AssignmentOf(u)
  {
    if u != [] {
      var init := u[..|u| - 1];
      var last := u[|u| - 1];
      AssignmentOfAppend(t, init);
      assert (t + u)[..|t + u| - 1] == t + init;
      calc {
        AssignmentOf(t + u);
        AssignmentOf(t + init)[last.lit.v := last.lit.value];
        (AssignmentOf(t) + AssignmentOf(init))[last.lit.v := last.lit.value];
        AssignmentOf(t) + AssignmentOf(init)[last.lit.v := last.lit.value];
        AssignmentOf(t) + AssignmentOf(u);
      }
    } else {
      assert t + u == t;
      assert AssignmentOf(t) + map[] == AssignmentOf(t);
    }
  }

  /** The pure assignment of 1..i, from that of 1..i - 1. */
  lemma PureAssignmentAt(cs: seq<Clause>, i: nat)
    requires i > 0
    ensures PureValue(cs, i).None? ==> PureAssignment(cs, i) == PureAssignment(cs, i - 1)
    ensures PureValue(cs, i).Some? ==>
      PureAssignment(cs, i) == PureAssignment(cs, i - 1)[i := PureValue(cs, i).value]
  {
    PureAssignmentStep(cs, map[], i - 1);
  }

  /** The pure decisions of 1..i spell out exactly the pure assignment of 1..i. */
  lemma {:induction false} PureStepsMap(cs: seq<Clause>, i: nat)
    ensures AssignmentOf(PureSteps(cs, i)) == PureAssignment(cs, i)
  {
    if i > 0 {
      PureStepsMap(cs, i - 1);
      PureAssignmentAt(cs, i);
      match PureValue(cs, i)
      case None =>
        assert PureSteps(cs, i) == PureSteps(cs, i - 1);
        assert AssignmentOf(PureSteps(cs, i)) == PureAssignment(cs, i);
      case Some(b) =>
        var e := Step(Lit(i, b), Decision);
        var t := PureSteps(cs, i - 1);
        assert PureSteps(cs, i) == t + [e];
        PushAssignment(t, e);
    } else {
      assert PureAssignment(cs, 0) == map[];
      assert AssignmentOf(PureSteps(cs, i)) == PureAssignment(cs, i);
    }
  }


  /** branch_on_variable (rebuilt): the state deciding `v` True, and the state deciding it False. */
  function BranchOnVariable(s: State, v: nat): (r: (State, State))
    ensures r.0 == Decide(s, v, true) && r.1 == Decide(s, v, false)
  {
    (Decide(s, v, true), Decide(s, v, false))
  }

  /** from_cnf: the formula with an empty trail. */
  function FromCnf(f: CnfFormula): (s: State)
    ensures s.assignment == map[] && DecisionLevel(s.trail) == 0 && Valid(s)
  {
    State(f.numVars, f.clauses, map[], [])
  }
}
