/**
 * Conflict-driven clause learning (src/solve_cdcl.rs). On a conflict the
 * cut starts at the falsified clause and moves backwards over the trail
 * until exactly one of its literals lies at the current decision level; the
 * negated cut is learned and the search backjumps to the highest level
 * among the other literals.
 *
 * The set of conflicting literals is a BTreeSet of (decision level, literal)
 * pairs; here it is the strictly increasing sequence of its elements, so
 * iterating it and taking its last elements read the same as in the set.
 * A failed `assert!`, `unwrap` or `unreachable!` makes the run Panicked, and
 * the main `loop` runs for at most `fuel` iterations.
 */
module SolveCdcl {
  import opened Formula
  import opened SearchState
  import opened ConflictAnalysis
  import TrailState
  import SolverExamples

  // ---------------------------------------------------------------------------
  // The ordered set of (level, literal) pairs
  // ---------------------------------------------------------------------------

  /** The order of literals: by variable, then False before True. */
  predicate LitLess(a: Lit, b: Lit)
  {
    a.v < b.v || (a.v == b.v && !a.value && b.value)
  }

  /** The order of the set's elements: by decision level, then by literal. */
  predicate PairLess(p: (nat, Lit), q: (nat, Lit))
  {
    p.0 < q.0 || (p.0 == q.0 && LitLess(p.1, q.1))
  }

  predicate Sorted(ps: seq<(nat, Lit)>)
  {
    forall i, j :: 0 <= i < j < |ps| ==> PairLess(ps[i], ps[j])
  }

  /** BTreeSet::insert: add the element at its place; nothing changes when it is present. */
  function SortedInsert(ps: seq<(nat, Lit)>, x: (nat, Lit)): (r: seq<(nat, Lit)>)
    requires Sorted(ps)
    ensures Sorted(r)
    ensures forall p :: p in r <==> p in ps || p == x
  {
    if ps == [] then [x]
    else if ps[0] == x then ps
    else if PairLess(x, ps[0]) then
      assert forall j :: 0 <= j < |ps| ==> PairLess(x, ps[j]);
      [x] + ps
    else
      var rest := SortedInsert(ps[1..], x);
      assert forall p :: p in rest ==> PairLess(ps[0], p);
      [ps[0]] + rest
  }

  /** BTreeSet::remove: drop the element if it is present. */
  function SortedRemove(ps: seq<(nat, Lit)>, x: (nat, Lit)): (r: seq<(nat, Lit)>)
    requires Sorted(ps)
    ensures Sorted(r)
    ensures forall p :: p in r <==> p in ps && p != x
  {
    if ps == [] then []
    else
      var rest := SortedRemove(ps[1..], x);
      assert forall p :: p in rest ==> p in ps[1..];
      if ps[0] == x then rest
      else
        assert forall p :: p in rest ==> PairLess(ps[0], p);
        [ps[0]] + rest
  }

  /** The literals of the pairs. */
  function Lits(ps: seq<(nat, Lit)>): (r: set<Lit>)
    ensures forall l :: l in r <==> exists p :: p in ps && p.1 == l
  {
    set p | p in ps :: p.1
  }

  // ---------------------------------------------------------------------------
  // ConflictingLits
  // ---------------------------------------------------------------------------

  class ConflictingLits {
    var literals: seq<(nat, Lit)>
    const state: State

    /** The pairs are in set order and each carries the decision level of its literal's variable. */
    predicate Valid()
      reads this
    {
      Sorted(literals) && forall p :: p in literals ==> LevelOf(state.trail, p.1.v) == Some(p.0)
    }

    /** new: the set of the negations of the falsified clause's literals. */
    constructor New(falsified: Clause, state: State)
      requires SearchState.Valid(state) && ClauseFalsified(falsified, state.assignment)
      ensures this.state == state && Valid()
      ensures Lits(literals) == InitialCut(falsified)
    {
      this.state := state;
      literals := [];
      new;
      var i := 0;
      while i < |falsified.literals|
        invariant 0 <= i <= |falsified.literals|
        invariant Valid()
        invariant Lits(literals) == InitialCut(Clause(falsified.literals[..i]))
      {
        var l := falsified.literals[i];
        assert IsFalse(state.assignment, l);
        var ok := Insert(Not(l));
        assert falsified.literals[..i + 1] == falsified.literals[..i] + [l];
        i := i + 1;
      }
      assert falsified.literals[..i] == falsified.literals;
    }

    /** insert: add the literal with its variable's decision level; unassigned, it panics. */
    method Insert(lit: Lit) returns (ok: bool)
      requires Valid()
      modifies this
      ensures Valid()
      ensures ok <==> LevelOf(state.trail, lit.v).Some?
      ensures ok ==> Lits(literals) == Lits(old(literals)) + {lit}
    {
      match LevelOf(state.trail, lit.v) {
        case None =>
          ok := false;
        case Some(level) =>
          literals := SortedInsert(literals, (level, lit));
          ok := true;
      }
    }

    /**
     * remove: drop the literal with its variable's decision level, which,
     * every pair carrying that level, drops the literal altogether.
     */
    method Remove(lit: Lit) returns (ok: bool)
      requires Valid()
      modifies this
      ensures Valid()
      ensures ok <==> LevelOf(state.trail, lit.v).Some?
      ensures ok ==> Lits(literals) == Lits(old(literals)) - {lit}
    {
      match LevelOf(state.trail, lit.v) {
        case None =>
          ok := false;
        case Some(level) =>
          literals := SortedRemove(literals, (level, lit));
          ok := true;
      }
    }

    /**
     * update: move the cut to the left of a trail element: add the negation
     * of every reason-clause literal on another variable, then remove the
     * element's literal. It panics on a decision, on a reason literal of the
     * element's variable with the other value, and on an unassigned variable.
     */
    method Update(e: Step) returns (ok: bool)
      requires Valid()
      modifies this
      ensures Valid()
      ensures ok <==>
        e.reason.UnitProp? && SameVarAgrees(e.reason.clause, e.lit) &&
        ReasonAssigned(e.reason.clause.literals, e.lit.v, state.trail) &&
        LevelOf(state.trail, e.lit.v).Some?
      ensures ok ==> Lits(literals) == (Lits(old(literals)) + Antecedents(e.reason.clause, e.lit.v)) - {e.lit}
    {
      if e.reason.Decision? {
        return false;
      }
      ok := AddReasonClause(e.reason.clause, e.lit);
      if ok {
        ok := Remove(e.lit);
      }
    }

    /** update's loop over the reason clause: add the antecedents, checking each literal on the way. */
    method AddReasonClause(c: Clause, elementLit: Lit) returns (ok: bool)
      requires Valid()
      modifies this
      ensures Valid()
      ensures ok <==> SameVarAgrees(c, elementLit) && ReasonAssigned(c.literals, elementLit.v, state.trail)
      ensures ok ==> Lits(literals) == Lits(old(literals)) + Antecedents(c, elementLit.v)
    {
      var i := 0;
      ghost var ants: set<Lit> := {};
      while i < |c.literals|
        invariant 0 <= i <= |c.literals|
        invariant Valid()
        invariant SameVarAgrees(Clause(c.literals[..i]), elementLit)
        invariant ReasonAssigned(c.literals[..i], elementLit.v, state.trail)
        invariant ants == Antecedents(Clause(c.literals[..i]), elementLit.v)
        invariant Lits(literals) == Lits(old(literals)) + ants
      {
        ReasonPrefixSnoc(c.literals, i, elementLit);
        ReasonAssignedSnoc(c.literals, i, elementLit.v, state.trail);
        var lit := c.literals[i];
        var added := AddReasonLiteral(lit, elementLit);
        if !added {
          ReasonCheckFails(c.literals, i + 1, elementLit, state.trail);
          return false;
        }
        ghost var d: set<Lit> := if lit.v == elementLit.v then {} else {Not(lit)};
        UnionAssoc(Lits(old(literals)), ants, d);
        ants := ants + d;
        i := i + 1;
      }
      assert c.literals[..i] == c.literals;
      return true;
    }

    /**
     * One iteration of update's loop over the reason clause: a literal on the
     * element's variable must have its value; any other adds its negation.
     */
    method AddReasonLiteral(lit: Lit, elementLit: Lit) returns (ok: bool)
      requires Valid()
      modifies this
      ensures Valid()
      ensures ok <==> if lit.v == elementLit.v then lit.value == elementLit.value else LevelOf(state.trail, lit.v).Some?
      ensures ok ==> Lits(literals) == Lits(old(literals)) + if lit.v == elementLit.v then {} else {Not(lit)}
    {
      if lit.v == elementLit.v {
        ok := lit.value == elementLit.value;
      } else {
        ok := Insert(Not(lit));
      }
    }

    /**
     * get_backjump_level: panics unless the highest level in the set is the
     * current one; otherwise the level of the next-highest pair, or 0. Above
     * level 0 it is the current level exactly when another pair lies at the
     * current level too.
     */
    function GetBackjumpLevel(): (r: Option<nat>)
      reads this
      requires Valid()
      ensures r.Some? <==> literals != [] && literals[|literals| - 1].0 == DecisionLevel(state.trail)
      ensures r.Some? ==> r.value <= DecisionLevel(state.trail)
      ensures r.Some? && DecisionLevel(state.trail) > 0 ==>
        (r.value == DecisionLevel(state.trail) <==>
          exists i :: 0 <= i < |literals| - 1 && literals[i].0 == DecisionLevel(state.trail))
    {
      if literals == [] || literals[|literals| - 1].0 != DecisionLevel(state.trail) then None
      else if |literals| >= 2 then
        assert PairLess(literals[|literals| - 2], literals[|literals| - 1]);
        Some(literals[|literals| - 2].0)
      else Some(0)
    }

    /** get_learned_clause: the negation of every literal of the set, in the set's order. */
    function GetLearnedClause(): (r: Clause)
      reads this
      ensures |r.literals| == |literals|
      ensures forall i :: 0 <= i < |literals| ==> r.literals[i] == Not(literals[i].1)
      ensures forall x :: x in Lits(literals) ==> Not(x) in r.literals
    {
      var ps := literals;
      var r := Clause(seq(|ps|, i requires 0 <= i < |ps| => Not(ps[i].1)));
      assert forall x :: x in Lits(ps) ==> Not(x) in r.literals by {
        forall x | x in Lits(ps) ensures Not(x) in r.literals {
          var p :| p in ps && p.1 == x;
          var i :| 0 <= i < |ps| && ps[i] == p;
          assert r.literals[i] == Not(x);
        }
      }
      r
    }
  }

  /** Every literal of the reason clause on another variable than `v` is assigned on the trail. */
  predicate ReasonAssigned(ls: seq<Lit>, v: nat, trail: seq<Step>)
  {
    forall m :: m in ls && m.v != v ==> LevelOf(trail, m.v).Some?
  }

  /** What one more literal of a reason clause adds to the check of its assigned variables. */
  lemma ReasonAssignedSnoc(ls: seq<Lit>, i: nat, v: nat, trail: seq<Step>)
    requires i < |ls|
    ensures ReasonAssigned(ls[..i + 1], v, trail) <==>
      ReasonAssigned(ls[..i], v, trail) && (ls[i].v != v ==> LevelOf(trail, ls[i].v).Some?)
  {
    assert ls[..i + 1] == ls[..i] + [ls[i]];
  }

  /** A reason clause whose prefix fails the runtime check fails it as a whole. */
  lemma ReasonCheckFails(ls: seq<Lit>, i: nat, lit: Lit, trail: seq<Step>)
    requires i <= |ls|
    requires !(SameVarAgrees(Clause(ls[..i]), lit) && ReasonAssigned(ls[..i], lit.v, trail))
    ensures !(SameVarAgrees(Clause(ls), lit) && ReasonAssigned(ls, lit.v, trail))
  {
    if SameVarAgrees(Clause(ls), lit) && ReasonAssigned(ls, lit.v, trail) {
      SameVarPrefix(ls, i, lit);
      ReasonAssignedPrefix(ls, i, lit.v, trail);
    }
  }

  /** What a whole reason clause passes, its prefixes pass. */
  lemma ReasonAssignedPrefix(ls: seq<Lit>, i: nat, v: nat, trail: seq<Step>)
    requires i <= |ls| && ReasonAssigned(ls, v, trail)
    ensures ReasonAssigned(ls[..i], v, trail)
  {
    assert forall m :: m in ls[..i] ==> m in ls;
  }

  // ---------------------------------------------------------------------------
  // Conflict analysis and the main loop
  // ---------------------------------------------------------------------------

  /**
   * The Falsified arm of the main loop above level 0: walk the trail from
   * its end, and before moving the cut past each element check for a UIP
   * cut. A learned clause is entailed by the clauses, has exactly one
   * literal at the current level, its last one, and the backjump level is
   * below the current level and the highest level of the other literals.
   */
  method AnalyzeConflict(state: State, falsified: Clause) returns (out: Analysis)
    requires SearchState.Valid(state) && ReasonsIn(state)
    requires falsified in state.clauses && ClauseFalsified(falsified, state.assignment)
    requires DecisionLevel(state.trail) > 0
    ensures out.Learn? ==> Entailed(state.clauses, out.clause.literals)
    ensures out.Learn? ==> out.level < DecisionLevel(state.trail)
    ensures out.Learn? ==> Asserting(out.clause.literals, state.trail, out.level)
  {
    var conflict := new ConflictingLits.New(falsified, state);
    InitialCutEntailed(state.clauses, falsified);
    var i := |state.trail|;
    while i > 0
      invariant 0 <= i <= |state.trail|
      invariant conflict.Valid() && conflict.state == state
      invariant CutEntailed(state.clauses, Lits(conflict.literals))
      decreases i
    {
      var backjumpLevel := conflict.GetBackjumpLevel();
      if backjumpLevel.None? {
        return AnalysisPanic;
      }
      if backjumpLevel.value != DecisionLevel(state.trail) {
        var learned := conflict.GetLearnedClause();
        ghost var ps := conflict.literals;
        assert backjumpLevel.value == if |ps| >= 2 then ps[|ps| - 2].0 else 0;
        LearnedFromCut(state.clauses, ps, learned, state.trail, backjumpLevel.value);
        return Learn(learned, backjumpLevel.value);
      }
      var e := state.trail[i - 1];
      var cut := Lits(conflict.literals);
      var ok := conflict.Update(e);
      if !ok {
        return AnalysisPanic;
      }
      MoveCutEntailed(state.clauses, cut, e.reason.clause, e.lit);
      i := i - 1;
    }
    return NoCut;
  }

  /**
   * The shape of a learned clause: its last literal is at the current level,
   * every other one is assigned at most at the backjump level, and the
   * one before the last is exactly at it.
   */
  predicate Asserting(lits: seq<Lit>, trail: seq<Step>, level: nat)
  {
    |lits| > 0 && LevelOf(trail, lits[|lits| - 1].v) == Some(DecisionLevel(trail)) &&
    (forall j :: 0 <= j < |lits| - 1 ==> LevelOf(trail, lits[j].v).Some? && LevelOf(trail, lits[j].v).value <= level) &&
    (|lits| >= 2 ==> LevelOf(trail, lits[|lits| - 2].v) == Some(level))
  }

  /** A clause learned from a sound sorted cut is entailed and asserting. */
  lemma LearnedFromCut(cs: seq<Clause>, ps: seq<(nat, Lit)>, learned: Clause, trail: seq<Step>, level: nat)
    requires CutEntailed(cs, Lits(ps))
    requires Sorted(ps) && forall p :: p in ps ==> LevelOf(trail, p.1.v) == Some(p.0)
    requires ps != [] && ps[|ps| - 1].0 == DecisionLevel(trail)
    requires level == if |ps| >= 2 then ps[|ps| - 2].0 else 0
    requires level < DecisionLevel(trail)
    requires |learned.literals| == |ps| && forall i :: 0 <= i < |ps| ==> learned.literals[i] == Not(ps[i].1)
    requires forall x :: x in Lits(ps) ==> Not(x) in learned.literals
    ensures Entailed(cs, learned.literals) && Asserting(learned.literals, trail, level)
  {
    LearnedEntailed(cs, Lits(ps), learned.literals);
    LearnedShape(ps, learned, trail, level);
  }

  /** The shape of a clause learned from a sorted cut whose last pair alone is at the current level. */
  lemma LearnedShape(ps: seq<(nat, Lit)>, learned: Clause, trail: seq<Step>, level: nat)
    requires Sorted(ps) && forall p :: p in ps ==> LevelOf(trail, p.1.v) == Some(p.0)
    requires ps != [] && ps[|ps| - 1].0 == DecisionLevel(trail)
    requires level == if |ps| >= 2 then ps[|ps| - 2].0 else 0
    requires level < DecisionLevel(trail)
    requires |learned.literals| == |ps| && forall i :: 0 <= i < |ps| ==> learned.literals[i] == Not(ps[i].1)
    ensures Asserting(learned.literals, trail, level)
  {
    var n := |ps|;
    assert ps[n - 1] in ps;
    forall j | 0 <= j < n - 1
      ensures LevelOf(trail, learned.literals[j].v).Some? && LevelOf(trail, learned.literals[j].v).value <= level
    {
      LevelBelow(ps, trail, j, n - 2);
      assert learned.literals[j].v == ps[j].1.v;
    }
    if n >= 2 {
      assert ps[n - 2] in ps;
    }
  }

  /** In a sorted cut a pair before another has a level no higher. */
  lemma LevelBelow(ps: seq<(nat, Lit)>, trail: seq<Step>, j: nat, k: nat)
    requires Sorted(ps) && forall p :: p in ps ==> LevelOf(trail, p.1.v) == Some(p.0)
    requires j <= k < |ps|
    ensures LevelOf(trail, ps[j].1.v) == Some(ps[j].0) && ps[j].0 <= ps[k].0
  {
    assert ps[j] in ps;
    assert PairLess(ps[j], ps[k]) || j == k;
  }

  /**
   * solve_cdcl_from_state: at most `fuel` iterations of the main loop. A
   * satisfiable result is a total model of the starting clauses; an
   * unsatisfiable one comes with clauses that extend the starting ones,
   * have the same models, and there are none. Plain Unsatisfiable is never
   * returned.
   */
  method SolveCdclFromState(s0: State, fuel: nat) returns (r: Outcome<SolverResult>)
    requires SearchInv(s0, s0)
    ensures r.Finished? ==> !r.value.Unsatisfiable?
    ensures r.Finished? && r.value.Satisfiable? ==>
      Complete(r.value.assignment, s0.numVars) && AllSatisfied(s0.clauses, r.value.assignment)
    ensures r.Finished? && r.value.UnsatisfiableWithProof? ==>
      var cs := r.value.clauses;
      |s0.clauses| <= |cs| && cs[..|s0.clauses|] == s0.clauses &&
      (forall t :: !AllSatisfied(s0.clauses, t)) &&
      (forall t :: AllSatisfied(cs, t) <==> AllSatisfied(s0.clauses, t))
  {
    var state := s0;
    var steps := fuel;
    while steps > 0
      invariant SearchInv(s0, state)
      decreases steps
    {
      match StatusOf(state) {
        case Satisfied =>
          SatisfiedResult(s0, state);
          return Finished(Satisfiable(FillUnassigned(state.assignment, state.numVars)));
        case UnassignedDecision(lit) =>
          DecideKeeps(s0, state, lit.v, lit.value);
          state := Decide(state, lit.v, lit.value);
        case UnassignedUnit(lit, clause) =>
          UnitKeeps(s0, state);
          state := AssignUnitprop(state, lit.v, lit.value, clause);
        case Falsified(falsified) =>
          if DecisionLevel(state.trail) == 0 {
            Level0Conflict(s0, state);
            return Finished(UnsatisfiableWithProof(state.clauses));
          }
          var analysis := AnalyzeConflict(state, falsified);
          match analysis {
            case AnalysisPanic =>
              return Panicked;
            case NoCut =>
            case Learn(learned, level) =>
              LearnBackjumpKeeps(s0, state, learned.literals, level);
              state := LearnClause(state, learned.literals);
              state := Backjump(state, level);
          }
      }
      steps := steps - 1;
    }
    return OutOfFuel;
  }

  /**
   * solve_cdcl: the loop from the blank state. A satisfiable result is a
   * total model of the formula, and an unsatisfiable one means the formula
   * has no model.
   */
  method SolveCdcl(f: CnfFormula, fuel: nat) returns (r: Outcome<SolverResult>)
    ensures r.Finished? ==> !r.value.Unsatisfiable?
    ensures r.Finished? && r.value.Satisfiable? ==>
      Complete(r.value.assignment, f.numVars) && CheckAssignment(f, r.value.assignment)
    ensures r.Finished? && r.value.UnsatisfiableWithProof? ==> forall t :: !CheckAssignment(f, t)
  {
    var s := FromCnf(f);
    SearchInvStart(s);
    r := SolveCdclFromState(s, fuel);
  }

  /**
   * test_solve_cdcl_sat: when the loop finishes on (1 2) (1 -2) (3 4) (3 -4),
   * it is satisfiable, with a total assignment that satisfies the formula.
   */
  method SatExampleCdcl(fuel: nat) returns (r: Outcome<SolverResult>)
    ensures r.Finished? ==> r.value.Satisfiable? && Complete(r.value.assignment, 5)
    ensures r.Finished? ==> CheckAssignment(CnfFormula(5, SolverExamples.SatClauses()), r.value.assignment)
  {
    var f := CnfFormula(5, SolverExamples.SatClauses());
    SolverExamples.SatModel(f, map[1 := true, 2 := false, 3 := true, 4 := false, 5 := false]);
    r := SolveCdcl(f, fuel);
  }

  /** test_solve_cdcl_unsat: when the loop finishes on the formula with (-1 -3) added, it is unsatisfiable. */
  method UnsatExampleCdcl(fuel: nat) returns (r: Outcome<SolverResult>)
    ensures r.Finished? ==> r.value.UnsatisfiableWithProof?
  {
    var f := CnfFormula(5, SolverExamples.UnsatClauses());
    r := SolveCdcl(f, fuel);
    if r.Finished? && r.value.Satisfiable? {
      SolverExamples.UnsatNoModel(f, r.value.assignment);
    }
  }
}
