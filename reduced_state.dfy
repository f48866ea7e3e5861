/**
 * The second solver revision (src/solverstate.rs): a state carries the
 * clauses that are still open, already simplified, together with the
 * assignment that produced them. `assign` sets one variable and simplifies
 * the clauses for it alone; unit propagation does a single round.
 */
module ReducedState {
  import opened Formula
  import opened Solver
  import TrailState

  datatype State = State(numVars: nat, clauses: seq<Clause>, assignment: Assignment)

  /**
   * The state invariant kept by every operation: each literal names a
   * variable of 1..numVars that the assignment leaves open.
   */
  predicate Valid(s: State)
  {
    forall c, l :: c in s.clauses && l in c.literals ==> 1 <= l.v <= s.numVars && l.v !in s.assignment
  }

  /** from_cnf: the formula's clauses under the blank assignment. */
  function FromCnf(f: CnfFormula): (s: State)
    ensures Valid(s) <==> WellFormed(f)
    ensures forall t :: AllSatisfied(s.clauses, t) <==> CheckAssignment(f, t)
  {
    State(f.numVars, f.clauses, map[])
  }

  /** The literals of `lits` on variables other than `v`, in order. */
  function DropVar(lits: seq<Lit>, v: nat): (r: seq<Lit>)
    ensures forall l :: l in r <==> l in lits && l.v != v
  {
    if lits == [] then [] else (if lits[0].v == v then [] else [lits[0]]) + DropVar(lits[1..], v)
  }

  /**
   * The clauses after `v := b`: every clause containing the literal (v, b)
   * is removed, every other one loses its literals on `v`.
   */
  function AssignClauses(cs: seq<Clause>, v: nat, b: bool): (r: seq<Clause>)
    ensures |r| <= |cs|
  {
    if cs == [] then []
    else (if Lit(v, b) in cs[0].literals then [] else [Clause(DropVar(cs[0].literals, v))]) + AssignClauses(cs[1..], v, b)
  }

  /**
   * The state after assign(v, b): num_vars is kept, `v` is set, no clause is
   * added, and the remaining literals are literals of the old clauses other
   * than those on `v`.
   */
  function Assigned(s: State, v: nat, b: bool): (r: State)
    ensures r.numVars == s.numVars
    ensures r.assignment.Keys == s.assignment.Keys + {v} && r.assignment[v] == b
    ensures forall w :: w in s.assignment && w != v ==> r.assignment[w] == s.assignment[w]
    ensures |r.clauses| <= |s.clauses|
    ensures forall c, l :: c in r.clauses && l in c.literals ==> l.v != v && Occurs(s.clauses, l)
  {
    AssignClausesLiterals(s.clauses, v, b);
    State(s.numVars, AssignClauses(s.clauses, v, b), s.assignment[v := b])
  }

  /** The literals left by assign are literals of the old clauses, none of them on `v`. */
  lemma {:induction false} AssignClausesLiterals(cs: seq<Clause>, v: nat, b: bool)
    ensures forall c, l :: c in AssignClauses(cs, v, b) && l in c.literals ==> l.v != v && Occurs(cs, l)
  {
    if cs != [] {
      var rest := AssignClauses(cs[1..], v, b);
      AssignClausesLiterals(cs[1..], v, b);
      forall c, l | c in AssignClauses(cs, v, b) && l in c.literals
        ensures l.v != v && Occurs(cs, l)
      {
        if c in rest {
          assert Occurs(cs[1..], l);
          var d :| d in cs[1..] && l in d.literals;
          assert d in cs;
        } else {
          assert c == Clause(DropVar(cs[0].literals, v)) && cs[0] in cs;
        }
      }
    }
  }

  lemma {:induction false} DropVarIsUnassigned(lits: seq<Lit>, v: nat, b: bool)
    ensures DropVar(lits, v) == Unassigned(lits, map[v := b])
  {
    if lits != [] {
      DropVarIsUnassigned(lits[1..], v, b);
    }
  }

  /** assign agrees with apply_assignment under the one-variable assignment {v: b}. */
  lemma {:induction false} AssignClausesIsReduced(cs: seq<Clause>, v: nat, b: bool)
    ensures AssignClauses(cs, v, b) == Reduced(cs, map[v := b])
  {
    if cs != [] {
      var c := cs[0];
      assert ClauseSatisfied(c, map[v := b]) <==> Lit(v, b) in c.literals by {
        assert IsTrue(map[v := b], Lit(v, b));
        if ClauseSatisfied(c, map[v := b]) {
          var l :| l in c.literals && IsTrue(map[v := b], l);
          assert l == Lit(v, b);
        }
      }
      DropVarIsUnassigned(c.literals, v, b);
      AssignClausesIsReduced(cs[1..], v, b);
    }
  }

  lemma AssignClausesSnoc(cs: seq<Clause>, j: nat, v: nat, b: bool)
    requires j < |cs|
    ensures AssignClauses(cs[..j + 1], v, b) ==
      AssignClauses(cs[..j], v, b) + (if Lit(v, b) in cs[j].literals then [] else [Clause(DropVar(cs[j].literals, v))])
  {
    assert cs[..j + 1] == cs[..j] + [cs[j]];
    AssignClausesIsReduced(cs[..j + 1], v, b);
    AssignClausesIsReduced(cs[..j], v, b);
    AssignClausesIsReduced([cs[j]], v, b);
    ReducedAppend(cs[..j], [cs[j]], map[v := b]);
  }

  /**
   * assign: one pass over the clauses, pushing the survivors with their
   * literals on `var` filtered out.
   */
  method Assign(s: State, v: nat, b: bool) returns (r: State)
    ensures r == Assigned(s, v, b)
  {
    var newClauses: seq<Clause> := [];
    var j := 0;
    while j < |s.clauses|
      invariant 0 <= j <= |s.clauses|
      invariant newClauses == AssignClauses(s.clauses[..j], v, b)
    {
      var clause := s.clauses[j];
      AssignClausesSnoc(s.clauses, j, v, b);
      if Lit(v, b) !in clause.literals {
        newClauses := newClauses + [Clause(DropVar(clause.literals, v))];
      }
      j := j + 1;
    }
    assert s.clauses[..j] == s.clauses;
    r := State(s.numVars, newClauses, s.assignment[v := b]);
  }

  /** assign keeps the state invariant when `v` is one of the state's variables. */
  lemma AssignedValid(s: State, v: nat, b: bool)
    requires Valid(s) && 1 <= v <= s.numVars
    ensures Valid(Assigned(s, v, b))
  {
    var r := Assigned(s, v, b);
    forall c, l | c in r.clauses && l in c.literals
      ensures 1 <= l.v <= r.numVars && l.v !in r.assignment
    {
      assert Occurs(s.clauses, l);
      var d :| d in s.clauses && l in d.literals;
    }
  }

  /**
   * assign loses no model and adds none: among the assignments extending the
   * new one, those satisfying the new clauses are exactly those satisfying
   * the old.
   */
  lemma AssignedKeepsModels(s: State, v: nat, b: bool, t: Assignment)
    requires Extends(t, s.assignment[v := b])
    ensures AllSatisfied(Assigned(s, v, b).clauses, t) <==> AllSatisfied(s.clauses, t)
  {
    AssignClausesIsReduced(s.clauses, v, b);
    ReducedKeepsModels(s.clauses, map[v := b], t);
  }

  // ---------------------------------------------------------------------------
  // pure_literal_eliminate
  // ---------------------------------------------------------------------------

  /**
   * Assigning one more variable that no remaining clause mentions as
   * assigned: simplifying the simplified clauses is simplifying the original
   * ones under the larger assignment.
   */
  lemma ReducedThenAssign(cs: seq<Clause>, p: Assignment, v: nat, b: bool)
    requires v !in p
    ensures AssignClauses(Reduced(cs, p), v, b) == Reduced(cs, p[v := b])
  {
    var red := Reduced(cs, p);
    AssignClausesIsReduced(red, v, b);
    ReducedLiterals(cs, p);
    assert forall c, l :: c in red && l in c.literals ==> LitValue(map[v := b], l) == LitValue(p[v := b], l);
    ReducedAgree(red, map[v := b], p[v := b]);
    ReducedTwice(cs, p, p[v := b]);
  }

  /**
   * pure_literal_eliminate: the polarities are collected once from the
   * clauses of the input state, then every pure variable of 1..numVars is
   * assigned its sole polarity in increasing order. The result is the input
   * simplified under the pure assignment.
   */
  method PureLiteralEliminate(s: State) returns (r: State)
    requires forall c, l :: c in s.clauses && l in c.literals ==> 1 <= l.v <= s.numVars
    ensures r.numVars == s.numVars
    ensures r.assignment == s.assignment + PureAssignment(s.clauses, s.numVars)
    ensures r.clauses == Reduced(s.clauses, PureAssignment(s.clauses, s.numVars))
  {
    var seenPos, seenNeg := SeenPolarities(s.clauses, s.numVars);
    r := AssignPure(s, seenPos[..], seenNeg[..]);
  }

  /** The assignment loop of pure_literal_eliminate, over the collected polarities. */
  method AssignPure(s: State, pos: seq<bool>, neg: seq<bool>) returns (r: State)
    requires |pos| == s.numVars && |neg| == s.numVars
    requires forall i :: 0 <= i < s.numVars ==> (pos[i] <==> Occurs(s.clauses, Lit(i + 1, true)))
    requires forall i :: 0 <= i < s.numVars ==> (neg[i] <==> Occurs(s.clauses, Lit(i + 1, false)))
    ensures r.numVars == s.numVars
    ensures r.assignment == s.assignment + PureAssignment(s.clauses, s.numVars)
    ensures r.clauses == Reduced(s.clauses, PureAssignment(s.clauses, s.numVars))
  {
    ReducedUntouched(s.clauses, map[]);
    PureAssignmentEmpty(s.clauses, s.assignment);
    r := s;
    for i := 0 to s.numVars
      invariant r.numVars == s.numVars
      invariant r.assignment == s.assignment + PureAssignment(s.clauses, i)
      invariant r.clauses == Reduced(s.clauses, PureAssignment(s.clauses, i))
    {
      r := AssignPureStep(s, r, i, pos[i], neg[i]);
    }
  }

  /** One round of the assignment loop: assign variable i + 1 if it is pure. */
  method AssignPureStep(s: State, r: State, i: nat, p: bool, n: bool) returns (r': State)
    requires (p <==> Occurs(s.clauses, Lit(i + 1, true))) && (n <==> Occurs(s.clauses, Lit(i + 1, false)))
    requires r.numVars == s.numVars
    requires r.assignment == s.assignment + PureAssignment(s.clauses, i)
    requires r.clauses == Reduced(s.clauses, PureAssignment(s.clauses, i))
    ensures r'.numVars == s.numVars
    ensures r'.assignment == s.assignment + PureAssignment(s.clauses, i + 1)
    ensures r'.clauses == Reduced(s.clauses, PureAssignment(s.clauses, i + 1))
  {
    var pv := if p && !n then Some(true) else if !p && n then Some(false) else None;
    assert pv == PureValue(s.clauses, i + 1);
    if pv.Some? {
      AssignedPureStep(s, r, i, pv.value);
      r' := Assign(r, i + 1, pv.value);
    } else {
      PureAssignmentStep(s.clauses, s.assignment, i);
      r' := r;
    }
  }

  /** Assigning the next pure variable extends the pure prefix by one, on the assignment and on the clauses. */
  lemma AssignedPureStep(s: State, r: State, i: nat, b: bool)
    requires r.numVars == s.numVars
    requires r.assignment == s.assignment + PureAssignment(s.clauses, i)
    requires r.clauses == Reduced(s.clauses, PureAssignment(s.clauses, i))
    requires PureValue(s.clauses, i + 1) == Some(b)
    ensures Assigned(r, i + 1, b) ==
      State(s.numVars, Reduced(s.clauses, PureAssignment(s.clauses, i + 1)), s.assignment + PureAssignment(s.clauses, i + 1))
  {
    PureAssignmentStep(s.clauses, s.assignment, i);
    assert i + 1 !in PureAssignment(s.clauses, i);
    ReducedThenAssign(s.clauses, PureAssignment(s.clauses, i), i + 1, b);
  }

  // ---------------------------------------------------------------------------
  // unit_propagate and check_assignment
  // ---------------------------------------------------------------------------

  /**
   * unit_propagate, one round: nothing when the state is satisfied or
   * falsified or has no unit clause; otherwise the literal of the first unit
   * clause and the state assigned to satisfy it.
   */
  function UnitPropagate(s: State): (r: Option<(Lit, State)>)
    ensures r.Some? <==>
      !IsSatisfied(s.clauses) && !IsFalsified(s.clauses) && exists c :: c in s.clauses && |c.literals| == 1
    ensures r.Some? ==> r.value.0 == FirstUnit(s.clauses).value && Clause([r.value.0]) in s.clauses
    ensures r.Some? ==> r.value.1.clauses == Reduced(s.clauses, map[r.value.0.v := r.value.0.value])
    ensures r.Some? ==> r.value.1.assignment == s.assignment[r.value.0.v := r.value.0.value]
  {
    if IsSatisfied(s.clauses) || IsFalsified(s.clauses) then None
    else match FirstUnit(s.clauses)
      case None => None
      case Some(l) =>
        AssignClausesIsReduced(s.clauses, l.v, l.value);
        Some((l, Assigned(s, l.v, l.value)))
  }

  /**
   * A round of unit propagation loses no model: every model of the clauses
   * that extends the state's assignment makes the propagated literal true,
   * so it extends the new assignment and satisfies the new clauses.
   */
  lemma UnitPropagateKeepsModels(s: State, t: Assignment)
    requires UnitPropagate(s).Some?
    requires Extends(t, s.assignment) && AllSatisfied(s.clauses, t)
    ensures IsTrue(t, UnitPropagate(s).value.0)
    ensures Extends(t, UnitPropagate(s).value.1.assignment)
    ensures AllSatisfied(UnitPropagate(s).value.1.clauses, t)
  {
    var l := UnitPropagate(s).value.0;
    assert ClauseSatisfied(Clause([l]), t);
    AssignedKeepsModels(s, l.v, l.value, t);
  }

  /**
   * check_assignment: an empty clause makes it false; it agrees with
   * apply_assignment reporting the formula satisfied; and it stays true when
   * the assignment is extended.
   */
  lemma CheckAssignmentProperties(f: CnfFormula, a: Assignment, b: Assignment)
    ensures Clause([]) in f.clauses ==> !CheckAssignment(f, a)
    ensures CheckAssignment(f, a) <==> IsSatisfied(Reduced(f.clauses, a))
    ensures CheckAssignment(f, a) && Extends(b, a) ==> CheckAssignment(f, b)
  {
    ReducedEmptyIff(f.clauses, a);
    if CheckAssignment(f, a) && Extends(b, a) {
      SatisfiedExtends(f.clauses, a, b);
    }
  }

  // ---------------------------------------------------------------------------
  // The unit tests of unit_propagate and pure_literal_eliminate
  // ---------------------------------------------------------------------------

  function UcpClauses(): seq<Clause>
  {
    [Clause([Lit(1, true), Lit(2, true)]), Clause([Lit(1, false), Lit(2, false)]),
     Clause([Lit(1, true)]), Clause([Lit(3, true), Lit(4, true)])]
  }

  /**
   * test_ucp: on (1 2) (-1 -2) (1) (3 4), one round of unit_propagate from
   * the blank state returns the literal 1 and the clauses (-2) (3 4).
   */
  lemma UcpExample(f: CnfFormula)
    requires f == CnfFormula(5, UcpClauses())
    ensures UnitPropagate(FromCnf(f)).Some?
    ensures UnitPropagate(FromCnf(f)).value.0 == Lit(1, true)
    ensures UnitPropagate(FromCnf(f)).value.1.clauses == [Clause([Lit(2, false)]), Clause([Lit(3, true), Lit(4, true)])]
    ensures UnitPropagate(FromCnf(f)).value.1.assignment == map[1 := true]
  {
    UcpUnit(f.clauses);
    UcpReduced(f.clauses, map[1 := true]);
  }

  /** The formula of test_ucp is undecided and its first unit clause is (1). */
  lemma UcpUnit(cs: seq<Clause>)
    requires cs == UcpClauses()
    ensures !IsSatisfied(cs) && !IsFalsified(cs) && FirstUnit(cs) == Some(Lit(1, true))
  {
    assert forall c :: c in cs ==> c.literals != [];
    assert cs[1..] == [cs[1], cs[2], cs[3]] && cs[1..][1..] == [cs[2], cs[3]];
  }

  /** A satisfied first clause contributes nothing to the simplified formula. */
  lemma ReducedSkipHead(cs: seq<Clause>, a: Assignment)
    requires cs != [] && ClauseSatisfied(cs[0], a)
    ensures Reduced(cs, a) == Reduced(cs[1..], a)
  {
  }

  /** An unsatisfied first clause contributes its open literals. */
  lemma ReducedKeepHead(cs: seq<Clause>, a: Assignment)
    requires cs != [] && !ClauseSatisfied(cs[0], a)
    ensures Reduced(cs, a) == [Clause(Unassigned(cs[0].literals, a))] + Reduced(cs[1..], a)
  {
  }

  /** Four clauses of which the first and third are satisfied simplify to the other two. */
  lemma ReducedFourOpen(cs: seq<Clause>, a: Assignment)
    requires |cs| == 4
    requires ClauseSatisfied(cs[0], a) && !ClauseSatisfied(cs[1], a)
    requires ClauseSatisfied(cs[2], a) && !ClauseSatisfied(cs[3], a)
    ensures Reduced(cs, a) == [Clause(Unassigned(cs[1].literals, a)), Clause(Unassigned(cs[3].literals, a))]
  {
    var t1, t2, t3 := cs[1..], cs[2..], cs[3..];
    assert t1[0] == cs[1] && t1[1..] == t2 && t2[0] == cs[2] && t2[1..] == t3 && t3[0] == cs[3] && t3[1..] == [];
    ReducedSkipHead(cs, a);
    ReducedKeepHead(t1, a);
    ReducedSkipHead(t2, a);
    ReducedKeepHead(t3, a);
  }

  /** A two-literal clause whose first literal is false and second unassigned keeps only the second. */
  lemma PairFalseOpen(x: Lit, y: Lit, a: Assignment)
    requires IsFalse(a, x) && y.v !in a
    ensures !ClauseSatisfied(Clause([x, y]), a) && Unassigned([x, y], a) == [y]
  {
    TrailState.UnassignedPair(x, y, a);
  }

  /** A two-literal clause over unassigned variables keeps both. */
  lemma PairBothOpen(x: Lit, y: Lit, a: Assignment)
    requires x.v !in a && y.v !in a
    ensures !ClauseSatisfied(Clause([x, y]), a) && Unassigned([x, y], a) == [x, y]
  {
    TrailState.UnassignedPair(x, y, a);
  }

  /** The clause-by-clause view of the test_ucp formula under 1 := true. */
  lemma UcpClauseFacts(a: Assignment)
    requires a == map[1 := true]
    ensures ClauseSatisfied(Clause([Lit(1, true), Lit(2, true)]), a)
    ensures !ClauseSatisfied(Clause([Lit(1, false), Lit(2, false)]), a)
    ensures Unassigned([Lit(1, false), Lit(2, false)], a) == [Lit(2, false)]
    ensures ClauseSatisfied(Clause([Lit(1, true)]), a)
    ensures !ClauseSatisfied(Clause([Lit(3, true), Lit(4, true)]), a)
    ensures Unassigned([Lit(3, true), Lit(4, true)], a) == [Lit(3, true), Lit(4, true)]
  {
    assert IsTrue(a, Lit(1, true)) && IsFalse(a, Lit(1, false));
    assert Lit(1, true) in [Lit(1, true), Lit(2, true)] && Lit(1, true) in [Lit(1, true)];
    PairFalseOpen(Lit(1, false), Lit(2, false), a);
    PairBothOpen(Lit(3, true), Lit(4, true), a);
  }

  /** Under 1 := true, (1 2) and (1) go, (-1 -2) loses -1, and (3 4) stays. */
  lemma UcpReduced(cs: seq<Clause>, a: Assignment)
    requires cs == UcpClauses() && a == map[1 := true]
    ensures Reduced(cs, a) == [Clause([Lit(2, false)]), Clause([Lit(3, true), Lit(4, true)])]
  {
    UcpClauseFacts(a);
    ReducedFourOpen(cs, a);
  }

  /**
   * test_ple: on (1 2) (1 -2) (3 4) (3 -4) (-3) over five variables, only 1
   * is pure, so pure_literal_eliminate from the blank state assigns 1 := true
   * and keeps the clauses (3 4) (3 -4) (-3); these are the result's clauses
   * by PureLiteralEliminate's contract.
   */
  lemma PleExample(cs: seq<Clause>)
    requires cs == [Clause([Lit(1, true), Lit(2, true)]), Clause([Lit(1, true), Lit(2, false)]),
                    Clause([Lit(3, true), Lit(4, true)]), Clause([Lit(3, true), Lit(4, false)]),
                    Clause([Lit(3, false)])]
    ensures PureAssignment(cs, 5) == map[1 := true]
    ensures Reduced(cs, PureAssignment(cs, 5)) ==
      [Clause([Lit(3, true), Lit(4, true)]), Clause([Lit(3, true), Lit(4, false)]), Clause([Lit(3, false)])]
  {
    TrailState.PlePure(cs);
    TrailState.PleReduced(cs, map[1 := true]);
    TrailState.EquivalentClausesAreReduced(cs, map[1 := true]);
  }
}
