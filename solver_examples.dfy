/**
 * The formulas of the solver's own unit tests, and an input on which the
 * DPLL search as written returns an assignment that is not a model.
 *
 * Concrete formulas are passed in as parameters equal to a literal, and the
 * searches are unfolded one step at a time through the generic lemmas of the
 * first section.
 */
module SolverExamples {
  import opened Formula
  import opened Solver

  // ---------------------------------------------------------------------------
  // One step of each definition
  // ---------------------------------------------------------------------------

  lemma ReducedPair(c0: Clause, c1: Clause, a: Assignment)
    ensures Reduced([c0, c1], a) ==
      (if ClauseSatisfied(c0, a) then [] else [Clause(Unassigned(c0.literals, a))]) +
      (if ClauseSatisfied(c1, a) then [] else [Clause(Unassigned(c1.literals, a))])
  {
    assert [c0, c1][1..] == [c1];
    assert [c1][1..] == [];
  }

  lemma ReducedTriple(c0: Clause, c1: Clause, c2: Clause, a: Assignment)
    ensures Reduced([c0, c1, c2], a) ==
      (if ClauseSatisfied(c0, a) then [] else [Clause(Unassigned(c0.literals, a))]) + Reduced([c1, c2], a)
  {
    assert [c0, c1, c2][1..] == [c1, c2];
  }

  lemma PropagatedStep(cs: seq<Clause>, a: Assignment, l: Lit)
    requires !IsSatisfied(Reduced(cs, a)) && !IsFalsified(Reduced(cs, a))
    requires FirstUnit(Reduced(cs, a)) == Some(l)
    ensures Propagated(cs, a) == Propagated(cs, a[l.v := l.value])
  {
  }

  lemma PropagatedNoUnit(cs: seq<Clause>, a: Assignment)
    requires FirstUnit(Reduced(cs, a)) == None
    ensures Propagated(cs, a) == a
  {
  }

  lemma PropagatedDone(cs: seq<Clause>, a: Assignment)
    requires IsSatisfied(Reduced(cs, a))
    ensures Propagated(cs, a) == a
  {
  }

  /** An undecided call of the search as written takes the False branch when it succeeds. */
  lemma DpllAsWrittenFalseBranch(cs: seq<Clause>, cube: Assignment, n: nat, newA: Assignment, v: nat, r: Assignment)
    requires newA == Propagated(cs, cube)
    requires !IsSatisfied(Reduced(cs, newA)) && !IsFalsified(Reduced(cs, newA))
    requires FirstUnassigned(cube, n) == Some(v)
    requires DpllRecAsWritten(Reduced(cs, newA), newA[v := false], n) == Some(r)
    ensures DpllRecAsWritten(cs, cube, n) == Some(r)
  {
  }

  lemma UnassignedPair(x: Lit, y: Lit, a: Assignment)
    ensures Unassigned([x, y], a) == (if x.v in a then [] else [x]) + (if y.v in a then [] else [y])
  {
    assert [x, y][1..] == [y];
    assert [y][1..] == [];
  }

  lemma UnassignedTriple(x: Lit, y: Lit, z: Lit, a: Assignment)
    ensures Unassigned([x, y, z], a) == (if x.v in a then [] else [x]) + Unassigned([y, z], a)
  {
    assert [x, y, z][1..] == [y, z];
  }

  lemma DpllAsWrittenDone(cs: seq<Clause>, cube: Assignment, n: nat)
    requires IsSatisfied(Reduced(cs, Propagated(cs, cube)))
    ensures DpllRecAsWritten(cs, cube, n) == Some(FillUnassigned(Propagated(cs, cube), n))
  {
  }

  /** A clause of two literals is satisfied exactly when one of them is true. */
  lemma PairSatisfied(x: Lit, y: Lit, t: Assignment)
    ensures ClauseSatisfied(Clause([x, y]), t) <==> IsTrue(t, x) || IsTrue(t, y)
  {
    assert x in [x, y] && y in [x, y];
  }

  /** Filling an assignment that already covers 1..n changes nothing. */
  lemma FillComplete(a: Assignment, n: nat)
    requires a.Keys == Domain(n)
    ensures FillUnassigned(a, n) == a
  {
  }

  // ---------------------------------------------------------------------------
  // The DPLL counterexample: (1) (-1 2 3) (-2 -3) over three variables
  // ---------------------------------------------------------------------------

  function BadClauses(): seq<Clause>
  {
    [Clause([Lit(1, true)]),
     Clause([Lit(1, false), Lit(2, true), Lit(3, true)]),
     Clause([Lit(2, false), Lit(3, false)])]
  }

  /** The two clauses left once the unit clause (1) has been propagated. */
  function RestClauses(): seq<Clause>
  {
    [Clause([Lit(2, true), Lit(3, true)]), Clause([Lit(2, false), Lit(3, false)])]
  }

  function Wrong(): Assignment
  {
    map[1 := false, 2 := false, 3 := true]
  }

  lemma BadNoPure(cs: seq<Clause>)
    requires cs == BadClauses()
    ensures PureAssignment(cs, 3) == map[]
  {
    assert Lit(1, true) in cs[0].literals && Lit(1, false) in cs[1].literals;
    assert Lit(2, true) in cs[1].literals && Lit(2, false) in cs[2].literals;
    assert Lit(3, true) in cs[1].literals && Lit(3, false) in cs[2].literals;
    assert Occurs(cs, Lit(1, true)) && Occurs(cs, Lit(1, false));
    assert Occurs(cs, Lit(2, true)) && Occurs(cs, Lit(2, false));
    assert Occurs(cs, Lit(3, true)) && Occurs(cs, Lit(3, false));
    assert PureAssignment(cs, 3).Keys == {};
  }

  lemma BadUndecided(cs: seq<Clause>)
    requires cs == BadClauses()
    ensures !IsSatisfied(cs) && !IsFalsified(cs) && FirstUnit(cs) == Some(Lit(1, true))
  {
    assert forall c :: c in cs ==> c.literals != [];
  }

  lemma RestUndecided(cs: seq<Clause>)
    requires cs == RestClauses()
    ensures !IsSatisfied(cs) && !IsFalsified(cs) && FirstUnit(cs) == None
  {
    assert forall c :: c in cs ==> |c.literals| == 2;
  }

  lemma BadReducedByOne(cs: seq<Clause>, a: Assignment)
    requires cs == BadClauses() && a == map[1 := true]
    ensures Reduced(cs, a) == RestClauses()
  {
    var c0, c1, c2 := cs[0], cs[1], cs[2];
    assert cs == [c0, c1, c2];
    assert Lit(1, true) in c0.literals && IsTrue(a, Lit(1, true));
    SecondClauseReduced(c1, a);
    ThirdClauseReduced(c2, a);
    ReducedTriple(c0, c1, c2, a);
    ReducedPair(c1, c2, a);
  }

  /** Under 1 := true, the clause (-1 2 3) loses its first literal. */
  lemma SecondClauseReduced(c: Clause, a: Assignment)
    requires c == Clause([Lit(1, false), Lit(2, true), Lit(3, true)]) && a == map[1 := true]
    ensures !ClauseSatisfied(c, a) && Unassigned(c.literals, a) == [Lit(2, true), Lit(3, true)]
  {
    UnassignedTriple(Lit(1, false), Lit(2, true), Lit(3, true), a);
    UnassignedPair(Lit(2, true), Lit(3, true), a);
  }

  /** Under 1 := true, the clause (-2 -3) is untouched. */
  lemma ThirdClauseReduced(c: Clause, a: Assignment)
    requires c == Clause([Lit(2, false), Lit(3, false)]) && a == map[1 := true]
    ensures !ClauseSatisfied(c, a) && Unassigned(c.literals, a) == [Lit(2, false), Lit(3, false)]
  {
    UnassignedPair(Lit(2, false), Lit(3, false), a);
  }

  /** From the blank cube propagation sets variable 1 and stops on the two remaining clauses. */
  lemma BadTop(cs: seq<Clause>, a0: Assignment, a1: Assignment)
    requires cs == BadClauses() && a0 == map[] && a1 == map[1 := true]
    ensures Propagated(cs, a0) == a1
    ensures Reduced(cs, a1) == RestClauses()
  {
    ReducedUntouched(cs, a0);
    BadUndecided(cs);
    assert a0[1 := true] == a1;
    PropagatedStep(cs, a0, Lit(1, true));
    BadReducedByOne(cs, a1);
    RestUndecided(Reduced(cs, a1));
    PropagatedNoUnit(cs, a1);
  }

  lemma RestReducedByTwo(cs: seq<Clause>, a: Assignment)
    requires cs == RestClauses() && a == map[1 := false, 2 := false]
    ensures Reduced(cs, a) == [Clause([Lit(3, true)])]
  {
    assert Lit(2, false) in cs[1].literals;
    assert !ClauseSatisfied(cs[0], a);
    assert Unassigned(cs[0].literals, a) == [Lit(3, true)];
    ReducedPair(cs[0], cs[1], a);
  }

  lemma RestSatisfied(cs: seq<Clause>, w: Assignment)
    requires cs == RestClauses() && w == Wrong()
    ensures IsSatisfied(Reduced(cs, w))
  {
    assert Lit(3, true) in cs[0].literals && Lit(2, false) in cs[1].literals;
    ReducedPair(cs[0], cs[1], w);
  }

  /** With 1 and 2 false, the unit clause (3) is propagated and the search succeeds. */
  lemma BadInner(cs: seq<Clause>, a: Assignment, n: nat, w: Assignment)
    requires cs == RestClauses() && a == map[1 := false, 2 := false] && n == 3 && w == Wrong()
    ensures DpllRecAsWritten(cs, a, n) == Some(w)
  {
    var red := Reduced(cs, a);
    RestReducedByTwo(cs, a);
    assert red[0] in red && red[0].literals != [];
    assert a[3 := true] == w;
    PropagatedStep(cs, a, Lit(3, true));
    RestSatisfied(cs, w);
    PropagatedDone(cs, w);
    DpllAsWrittenDone(cs, a, n);
    WrongComplete(w, n);
    FillComplete(w, n);
  }

  lemma WrongComplete(w: Assignment, n: nat)
    requires w == Wrong() && n == 3
    ensures w.Keys == Domain(n)
  {
    assert forall v :: v in w.Keys <==> 1 <= v <= 3;
  }

  /** Below the branch 1 := false nothing propagates, and variable 2 is tried false first. */
  lemma BadMiddle(cs: seq<Clause>, a: Assignment, n: nat, w: Assignment)
    requires cs == RestClauses() && a == map[1 := false] && n == 3 && w == Wrong()
    ensures DpllRecAsWritten(cs, a, n) == Some(w)
  {
    ReducedUntouched(cs, a);
    RestUndecided(cs);
    PropagatedNoUnit(cs, a);
    assert FirstUnassigned(a, n) == Some(2);
    var a2 := a[2 := false];
    assert a2 == map[1 := false, 2 := false];
    BadInner(cs, a2, n, w);
    DpllAsWrittenFalseBranch(cs, a, n, a, 2, w);
  }

  /** Below the propagated cube {1: true}, the branch 1 := false finds Wrong(). */
  lemma BadOverride(cs: seq<Clause>, n: nat, a0: Assignment, a1: Assignment, w: Assignment)
    requires a0 == map[] && a1 == map[1 := true] && n == 3 && w == Wrong()
    requires Propagated(cs, a0) == a1 && Reduced(cs, a1) == RestClauses()
    ensures DpllRecAsWritten(Reduced(cs, a1), a1[1 := false], n) == Some(w)
  {
    BadMiddle(Reduced(cs, a1), a1[1 := false], n, w);
  }

  /** The top call branches on variable 1, unassigned in the blank cube, and keeps the False branch. */
  lemma BadBranch(cs: seq<Clause>, n: nat, a0: Assignment, a1: Assignment, w: Assignment)
    requires a0 == map[] && a1 == map[1 := true] && n == 3 && w == Wrong()
    requires Propagated(cs, a0) == a1 && Reduced(cs, a1) == RestClauses()
    requires DpllRecAsWritten(Reduced(cs, a1), a1[1 := false], n) == Some(w)
    ensures DpllRecAsWritten(cs, a0, n) == Some(w)
  {
    RestUndecided(Reduced(cs, a1));
    FirstUnassignedBlank(a0, n);
    DpllAsWrittenFalseBranch(cs, a0, n, a1, 1, w);
  }

  lemma BadSearch(cs: seq<Clause>, n: nat, a0: Assignment, a1: Assignment, w: Assignment)
    requires cs == BadClauses() && a0 == map[] && a1 == map[1 := true] && n == 3 && w == Wrong()
    ensures DpllRecAsWritten(cs, a0, n) == Some(w)
  {
    BadTop(cs, a0, a1);
    BadOverride(cs, n, a0, a1, w);
    BadBranch(cs, n, a0, a1, w);
  }

  lemma FirstUnassignedBlank(a0: Assignment, n: nat)
    requires a0 == map[] && n == 3
    ensures FirstUnassigned(a0, n) == Some(1)
  {
  }

  /** With no pure literal, the search starts from the formula itself and the blank cube. */
  lemma SolveDpllAsWrittenNoPure(f: CnfFormula)
    requires WellFormed(f) && PureAssignment(f.clauses, f.numVars) == map[]
    ensures SolveDpllAsWritten(f) == DpllRecAsWritten(f.clauses, map[], f.numVars)
  {
    ReducedUntouched(f.clauses, map[]);
  }

  lemma BadModels(f: CnfFormula, m: Assignment, w: Assignment)
    requires f == CnfFormula(3, BadClauses()) && m == map[1 := true, 2 := true, 3 := false] && w == Wrong()
    ensures WellFormed(f) && Domain(f.numVars) <= m.Keys && CheckAssignment(f, m)
    ensures !CheckAssignment(f, w)
  {
    var cs := f.clauses;
    assert Lit(1, true) in cs[0].literals && Lit(2, true) in cs[1].literals && Lit(3, false) in cs[2].literals;
    assert forall c :: c in cs ==> c == cs[0] || c == cs[1] || c == cs[2];
    assert !ClauseSatisfied(cs[0], w);
  }

  /**
   * The DPLL search as written returns {1: false, 2: false, 3: true} on
   * (1) (-1 2 3) (-2 -3): propagation sets 1 to true, but the branch is taken
   * on variable 1 (unassigned in the cube passed in) and overrides it with
   * false. The result falsifies the unit clause (1), although the formula has
   * the model {1: true, 2: true, 3: false}.
   */
  lemma DpllAsWrittenUnsound(f: CnfFormula)
    requires f == CnfFormula(3, BadClauses())
    ensures WellFormed(f)
    ensures SolveDpllAsWritten(f) == Some(Wrong())
    ensures !CheckAssignment(f, Wrong())
    ensures CheckAssignment(f, map[1 := true, 2 := true, 3 := false])
  {
    BadModels(f, map[1 := true, 2 := true, 3 := false], Wrong());
    BadNoPure(f.clauses);
    SolveDpllAsWrittenNoPure(f);
    BadSearch(f.clauses, f.numVars, map[], map[1 := true], Wrong());
  }

  // ---------------------------------------------------------------------------
  // The unit-test formulas: (1 2) (1 -2) (3 4) (3 -4), and the same with (-1 -3)
  // ---------------------------------------------------------------------------

  function SatClauses(): seq<Clause>
  {
    [Clause([Lit(1, true), Lit(2, true)]), Clause([Lit(1, true), Lit(2, false)]),
     Clause([Lit(3, true), Lit(4, true)]), Clause([Lit(3, true), Lit(4, false)])]
  }

  function UnsatClauses(): seq<Clause>
  {
    SatClauses() + [Clause([Lit(1, false), Lit(3, false)])]
  }

  /** On a formula with a model of 1..numVars, all three searches return a total model. */
  lemma SolversFindModel(f: CnfFormula, m: Assignment)
    requires WellFormed(f) && m.Keys == Domain(f.numVars) && CheckAssignment(f, m)
    ensures SolveBasic(f).Some? && SolveBasic(f).value.Keys == Domain(f.numVars)
    ensures CheckAssignment(f, SolveBasic(f).value)
    ensures SolveBacktrack(f).Some? && Domain(f.numVars) <= SolveBacktrack(f).value.Keys
    ensures CheckAssignment(f, SolveBacktrack(f).value)
    ensures SolveDpll(f).Some? && Domain(f.numVars) <= SolveDpll(f).value.Keys
    ensures CheckAssignment(f, SolveDpll(f).value)
  {
    SolveBasicCorrect(f);
    SolveBacktrackCorrect(f);
    SolveDpllCorrect(f);
  }

  /** On a formula without a model, all three searches return None. */
  lemma SolversFindNone(f: CnfFormula)
    requires WellFormed(f) && forall t: Assignment :: !CheckAssignment(f, t)
    ensures SolveBasic(f).None? && SolveBacktrack(f).None? && SolveDpll(f).None?
  {
    SolveBasicCorrect(f);
    SolveBacktrackCorrect(f);
    SolveDpllCorrect(f);
  }

  lemma SatModel(f: CnfFormula, m: Assignment)
    requires f == CnfFormula(5, SatClauses()) && m == map[1 := true, 2 := false, 3 := true, 4 := false, 5 := false]
    ensures WellFormed(f) && m.Keys == Domain(f.numVars) && CheckAssignment(f, m)
  {
    var cs := f.clauses;
    assert forall c :: c in cs ==> c == cs[0] || c == cs[1] || c == cs[2] || c == cs[3];
    assert Lit(1, true) in cs[0].literals && Lit(1, true) in cs[1].literals;
    assert Lit(3, true) in cs[2].literals && Lit(3, true) in cs[3].literals;
  }

  /**
   * (1 2) and (1 -2) force 1 true, (3 4) and (3 -4) force 3 true, and then
   * (-1 -3) is false: no assignment satisfies the second test formula.
   */
  lemma UnsatNoModel(f: CnfFormula, t: Assignment)
    requires f == CnfFormula(5, UnsatClauses())
    ensures WellFormed(f) && !CheckAssignment(f, t)
  {
    var cs := f.clauses;
    assert forall c :: c in cs ==> c == cs[0] || c == cs[1] || c == cs[2] || c == cs[3] || c == cs[4];
    if CheckAssignment(f, t) {
      assert cs[0] in cs && cs[1] in cs && cs[2] in cs && cs[3] in cs && cs[4] in cs;
      PairSatisfied(Lit(1, true), Lit(2, true), t);
      PairSatisfied(Lit(1, true), Lit(2, false), t);
      PairSatisfied(Lit(3, true), Lit(4, true), t);
      PairSatisfied(Lit(3, true), Lit(4, false), t);
      PairSatisfied(Lit(1, false), Lit(3, false), t);
      assert false;
    }
  }

  /**
   * test_solve_*_sat: every search returns an assignment of variables 1..5
   * that satisfies the formula; test_solve_dpll_sat runs the DPLL search as
   * written.
   */
  lemma SatExampleSolved(f: CnfFormula)
    requires f == CnfFormula(5, SatClauses())
    ensures SolveBasic(f).Some? && SolveBasic(f).value.Keys == Domain(5)
    ensures CheckAssignment(f, SolveBasic(f).value)
    ensures SolveBacktrack(f).Some? && Domain(5) <= SolveBacktrack(f).value.Keys
    ensures CheckAssignment(f, SolveBacktrack(f).value)
    ensures WellFormed(f) && SolveDpll(f).Some? && Domain(5) <= SolveDpll(f).value.Keys
    ensures CheckAssignment(f, SolveDpll(f).value)
    ensures SolveDpllAsWritten(f).Some? && Domain(5) <= SolveDpllAsWritten(f).value.Keys
    ensures CheckAssignment(f, SolveDpllAsWritten(f).value)
  {
    var m := map[1 := true, 2 := false, 3 := true, 4 := false, 5 := false];
    SatModel(f, m);
    SolversFindModel(f, m);
    DpllAsWrittenSatExample(f);
  }

  /** test_solve_*_unsat: every search, the DPLL search as written included, returns None. */
  lemma UnsatExampleRejected(f: CnfFormula)
    requires f == CnfFormula(5, UnsatClauses())
    ensures WellFormed(f)
    ensures SolveBasic(f).None? && SolveBacktrack(f).None? && SolveDpll(f).None?
    ensures SolveDpllAsWritten(f).None?
  {
    DpllAsWrittenUnsatExample(f);
    UnsatNoModel(f, map[]);
    forall t: Assignment
      ensures !CheckAssignment(f, t)
    {
      UnsatNoModel(f, t);
    }
    SolversFindNone(f);
  }

  // ---------------------------------------------------------------------------
  // The unit-test formulas under the DPLL search as written
  // ---------------------------------------------------------------------------

  /** The part of the simplified formula one clause contributes. */
  function ReducedOne(c: Clause, a: Assignment): seq<Clause>
  {
    if ClauseSatisfied(c, a) then [] else [Clause(Unassigned(c.literals, a))]
  }

  lemma ReducedCons(c: Clause, rest: seq<Clause>, a: Assignment)
    ensures Reduced([c] + rest, a) == ReducedOne(c, a) + Reduced(rest, a)
  {
    assert ([c] + rest)[0] == c && ([c] + rest)[1..] == rest;
  }

  /**
   * The first unit clause of a simplified formula comes from the first clause
   * that simplifies to a single literal.
   */
  lemma {:induction false} ReducedFirstUnit(cs: seq<Clause>, a: Assignment, k: nat, l: Lit)
    requires k < |cs|
    requires forall j :: 0 <= j < k ==> ClauseSatisfied(cs[j], a) || |Unassigned(cs[j].literals, a)| != 1
    requires !ClauseSatisfied(cs[k], a) && Unassigned(cs[k].literals, a) == [l]
    ensures FirstUnit(Reduced(cs, a)) == Some(l)
  {
    if k == 0 {
      ReducedCons(cs[0], cs[1..], a);
      assert [cs[0]] + cs[1..] == cs;
      FirstUnitHead(Clause([l]), Reduced(cs[1..], a));
    } else {
      forall j | 0 <= j < k - 1
        ensures ClauseSatisfied(cs[1..][j], a) || |Unassigned(cs[1..][j].literals, a)| != 1
      {
        assert cs[1..][j] == cs[j + 1];
      }
      assert cs[1..][k - 1] == cs[k];
      ReducedFirstUnit(cs[1..], a, k - 1, l);
      ReducedNoUnitHead(cs, a);
    }
  }

  /** A first clause that does not simplify to a unit leaves the first unit to the rest. */
  lemma ReducedNoUnitHead(cs: seq<Clause>, a: Assignment)
    requires cs != [] && (ClauseSatisfied(cs[0], a) || |Unassigned(cs[0].literals, a)| != 1)
    ensures FirstUnit(Reduced(cs, a)) == FirstUnit(Reduced(cs[1..], a))
  {
    var rest := Reduced(cs[1..], a);
    ReducedCons(cs[0], cs[1..], a);
    assert [cs[0]] + cs[1..] == cs;
    if ClauseSatisfied(cs[0], a) {
      assert ReducedOne(cs[0], a) + rest == rest;
    } else {
      FirstUnitSkip(Clause(Unassigned(cs[0].literals, a)), rest);
    }
  }

  lemma FirstUnitHead(c: Clause, rest: seq<Clause>)
    requires |c.literals| == 1
    ensures FirstUnit([c] + rest) == Some(c.literals[0])
  {
    assert ([c] + rest)[0] == c;
  }

  lemma FirstUnitSkip(c: Clause, rest: seq<Clause>)
    requires |c.literals| != 1
    ensures FirstUnit([c] + rest) == FirstUnit(rest)
  {
    assert ([c] + rest)[0] == c && ([c] + rest)[1..] == rest;
  }

  lemma PropagatedFalsified(cs: seq<Clause>, a: Assignment)
    requires IsFalsified(Reduced(cs, a))
    ensures Propagated(cs, a) == a
  {
  }

  /** Once propagation falsifies a clause, the search as written gives up. */
  lemma DpllAsWrittenFails(cs: seq<Clause>, cube: Assignment, n: nat, c: Clause)
    requires c in cs && ClauseFalsified(c, Propagated(cs, cube))
    ensures DpllRecAsWritten(cs, cube, n) == None
  {
    ReducedFalsifiedIff(cs, Propagated(cs, cube));
  }

  /** An undecided call of the search as written fails when both branches fail. */
  lemma DpllAsWrittenBothFail(cs: seq<Clause>, cube: Assignment, n: nat, newA: Assignment, v: nat)
    requires newA == Propagated(cs, cube)
    requires !IsSatisfied(Reduced(cs, newA)) && !IsFalsified(Reduced(cs, newA))
    requires FirstUnassigned(cube, n) == Some(v)
    requires DpllRecAsWritten(Reduced(cs, newA), newA[v := false], n) == None
    requires DpllRecAsWritten(Reduced(cs, newA), newA[v := true], n) == None
    ensures DpllRecAsWritten(cs, cube, n) == None
  {
  }

  /** Variables 1 and 3 occur only positively, and each clause holds one of them. */
  lemma SatOccurs(cs: seq<Clause>)
    requires cs == SatClauses()
    ensures Occurs(cs, Lit(1, true)) && !Occurs(cs, Lit(1, false))
    ensures Occurs(cs, Lit(3, true)) && !Occurs(cs, Lit(3, false))
  {
    assert Lit(1, true) in cs[0].literals && Lit(3, true) in cs[2].literals;
  }

  lemma SatCovered(cs: seq<Clause>)
    requires cs == SatClauses()
    ensures forall c :: c in cs ==> Lit(1, true) in c.literals || Lit(3, true) in c.literals
  {
    assert Lit(1, true) in cs[0].literals && Lit(1, true) in cs[1].literals;
    assert Lit(3, true) in cs[2].literals && Lit(3, true) in cs[3].literals;
  }

  /** When 1 and 3 are pure and positive and each clause holds one of them, the pure assignment is a model. */
  lemma PureCovers(cs: seq<Clause>)
    requires Occurs(cs, Lit(1, true)) && !Occurs(cs, Lit(1, false))
    requires Occurs(cs, Lit(3, true)) && !Occurs(cs, Lit(3, false))
    requires forall c :: c in cs ==> Lit(1, true) in c.literals || Lit(3, true) in c.literals
    ensures AllSatisfied(cs, PureAssignment(cs, 5))
  {
    var pa := PureAssignment(cs, 5);
    assert 1 in pa && 3 in pa;
    assert IsTrue(pa, Lit(1, true)) && IsTrue(pa, Lit(3, true));
  }

  /** When the pure assignment already satisfies the formula, the search as written returns a model. */
  lemma DpllAsWrittenPureSolves(f: CnfFormula)
    requires WellFormed(f) && AllSatisfied(f.clauses, PureAssignment(f.clauses, f.numVars))
    ensures SolveDpllAsWritten(f).Some? && CheckAssignment(f, SolveDpllAsWritten(f).value)
  {
    var pa := PureAssignment(f.clauses, f.numVars);
    ReducedEmptyIff(f.clauses, pa);
    assert Reduced([], pa) == [];
    PropagatedDone([], pa);
    DpllAsWrittenDone([], pa, f.numVars);
    SatisfiedExtends(f.clauses, pa, FillUnassigned(pa, f.numVars));
  }

  /**
   * test_solve_dpll_sat, for the search as written: the pure variables 1
   * and 3 already satisfy every clause, so the first call returns the pure
   * assignment filled up to 5 variables, and it is a model.
   */
  lemma DpllAsWrittenSatExample(f: CnfFormula)
    requires f == CnfFormula(5, SatClauses())
    ensures WellFormed(f) && SolveDpllAsWritten(f).Some?
    ensures Domain(5) <= SolveDpllAsWritten(f).value.Keys
    ensures CheckAssignment(f, SolveDpllAsWritten(f).value)
  {
    SatModel(f, map[1 := true, 2 := false, 3 := true, 4 := false, 5 := false]);
    SatOccurs(f.clauses);
    SatCovered(f.clauses);
    PureCovers(f.clauses);
    DpllAsWrittenPureSolves(f);
  }

  /** No variable of the unsatisfiable test formula is pure. */
  lemma UnsatNoPure(cs: seq<Clause>)
    requires cs == UnsatClauses()
    ensures PureAssignment(cs, 5) == map[]
  {
    UnsatOccurs(cs);
    UnsatNoFive(cs);
    NoPureVariable(cs);
  }

  lemma UnsatOccurs(cs: seq<Clause>)
    requires cs == UnsatClauses()
    ensures Occurs(cs, Lit(1, true)) && Occurs(cs, Lit(1, false)) && Occurs(cs, Lit(2, true)) && Occurs(cs, Lit(2, false))
    ensures Occurs(cs, Lit(3, true)) && Occurs(cs, Lit(3, false)) && Occurs(cs, Lit(4, true)) && Occurs(cs, Lit(4, false))
  {
    assert cs[0] in cs && cs[1] in cs && cs[2] in cs && cs[3] in cs && cs[4] in cs;
    assert Lit(1, true) in cs[0].literals && Lit(1, false) in cs[4].literals;
    assert Lit(2, true) in cs[0].literals && Lit(2, false) in cs[1].literals;
    assert Lit(3, true) in cs[2].literals && Lit(3, false) in cs[4].literals;
    assert Lit(4, true) in cs[2].literals && Lit(4, false) in cs[3].literals;
  }

  lemma UnsatNoFive(cs: seq<Clause>)
    requires cs == UnsatClauses()
    ensures !Occurs(cs, Lit(5, true)) && !Occurs(cs, Lit(5, false))
  {
    forall c | c in cs
      ensures forall l :: l in c.literals ==> l.v <= 4
    {
      var i :| 0 <= i < 5 && cs[i] == c;
    }
  }

  /** Variables 1..4 occurring in both polarities and 5 not at all leave no pure variable. */
  lemma NoPureVariable(cs: seq<Clause>)
    requires Occurs(cs, Lit(1, true)) && Occurs(cs, Lit(1, false)) && Occurs(cs, Lit(2, true)) && Occurs(cs, Lit(2, false))
    requires Occurs(cs, Lit(3, true)) && Occurs(cs, Lit(3, false)) && Occurs(cs, Lit(4, true)) && Occurs(cs, Lit(4, false))
    requires !Occurs(cs, Lit(5, true)) && !Occurs(cs, Lit(5, false))
    ensures PureAssignment(cs, 5) == map[]
  {
    assert PureAssignment(cs, 5).Keys == {};
  }

  /** A formula of two-literal clauses is left alone by the blank cube. */
  lemma PairsUntouched(cs: seq<Clause>)
    requires cs != [] && forall c :: c in cs ==> |c.literals| == 2
    ensures Reduced(cs, map[]) == cs && Propagated(cs, map[]) == map[]
    ensures !IsSatisfied(cs) && !IsFalsified(cs)
  {
    ReducedUntouched(cs, map[]);
    PropagatedNoUnit(cs, map[]);
  }

  lemma UnsatPairs(cs: seq<Clause>)
    requires cs == UnsatClauses()
    ensures cs != [] && forall c :: c in cs ==> |c.literals| == 2
  {
  }

  /** Propagation assigns the literal of the first clause that simplifies to a unit. */
  lemma PropagatedUnitAt(cs: seq<Clause>, a: Assignment, k: nat, l: Lit)
    requires k < |cs|
    requires forall j :: 0 <= j < k ==> ClauseSatisfied(cs[j], a) || |Unassigned(cs[j].literals, a)| != 1
    requires !ClauseSatisfied(cs[k], a) && Unassigned(cs[k].literals, a) == [l]
    requires forall j :: 0 <= j < |cs| ==> !ClauseFalsified(cs[j], a)
    ensures Propagated(cs, a) == Propagated(cs, a[l.v := l.value])
  {
    ReducedFirstUnit(cs, a, k, l);
    ReducedEmptyIff(cs, a);
    ReducedFalsifiedIff(cs, a);
    assert cs[k] in cs;
    PropagatedStep(cs, a, l);
  }

  /** Once a clause is falsified, the search as written gives up. */
  lemma DpllAsWrittenFailsAt(cs: seq<Clause>, cube: Assignment, b: Assignment, k: nat)
    requires k < |cs| && Propagated(cs, cube) == Propagated(cs, b) && ClauseFalsified(cs[k], b)
    ensures DpllRecAsWritten(cs, cube, 5) == None
  {
    assert cs[k] in cs;
    ReducedFalsifiedIff(cs, b);
    PropagatedFalsified(cs, b);
    DpllAsWrittenFails(cs, cube, 5, cs[k]);
  }

  /** A clause of two literals whose first is false and second open simplifies to the second. */
  lemma PairUnit(x: Lit, y: Lit, a: Assignment)
    requires IsFalse(a, x) && y.v !in a
    ensures !ClauseSatisfied(Clause([x, y]), a) && Unassigned([x, y], a) == [y]
  {
    UnassignedPair(x, y, a);
  }

  /** A clause of two open literals keeps both. */
  lemma PairOpen(x: Lit, y: Lit, a: Assignment)
    requires x.v !in a && y.v !in a
    ensures !ClauseSatisfied(Clause([x, y]), a) && |Unassigned([x, y], a)| == 2
  {
    UnassignedPair(x, y, a);
  }

  /** A clause of two literals with one true is satisfied. */
  lemma PairTrue(x: Lit, y: Lit, a: Assignment)
    requires IsTrue(a, x) || IsTrue(a, y)
    ensures ClauseSatisfied(Clause([x, y]), a)
  {
    assert x in [x, y] && y in [x, y];
  }

  /** A clause of two literals with one not false is not falsified. */
  lemma PairNotFalse(x: Lit, y: Lit, a: Assignment)
    requires !IsFalse(a, x) || !IsFalse(a, y)
    ensures !ClauseFalsified(Clause([x, y]), a)
  {
    assert x in [x, y] && y in [x, y];
  }

  lemma NoneFalsified5(cs: seq<Clause>, a: Assignment)
    requires |cs| == 5
    requires !ClauseFalsified(cs[0], a) && !ClauseFalsified(cs[1], a) && !ClauseFalsified(cs[2], a)
    requires !ClauseFalsified(cs[3], a) && !ClauseFalsified(cs[4], a)
    ensures forall j :: 0 <= j < |cs| ==> !ClauseFalsified(cs[j], a)
  {
  }

  /** The clauses of the unsatisfiable test formula, one by one. */
  lemma UnsatAt(cs: seq<Clause>)
    requires cs == UnsatClauses()
    ensures |cs| == 5
    ensures cs[0] == Clause([Lit(1, true), Lit(2, true)]) && cs[1] == Clause([Lit(1, true), Lit(2, false)])
    ensures cs[2] == Clause([Lit(3, true), Lit(4, true)]) && cs[3] == Clause([Lit(3, true), Lit(4, false)])
    ensures cs[4] == Clause([Lit(1, false), Lit(3, false)])
  {
  }

  /** Under 1 := false, (1 2) simplifies to the unit (2) and no clause is falsified. */
  lemma UnsatLowFacts(cs: seq<Clause>, a: Assignment)
    requires |cs| == 5
    requires cs[0] == Clause([Lit(1, true), Lit(2, true)]) && cs[1] == Clause([Lit(1, true), Lit(2, false)])
    requires cs[2] == Clause([Lit(3, true), Lit(4, true)]) && cs[3] == Clause([Lit(3, true), Lit(4, false)])
    requires cs[4] == Clause([Lit(1, false), Lit(3, false)])
    requires a == map[1 := false]
    ensures !ClauseSatisfied(cs[0], a) && Unassigned(cs[0].literals, a) == [Lit(2, true)]
    ensures forall j :: 0 <= j < |cs| ==> !ClauseFalsified(cs[j], a)
    ensures ClauseFalsified(cs[1], a[2 := true])
  {
    PairUnit(Lit(1, true), Lit(2, true), a);
    PairNotFalse(Lit(1, true), Lit(2, true), a);
    PairNotFalse(Lit(1, true), Lit(2, false), a);
    PairNotFalse(Lit(3, true), Lit(4, true), a);
    PairNotFalse(Lit(3, true), Lit(4, false), a);
    PairNotFalse(Lit(1, false), Lit(3, false), a);
    NoneFalsified5(cs, a);
  }

  /** test_solve_dpll_unsat, branch 1 := false: propagating 2 := true falsifies (1 -2). */
  lemma UnsatLow(cs: seq<Clause>, a: Assignment)
    requires cs == UnsatClauses() && a == map[1 := false]
    ensures DpllRecAsWritten(cs, a, 5) == None
  {
    UnsatAt(cs);
    UnsatLowFacts(cs, a);
    PropagatedUnitAt(cs, a, 0, Lit(2, true));
    DpllAsWrittenFailsAt(cs, a, a[2 := true], 1);
  }

  /** No clause before position k simplifies to a unit. */
  lemma NoUnitBefore(cs: seq<Clause>, a: Assignment, k: nat)
    requires k <= |cs|
    requires forall j :: 0 <= j < k ==> ClauseSatisfied(cs[j], a) || |Unassigned(cs[j].literals, a)| == 2
    ensures forall j :: 0 <= j < k ==> ClauseSatisfied(cs[j], a) || |Unassigned(cs[j].literals, a)| != 1
  {
  }

  /** Under 1 := true, (1 2) and (1 -2) are satisfied, (3 4) and (3 -4) untouched, and (-1 -3) becomes the unit (-3). */
  lemma UnsatHighFirstUnit(cs: seq<Clause>, a: Assignment)
    requires |cs| == 5
    requires cs[0] == Clause([Lit(1, true), Lit(2, true)]) && cs[1] == Clause([Lit(1, true), Lit(2, false)])
    requires cs[2] == Clause([Lit(3, true), Lit(4, true)]) && cs[3] == Clause([Lit(3, true), Lit(4, false)])
    requires cs[4] == Clause([Lit(1, false), Lit(3, false)])
    requires a == map[1 := true]
    ensures forall j :: 0 <= j < 4 ==> ClauseSatisfied(cs[j], a) || |Unassigned(cs[j].literals, a)| != 1
    ensures !ClauseSatisfied(cs[4], a) && Unassigned(cs[4].literals, a) == [Lit(3, false)]
  {
    PairTrue(Lit(1, true), Lit(2, true), a);
    PairTrue(Lit(1, true), Lit(2, false), a);
    PairOpen(Lit(3, true), Lit(4, true), a);
    PairOpen(Lit(3, true), Lit(4, false), a);
    NoUnitBefore(cs, a, 4);
    PairUnit(Lit(1, false), Lit(3, false), a);
  }

  /** Under 1 := true, no clause is falsified. */
  lemma UnsatHighFirstOpen(cs: seq<Clause>, a: Assignment)
    requires |cs| == 5
    requires cs[0] == Clause([Lit(1, true), Lit(2, true)]) && cs[1] == Clause([Lit(1, true), Lit(2, false)])
    requires cs[2] == Clause([Lit(3, true), Lit(4, true)]) && cs[3] == Clause([Lit(3, true), Lit(4, false)])
    requires cs[4] == Clause([Lit(1, false), Lit(3, false)])
    requires a == map[1 := true]
    ensures forall j :: 0 <= j < |cs| ==> !ClauseFalsified(cs[j], a)
  {
    PairNotFalse(Lit(1, true), Lit(2, true), a);
    PairNotFalse(Lit(1, true), Lit(2, false), a);
    PairNotFalse(Lit(3, true), Lit(4, true), a);
    PairNotFalse(Lit(3, true), Lit(4, false), a);
    PairNotFalse(Lit(1, false), Lit(3, false), a);
    NoneFalsified5(cs, a);
  }

  /** Under 1 := true and 3 := false, (3 4) is the first clause to become a unit, (4). */
  lemma UnsatHighSecondUnit(cs: seq<Clause>, b: Assignment)
    requires |cs| == 5
    requires cs[0] == Clause([Lit(1, true), Lit(2, true)]) && cs[1] == Clause([Lit(1, true), Lit(2, false)])
    requires cs[2] == Clause([Lit(3, true), Lit(4, true)]) && cs[3] == Clause([Lit(3, true), Lit(4, false)])
    requires cs[4] == Clause([Lit(1, false), Lit(3, false)])
    requires b == map[1 := true, 3 := false]
    ensures forall j :: 0 <= j < 2 ==> ClauseSatisfied(cs[j], b) || |Unassigned(cs[j].literals, b)| != 1
    ensures !ClauseSatisfied(cs[2], b) && Unassigned(cs[2].literals, b) == [Lit(4, true)]
    ensures ClauseFalsified(cs[3], b[4 := true])
  {
    PairTrue(Lit(1, true), Lit(2, true), b);
    PairTrue(Lit(1, true), Lit(2, false), b);
    PairUnit(Lit(3, true), Lit(4, true), b);
  }

  /** Under 1 := true and 3 := false, no clause is falsified. */
  lemma UnsatHighSecondOpen(cs: seq<Clause>, b: Assignment)
    requires |cs| == 5
    requires cs[0] == Clause([Lit(1, true), Lit(2, true)]) && cs[1] == Clause([Lit(1, true), Lit(2, false)])
    requires cs[2] == Clause([Lit(3, true), Lit(4, true)]) && cs[3] == Clause([Lit(3, true), Lit(4, false)])
    requires cs[4] == Clause([Lit(1, false), Lit(3, false)])
    requires b == map[1 := true, 3 := false]
    ensures forall j :: 0 <= j < |cs| ==> !ClauseFalsified(cs[j], b)
  {
    PairNotFalse(Lit(1, true), Lit(2, true), b);
    PairNotFalse(Lit(1, true), Lit(2, false), b);
    PairNotFalse(Lit(3, true), Lit(4, true), b);
    PairNotFalse(Lit(3, true), Lit(4, false), b);
    PairNotFalse(Lit(1, false), Lit(3, false), b);
    NoneFalsified5(cs, b);
  }

  /** test_solve_dpll_unsat, branch 1 := true: propagating 3 := false, 4 := true falsifies (3 -4). */
  lemma UnsatHigh(cs: seq<Clause>, a: Assignment)
    requires cs == UnsatClauses() && a == map[1 := true]
    ensures DpllRecAsWritten(cs, a, 5) == None
  {
    UnsatAt(cs);
    UnsatHighFirstUnit(cs, a);
    UnsatHighFirstOpen(cs, a);
    PropagatedUnitAt(cs, a, 4, Lit(3, false));
    var b := a[3 := false];
    UnsatHighSecondUnit(cs, b);
    UnsatHighSecondOpen(cs, b);
    PropagatedUnitAt(cs, b, 2, Lit(4, true));
    DpllAsWrittenFailsAt(cs, a, b[4 := true], 3);
  }

  /**
   * test_solve_dpll_unsat, for the search as written: no variable is pure,
   * nothing propagates at the blank cube, and both branches on variable 1
   * end in a falsified clause.
   */
  lemma DpllAsWrittenUnsatExample(f: CnfFormula)
    requires f == CnfFormula(5, UnsatClauses())
    ensures WellFormed(f) && SolveDpllAsWritten(f).None?
  {
    UnsatNoModel(f, map[]);
    var cs := f.clauses;
    UnsatNoPure(cs);
    SolveDpllAsWrittenNoPure(f);
    UnsatPairs(cs);
    PairsUntouched(cs);
    assert FirstUnassigned(map[], 5) == Some(1);
    assert map[][1 := false] == map[1 := false] && map[][1 := true] == map[1 := true];
    UnsatLow(cs, map[1 := false]);
    UnsatHigh(cs, map[1 := true]);
    DpllAsWrittenBothFail(cs, map[], 5, map[], 1);
  }
}
