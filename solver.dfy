/**
 * The first solver revision (src/solver.rs): a formula is simplified under a
 * partial assignment by dropping satisfied clauses and unassigned-free
 * literals, unit propagation and pure-literal elimination repeat that
 * simplification, and three search procedures (brute force, chronological
 * backtracking, DPLL) are built on top of it.
 */
module Solver {
  import opened Formula

  // ---------------------------------------------------------------------------
  // apply_assignment
  // ---------------------------------------------------------------------------

  /** The literals of `lits` whose variable the assignment leaves unassigned, in order. */
  function Unassigned(lits: seq<Lit>, a: Assignment): (r: seq<Lit>)
    ensures |r| <= |lits|
    ensures forall l :: l in r <==> l in lits && l.v !in a
  {
    if lits == [] then [] else (if lits[0].v in a then [] else [lits[0]]) + Unassigned(lits[1..], a)
  }

  /**
   * The clauses of `cs` under `a`: a clause with a true literal disappears,
   * every other clause keeps only its unassigned literals.
   */
  function Reduced(cs: seq<Clause>, a: Assignment): (r: seq<Clause>)
    ensures |r| <= |cs|
  {
    if cs == [] then []
    else (if ClauseSatisfied(cs[0], a) then [] else [Clause(Unassigned(cs[0].literals, a))]) + Reduced(cs[1..], a)
  }

  function Apply(f: CnfFormula, a: Assignment): CnfFormula
  {
    CnfFormula(f.numVars, Reduced(f.clauses, a))
  }

  /** Unassigned on a literal in front of a sequence. */
  lemma UnassignedCons(l: Lit, r: seq<Lit>, a: Assignment)
    ensures Unassigned([l] + r, a) == (if l.v in a then [] else [l]) + Unassigned(r, a)
  {
    assert ([l] + r)[0] == l && ([l] + r)[1..] == r;
  }

  lemma {:induction false} UnassignedAppend(x: seq<Lit>, y: seq<Lit>, a: Assignment)
    ensures Unassigned(x + y, a) == Unassigned(x, a) + Unassigned(y, a)
  {
    if x == [] {
      assert x + y == y;
    } else {
      var r := x[1..];
      assert x == [x[0]] + r && x + y == [x[0]] + (r + y);
      UnassignedCons(x[0], r, a);
      UnassignedCons(x[0], r + y, a);
      UnassignedAppend(r, y, a);
      var h := if x[0].v in a then [] else [x[0]];
      AppendAssoc(h, Unassigned(r, a), Unassigned(y, a));
    }
  }

  lemma {:induction false} ReducedAppend(x: seq<Clause>, y: seq<Clause>, a: Assignment)
    ensures Reduced(x + y, a) == Reduced(x, a) + Reduced(y, a)
  {
    if x == [] {
      assert x + y == y;
    } else {
      assert (x + y)[0] == x[0] && (x + y)[1..] == x[1..] + y;
      ReducedAppend(x[1..], y, a);
    }
  }

  lemma UnassignedSnoc(lits: seq<Lit>, k: nat, a: Assignment)
    requires k < |lits|
    ensures Unassigned(lits[..k + 1], a) == Unassigned(lits[..k], a) + (if lits[k].v in a then [] else [lits[k]])
    ensures ClauseSatisfied(Clause(lits[..k + 1]), a) <==> ClauseSatisfied(Clause(lits[..k]), a) || IsTrue(a, lits[k])
  {
    assert lits[..k + 1] == lits[..k] + [lits[k]];
    UnassignedAppend(lits[..k], [lits[k]], a);
    assert forall l :: l in lits[..k + 1] <==> l in lits[..k] || l == lits[k];
  }

  lemma ReducedSnoc(cs: seq<Clause>, j: nat, a: Assignment, sat: bool, kept: seq<Lit>)
    requires j < |cs|
    requires sat == ClauseSatisfied(cs[j], a)
    requires !sat ==> kept == Unassigned(cs[j].literals, a)
    ensures Reduced(cs[..j + 1], a) == Reduced(cs[..j], a) + (if sat then [] else [Clause(kept)])
  {
    assert cs[..j + 1] == cs[..j] + [cs[j]];
    ReducedAppend(cs[..j], [cs[j]], a);
  }

  /**
   * The inner loop of apply_assignment: scan the clause, stop at the first
   * true literal, otherwise collect the unassigned literals in order.
   */
  method ReduceClause(clause: Clause, a: Assignment) returns (clauseSatisfied: bool, curr: seq<Lit>)
    ensures clauseSatisfied <==> ClauseSatisfied(clause, a)
    ensures !clauseSatisfied ==> curr == Unassigned(clause.literals, a)
  {
    clauseSatisfied := false;
    curr := [];
    var k := 0;
    while k < |clause.literals|
      invariant 0 <= k <= |clause.literals|
      invariant clauseSatisfied ==> ClauseSatisfied(clause, a)
      invariant !clauseSatisfied ==> curr == Unassigned(clause.literals[..k], a)
      invariant !clauseSatisfied ==> !ClauseSatisfied(Clause(clause.literals[..k]), a)
    {
      var lit := clause.literals[k];
      var litSatisfied := LitValue(a, lit);
      UnassignedSnoc(clause.literals, k, a);
      if litSatisfied == Some(true) {
        assert lit in clause.literals;
        clauseSatisfied := true;
        break;
      } else if litSatisfied.None? {
        curr := curr + [lit];
      }
      k := k + 1;
    }
    assert clause.literals[..|clause.literals|] == clause.literals;
  }

  /** apply_assignment: one pass over the clauses, keeping the reduced form of each unsatisfied one. */
  method ApplyAssignment(cnf: CnfFormula, a: Assignment) returns (r: CnfFormula)
    ensures r == Apply(cnf, a)
  {
    var newClauses: seq<Clause> := [];
    var j := 0;
    while j < |cnf.clauses|
      invariant 0 <= j <= |cnf.clauses|
      invariant newClauses == Reduced(cnf.clauses[..j], a)
    {
      var clauseSatisfied, curr := ReduceClause(cnf.clauses[j], a);
      ReducedSnoc(cnf.clauses, j, a, clauseSatisfied, curr);
      if !clauseSatisfied {
        newClauses := newClauses + [Clause(curr)];
      }
      j := j + 1;
    }
    assert cnf.clauses[..j] == cnf.clauses;
    r := CnfFormula(cnf.numVars, newClauses);
  }

  /** Simplification leaves nothing exactly when the assignment satisfies every clause. */
  lemma {:induction false} ReducedEmptyIff(cs: seq<Clause>, a: Assignment)
    ensures IsSatisfied(Reduced(cs, a)) <==> AllSatisfied(cs, a)
  {
    if cs != [] {
      ReducedEmptyIff(cs[1..], a);
      assert forall c :: c in cs <==> c == cs[0] || c in cs[1..];
    }
  }

  /**
   * Every literal left after simplification is unassigned and was already a
   * literal of the clause list; in particular no assigned variable remains.
   */
  lemma {:induction false} ReducedLiterals(cs: seq<Clause>, a: Assignment)
    ensures forall c, l :: c in Reduced(cs, a) && l in c.literals ==> l.v !in a && Occurs(cs, l)
  {
    if cs != [] {
      ReducedLiterals(cs[1..], a);
      forall c, l | c in Reduced(cs, a) && l in c.literals
        ensures l.v !in a && Occurs(cs, l)
      {
        if c in Reduced(cs[1..], a) {
          assert Occurs(cs[1..], l);
          var d :| d in cs[1..] && l in d.literals;
          assert d in cs;
        } else {
          assert l in cs[0].literals && cs[0] in cs;
        }
      }
    }
  }

  /** A simplified formula mentions only variables of the original one, none of them assigned. */
  lemma ReducedVars(cs: seq<Clause>, a: Assignment)
    ensures Vars(Reduced(cs, a)) <= Vars(cs) - a.Keys
  {
    ReducedLiterals(cs, a);
    forall v | v in Vars(Reduced(cs, a))
      ensures v in Vars(cs) - a.Keys
    {
      var c, l :| c in Reduced(cs, a) && l in c.literals && l.v == v;
      assert Occurs(cs, l);
      var d :| d in cs && l in d.literals;
      assert v in Vars(cs);
    }
  }

  /**
   * Simplification keeps the models: an assignment extending `a` satisfies
   * the simplified clauses exactly when it satisfies the original ones.
   */
  lemma {:induction false} ReducedKeepsModels(cs: seq<Clause>, a: Assignment, t: Assignment)
    requires Extends(t, a)
    ensures AllSatisfied(Reduced(cs, a), t) <==> AllSatisfied(cs, t)
  {
    if cs != [] {
      ReducedKeepsModels(cs[1..], a, t);
      var c := cs[0];
      assert forall d :: d in cs <==> d == c || d in cs[1..];
      if !ClauseSatisfied(c, a) {
        var k := Clause(Unassigned(c.literals, a));
        assert Reduced(cs, a) == [k] + Reduced(cs[1..], a);
        assert forall d :: d in Reduced(cs, a) <==> d == k || d in Reduced(cs[1..], a);
        assert ClauseSatisfied(k, t) <==> ClauseSatisfied(c, t) by {
          if ClauseSatisfied(c, t) {
            var l :| l in c.literals && IsTrue(t, l);
            if l.v in a {
              assert IsTrue(a, l);
            }
          }
        }
      } else {
        var l :| l in c.literals && IsTrue(a, l);
        assert IsTrue(t, l);
      }
    }
  }

  /** Some clause is emptied exactly when the assignment falsifies some clause. */
  lemma {:induction false} ReducedFalsifiedIff(cs: seq<Clause>, a: Assignment)
    ensures IsFalsified(Reduced(cs, a)) <==> exists c :: c in cs && ClauseFalsified(c, a)
  {
    if cs != [] {
      ReducedFalsifiedIff(cs[1..], a);
      var c := cs[0];
      assert forall d :: d in cs <==> d == c || d in cs[1..];
      if !ClauseSatisfied(c, a) {
        var k := Clause(Unassigned(c.literals, a));
        assert forall d :: d in Reduced(cs, a) <==> d == k || d in Reduced(cs[1..], a);
        assert k.literals == [] <==> ClauseFalsified(c, a) by {
          if k.literals != [] {
            assert k.literals[0] in k.literals;
          }
          if !ClauseFalsified(c, a) {
            var l :| l in c.literals && !IsFalse(a, l);
            assert l in k.literals;
          }
        }
      } else {
        var l :| l in c.literals && IsTrue(a, l);
        assert !ClauseFalsified(c, a);
      }
    }
  }

  /**
   * Simplifying twice is simplifying once under the larger assignment: the
   * loop of unit_propagate may re-simplify its current formula instead of the
   * input.
   */
  lemma {:induction false} ReducedTwice(cs: seq<Clause>, a: Assignment, b: Assignment)
    requires Extends(b, a)
    ensures Reduced(Reduced(cs, a), b) == Reduced(cs, b)
  {
    if cs != [] {
      ReducedTwice(cs[1..], a, b);
      var c := cs[0];
      var rest := Reduced(cs[1..], a);
      if ClauseSatisfied(c, a) {
        var l :| l in c.literals && IsTrue(a, l);
        assert IsTrue(b, l);
        assert Reduced(cs, a) == rest;
        assert Reduced(cs, b) == Reduced(cs[1..], b);
      } else {
        var k := Clause(Unassigned(c.literals, a));
        assert Reduced(cs, a) == [k] + rest;
        assert ([k] + rest)[0] == k && ([k] + rest)[1..] == rest;
        assert ClauseSatisfied(k, b) <==> ClauseSatisfied(c, b) by {
          if ClauseSatisfied(c, b) {
            var l :| l in c.literals && IsTrue(b, l);
            if l.v in a {
              assert IsTrue(a, l);
            }
          }
        }
        UnassignedTwice(c.literals, a, b);
      }
    }
  }

  lemma {:induction false} UnassignedTwice(lits: seq<Lit>, a: Assignment, b: Assignment)
    requires Extends(b, a)
    ensures Unassigned(Unassigned(lits, a), b) == Unassigned(lits, b)
  {
    if lits != [] {
      UnassignedTwice(lits[1..], a, b);
      UnassignedAppend([lits[0]], lits[1..], a);
      UnassignedAppend([lits[0]], lits[1..], b);
      assert [lits[0]] + lits[1..] == lits;
      var u := if lits[0].v in a then [] else [lits[0]];
      UnassignedAppend(u, Unassigned(lits[1..], a), b);
    }
  }

  /** Clauses that mention no assigned variable are left as they are. */
  lemma {:induction false} ReducedUntouched(cs: seq<Clause>, a: Assignment)
    requires forall c, l :: c in cs && l in c.literals ==> l.v !in a
    ensures Reduced(cs, a) == cs
  {
    if cs != [] {
      var c := cs[0];
      assert c in cs;
      assert !ClauseSatisfied(c, a);
      UnassignedUntouched(c.literals, a);
      assert forall d :: d in cs[1..] ==> d in cs;
      ReducedUntouched(cs[1..], a);
    }
  }

  lemma {:induction false} UnassignedUntouched(lits: seq<Lit>, a: Assignment)
    requires forall l :: l in lits ==> l.v !in a
    ensures Unassigned(lits, a) == lits
  {
    if lits != [] {
      assert lits[0] in lits;
      assert forall l :: l in lits[1..] ==> l in lits;
      UnassignedUntouched(lits[1..], a);
    }
  }

  /** Simplification depends only on the values of the variables that occur. */
  lemma {:induction false} ReducedAgree(cs: seq<Clause>, a: Assignment, b: Assignment)
    requires forall c, l :: c in cs && l in c.literals ==> LitValue(a, l) == LitValue(b, l)
    ensures Reduced(cs, a) == Reduced(cs, b)
  {
    if cs != [] {
      var c := cs[0];
      assert c in cs;
      assert forall l :: l in c.literals ==> (IsTrue(a, l) <==> IsTrue(b, l)) by {
        forall l | l in c.literals ensures IsTrue(a, l) <==> IsTrue(b, l) {
          assert LitValue(a, l) == LitValue(b, l);
        }
      }
      UnassignedAgree(c.literals, a, b);
      assert forall d :: d in cs[1..] ==> d in cs;
      ReducedAgree(cs[1..], a, b);
    }
  }

  lemma {:induction false} UnassignedAgree(lits: seq<Lit>, a: Assignment, b: Assignment)
    requires forall l :: l in lits ==> LitValue(a, l) == LitValue(b, l)
    ensures Unassigned(lits, a) == Unassigned(lits, b)
  {
    if lits != [] {
      assert lits[0] in lits && LitValue(a, lits[0]) == LitValue(b, lits[0]);
      assert forall l :: l in lits[1..] ==> l in lits;
      UnassignedAgree(lits[1..], a, b);
    }
  }

  // ---------------------------------------------------------------------------
  // unit_propagate
  // ---------------------------------------------------------------------------

  /** The literal of the first clause of length one (get_unit_clause). */
  function FirstUnit(cs: seq<Clause>): (r: Option<Lit>)
    ensures r.Some? ==> Clause([r.value]) in cs
    ensures r.None? <==> forall c :: c in cs ==> |c.literals| != 1
  {
    if cs == [] then None
    else if |cs[0].literals| == 1 then
      assert cs[0] == Clause([cs[0].literals[0]]);
      Some(cs[0].literals[0])
    else
      var r := FirstUnit(cs[1..]);
      assert forall c :: c in cs <==> c == cs[0] || c in cs[1..];
      r
  }

  /**
   * The assignment unit propagation ends with: simplify, stop when the result
   * is satisfied or falsified or has no unit clause, otherwise satisfy the
   * first unit clause and repeat. Each step assigns a variable of the formula
   * that was unassigned, which is why it terminates.
   */
  function Propagated(cs: seq<Clause>, a: Assignment): (r: Assignment)
    ensures Extends(r, a)
    ensures r.Keys <= a.Keys + Vars(cs)
    decreases Vars(cs) - a.Keys
  {
    var red := Reduced(cs, a);
    if IsSatisfied(red) || IsFalsified(red) then a
    else match FirstUnit(red)
      case None => a
      case Some(l) =>
        ReducedVars(cs, a);
        assert l in Clause([l]).literals;
        assert l.v in Vars(red);
        var r := Propagated(cs, a[l.v := l.value]);
        r
  }

  /**
   * unit_propagate: the returned formula is the input simplified under the
   * returned assignment, and that assignment is the propagation fixpoint.
   */
  method UnitPropagate(cnf: CnfFormula, a: Assignment) returns (newCnf: CnfFormula, newA: Assignment)
    ensures newA == Propagated(cnf.clauses, a)
    ensures newCnf == Apply(cnf, newA)
  {
    newCnf := cnf;
    newA := a;
    while true
      invariant newCnf.numVars == cnf.numVars
      invariant Extends(newA, a)
      invariant Reduced(newCnf.clauses, newA) == Reduced(cnf.clauses, newA)
      invariant Propagated(cnf.clauses, newA) == Propagated(cnf.clauses, a)
      decreases Vars(cnf.clauses) - newA.Keys
    {
      newCnf := ApplyAssignment(newCnf, newA);
      if IsSatisfied(newCnf.clauses) || IsFalsified(newCnf.clauses) {
        break;
      }
      var unit := FirstUnit(newCnf.clauses);
      if unit.None? {
        break;
      }
      var lit := unit.value;
      ReducedVars(cnf.clauses, newA);
      assert lit in Clause([lit]).literals;
      assert lit.v in Vars(newCnf.clauses);
      var next := newA[lit.v := lit.value];
      ReducedTwice(cnf.clauses, newA, next);
      newA := next;
    }
  }

  /** Where propagation stops: satisfied, falsified, or no unit clause left. */
  lemma PropagatedStops(cs: seq<Clause>, a: Assignment)
    ensures var red := Reduced(cs, Propagated(cs, a));
      IsSatisfied(red) || IsFalsified(red) || FirstUnit(red).None?
    decreases Vars(cs) - a.Keys
  {
    var red := Reduced(cs, a);
    if !(IsSatisfied(red) || IsFalsified(red)) && FirstUnit(red).Some? {
      var l := FirstUnit(red).value;
      ReducedVars(cs, a);
      assert l in Clause([l]).literals;
      assert l.v in Vars(red);
      PropagatedStops(cs, a[l.v := l.value]);
    }
  }

  /**
   * Unit propagation loses no model: every assignment that extends `a` and
   * satisfies the clauses also extends the propagated assignment.
   */
  lemma PropagatedKeepsModels(cs: seq<Clause>, a: Assignment, t: Assignment)
    requires Extends(t, a) && AllSatisfied(cs, t)
    ensures Extends(t, Propagated(cs, a))
    decreases Vars(cs) - a.Keys
  {
    var red := Reduced(cs, a);
    if !(IsSatisfied(red) || IsFalsified(red)) && FirstUnit(red).Some? {
      var l := FirstUnit(red).value;
      ReducedVars(cs, a);
      assert l in Clause([l]).literals;
      assert l.v in Vars(red);
      ReducedKeepsModels(cs, a, t);
      assert ClauseSatisfied(Clause([l]), t);
      assert IsTrue(t, l);
      PropagatedKeepsModels(cs, a[l.v := l.value], t);
    }
  }

  // ---------------------------------------------------------------------------
  // pure_literal_eliminate
  // ---------------------------------------------------------------------------

  /**
   * pure_literal_eliminate: every pure variable of 1..numVars is set to its
   * sole polarity (overriding any value it had), then the formula is
   * simplified under the new assignment. Every literal's variable must lie in
   * 1..numVars, since the polarity flags are indexed by variable - 1.
   */
  method PureLiteralEliminate(cnf: CnfFormula, a: Assignment) returns (newCnf: CnfFormula, newA: Assignment)
    requires WellFormed(cnf)
    ensures newA == a + PureAssignment(cnf.clauses, cnf.numVars)
    ensures newCnf == Apply(cnf, newA)
  {
    var seenPos, seenNeg := SeenPolarities(cnf.clauses, cnf.numVars);
    var pos, neg := seenPos[..], seenNeg[..];
    var cs, n := cnf.clauses, cnf.numVars;
    newA := a;
    assert a + PureAssignment(cs, 0) == a;
    for i := 0 to n
      invariant newA == a + PureAssignment(cs, i)
    {
      var pv := if pos[i] && !neg[i] then Some(true) else if !pos[i] && neg[i] then Some(false) else None;
      assert pv == PureValue(cs, i + 1);
      PureAssignmentNext(cs, a, i, pv);
      if pv.Some? {
        newA := newA[i + 1 := pv.value];
      }
    }
    newCnf := ApplyAssignment(cnf, newA);
  }

  // ---------------------------------------------------------------------------
  // solve_basic
  // ---------------------------------------------------------------------------

  /** The position of the first candidate under which the simplified formula is satisfied. */
  function FirstSatisfying(ts: seq<Assignment>, cs: seq<Clause>): (r: Option<nat>)
    ensures r.Some? ==> r.value < |ts| && IsSatisfied(Reduced(cs, ts[r.value]))
    ensures r.Some? ==> forall j :: 0 <= j < r.value ==> !IsSatisfied(Reduced(cs, ts[j]))
    ensures r.None? <==> forall t :: t in ts ==> !IsSatisfied(Reduced(cs, t))
  {
    if ts == [] then None
    else if IsSatisfied(Reduced(cs, ts[0])) then
      assert ts[0] in ts;
      Some(0)
    else
      var r := FirstSatisfying(ts[1..], cs);
      assert forall t :: t in ts <==> t == ts[0] || t in ts[1..];
      if r.Some? then Some(r.value + 1) else None
  }

  /** solve_basic: try every total assignment of 1..numVars in cartesian order. */
  function SolveBasic(f: CnfFormula): (r: Option<Assignment>)
    ensures r.Some? ==> r.value.Keys == Domain(f.numVars) && CheckAssignment(f, r.value)
  {
    var ts := AllAssignments(f.numVars);
    match FirstSatisfying(ts, f.clauses)
    case None => None
    case Some(k) =>
      AllAssignmentsExact(f.numVars, ts[k]);
      ReducedEmptyIff(f.clauses, ts[k]);
      Some(ts[k])
  }

  /**
   * solve_basic finds a model exactly when one exists among the total
   * assignments of 1..numVars; what it returns is total, a model, and the
   * first model in cartesian order (False before True, variable 1 slowest).
   */
  lemma SolveBasicCorrect(f: CnfFormula)
    ensures SolveBasic(f).Some? ==>
      var t := SolveBasic(f).value;
      t.Keys == Domain(f.numVars) && CheckAssignment(f, t) &&
      exists k :: 0 <= k < |AllAssignments(f.numVars)| && AllAssignments(f.numVars)[k] == t &&
        forall j :: 0 <= j < k ==> !CheckAssignment(f, AllAssignments(f.numVars)[j])
    ensures SolveBasic(f).None? <==> forall t: Assignment :: t.Keys == Domain(f.numVars) ==> !CheckAssignment(f, t)
  {
    var ts := AllAssignments(f.numVars);
    forall t: Assignment ensures IsSatisfied(Reduced(f.clauses, t)) <==> CheckAssignment(f, t) {
      ReducedEmptyIff(f.clauses, t);
    }
    forall t: Assignment ensures t in ts <==> t.Keys == Domain(f.numVars) {
      AllAssignmentsExact(f.numVars, t);
    }
    if SolveBasic(f).Some? {
      var k := FirstSatisfying(ts, f.clauses).value;
      assert ts[k] == SolveBasic(f).value;
      AllAssignmentsExact(f.numVars, ts[k]);
    }
  }

  // ---------------------------------------------------------------------------
  // solve_backtrack
  // ---------------------------------------------------------------------------

  /**
   * solve_backtrack_rec: simplify under the cube; satisfied gives the filled
   * cube, falsified gives None; otherwise branch on an unassigned variable,
   * the False branch first and the True branch only when it fails.
   */
  function BacktrackRec(cs: seq<Clause>, cube: Assignment, n: nat): (r: Option<Assignment>)
    ensures r.Some? ==> Extends(r.value, cube) && Domain(n) <= r.value.Keys
    decreases Domain(n) - cube.Keys
  {
    var newCs := Reduced(cs, cube);
    if IsSatisfied(newCs) then Some(FillUnassigned(cube, n))
    else if IsFalsified(newCs) then None
    else match FirstUnassigned(cube, n)
      case None => None
      case Some(v) =>
        assert v in Domain(n) - cube.Keys;
        var lo := BacktrackRec(newCs, cube[v := false], n);
        if lo.Some? then lo else BacktrackRec(newCs, cube[v := true], n)
  }

  /** solve_backtrack: the search from the blank assignment. */
  function SolveBacktrack(f: CnfFormula): (r: Option<Assignment>)
    ensures r.Some? ==> Domain(f.numVars) <= r.value.Keys && CheckAssignment(f, r.value)
  {
    var r := BacktrackRec(f.clauses, map[], f.numVars);
    if r.Some? then
      BacktrackSound(f.clauses, map[], f.numVars);
      r
    else r
  }

  /** What backtracking returns satisfies the clauses it was given. */
  lemma BacktrackSound(cs: seq<Clause>, cube: Assignment, n: nat)
    requires BacktrackRec(cs, cube, n).Some?
    ensures AllSatisfied(cs, BacktrackRec(cs, cube, n).value)
    decreases Domain(n) - cube.Keys
  {
    var newCs := Reduced(cs, cube);
    var t := BacktrackRec(cs, cube, n).value;
    if IsSatisfied(newCs) {
      ReducedEmptyIff(cs, cube);
      SatisfiedExtends(cs, cube, t);
    } else {
      var v := FirstUnassigned(cube, n).value;
      assert v in Domain(n) - cube.Keys;
      if BacktrackRec(newCs, cube[v := false], n).Some? {
        BacktrackSound(newCs, cube[v := false], n);
      } else {
        BacktrackSound(newCs, cube[v := true], n);
      }
      ReducedKeepsModels(cs, cube, t);
    }
  }

  /** Simplification under `a` keeps every variable of the clauses in 1..n. */
  lemma ReducedInRange(cs: seq<Clause>, a: Assignment, n: nat)
    requires forall c, l :: c in cs && l in c.literals ==> 1 <= l.v <= n
    ensures forall c, l :: c in Reduced(cs, a) && l in c.literals ==> 1 <= l.v <= n
  {
    ReducedLiterals(cs, a);
  }

  /**
   * A simplified formula that is neither satisfied nor falsified still has an
   * unassigned literal, so the search always finds a variable to branch on.
   */
  lemma UndecidedHasUnassigned(cs: seq<Clause>, a: Assignment, n: nat)
    requires forall c, l :: c in cs && l in c.literals ==> 1 <= l.v <= n
    requires !IsSatisfied(Reduced(cs, a)) && !IsFalsified(Reduced(cs, a))
    ensures !Complete(a, n)
  {
    var red := Reduced(cs, a);
    ReducedLiterals(cs, a);
    ReducedInRange(cs, a, n);
    var c := red[0];
    assert c in red;
    var l := c.literals[0];
    assert l in c.literals;
    assert l.v !in a && 1 <= l.v <= n;
  }

  /** A partial assignment that some model extends empties no clause. */
  lemma ModelNotFalsified(cs: seq<Clause>, a: Assignment, t: Assignment)
    requires Extends(t, a) && AllSatisfied(cs, t)
    ensures !IsFalsified(Reduced(cs, a))
  {
    ReducedFalsifiedIff(cs, a);
    if IsFalsified(Reduced(cs, a)) {
      var c :| c in cs && ClauseFalsified(c, a);
      FalsifiedExtends(c, a, t);
    }
  }

  /**
   * Backtracking misses no model: when every variable lies in 1..n and some
   * assignment of 1..n extending the cube satisfies the clauses, a result is
   * returned.
   */
  lemma BacktrackComplete(cs: seq<Clause>, cube: Assignment, n: nat, t: Assignment)
    requires forall c, l :: c in cs && l in c.literals ==> 1 <= l.v <= n
    requires Domain(n) <= t.Keys && Extends(t, cube) && AllSatisfied(cs, t)
    ensures BacktrackRec(cs, cube, n).Some?
    decreases Domain(n) - cube.Keys
  {
    var newCs := Reduced(cs, cube);
    if !IsSatisfied(newCs) {
      ModelNotFalsified(cs, cube, t);
      UndecidedHasUnassigned(cs, cube, n);
      var v := FirstUnassigned(cube, n).value;
      assert v in Domain(n) - cube.Keys;
      ReducedKeepsModels(cs, cube, t);
      ReducedInRange(cs, cube, n);
      if t[v] {
        BacktrackComplete(newCs, cube[v := true], n, t);
      } else {
        BacktrackComplete(newCs, cube[v := false], n, t);
      }
    }
  }

  /**
   * solve_backtrack: any returned assignment is total and a model; on a
   * formula whose variables lie in 1..numVars, None means no model exists.
   */
  lemma SolveBacktrackCorrect(f: CnfFormula)
    ensures SolveBacktrack(f).Some? ==>
      Domain(f.numVars) <= SolveBacktrack(f).value.Keys && CheckAssignment(f, SolveBacktrack(f).value)
    ensures WellFormed(f) ==>
      (SolveBacktrack(f).None? <==> forall t: Assignment :: Domain(f.numVars) <= t.Keys ==> !CheckAssignment(f, t))
  {
    if SolveBacktrack(f).Some? {
      BacktrackSound(f.clauses, map[], f.numVars);
    }
    if WellFormed(f) {
      forall t: Assignment | Domain(f.numVars) <= t.Keys && CheckAssignment(f, t)
        ensures SolveBacktrack(f).Some?
      {
        BacktrackComplete(f.clauses, map[], f.numVars, t);
      }
    }
  }

  // ---------------------------------------------------------------------------
  // solve_dpll
  // ---------------------------------------------------------------------------

  /**
   * solve_dpll_rec as written: after unit propagation it branches on the
   * first variable unassigned in the cube it was called with, and sets that
   * variable in the propagated assignment even when propagation has already
   * given it a value. The branches recurse on the formula simplified under
   * the propagated assignment.
   */
  function DpllRecAsWritten(cs: seq<Clause>, cube: Assignment, n: nat): (r: Option<Assignment>)
    ensures r.Some? ==> Extends(r.value, cube) && Domain(n) <= r.value.Keys
    decreases Domain(n) - cube.Keys
  {
    var newA := Propagated(cs, cube);
    var newCs := Reduced(cs, newA);
    if IsSatisfied(newCs) then Some(FillUnassigned(newA, n))
    else if IsFalsified(newCs) then None
    else match FirstUnassigned(cube, n)
      case None => None
      case Some(v) =>
        assert v in Domain(n) - cube.Keys;
        var lo := DpllRecAsWritten(newCs, newA[v := false], n);
        if lo.Some? then lo else DpllRecAsWritten(newCs, newA[v := true], n)
  }

  /**
   * solve_dpll as written: pure-literal elimination from the blank
   * assignment, then the recursive search.
   */
  function SolveDpllAsWritten(f: CnfFormula): (r: Option<Assignment>)
    requires WellFormed(f)
    ensures r.Some? ==> Domain(f.numVars) <= r.value.Keys && Extends(r.value, PureAssignment(f.clauses, f.numVars))
  {
    var pa := PureAssignment(f.clauses, f.numVars);
    DpllRecAsWritten(Reduced(f.clauses, pa), pa, f.numVars)
  }

  /**
   * solve_dpll_rec with the branching variable taken from the propagated
   * assignment, so a branch never overrides a propagated value.
   */
  function DpllRec(cs: seq<Clause>, cube: Assignment, n: nat): (r: Option<Assignment>)
    ensures r.Some? ==> Extends(r.value, cube) && Domain(n) <= r.value.Keys
    decreases Domain(n) - cube.Keys
  {
    var newA := Propagated(cs, cube);
    var newCs := Reduced(cs, newA);
    if IsSatisfied(newCs) then Some(FillUnassigned(newA, n))
    else if IsFalsified(newCs) then None
    else match FirstUnassigned(newA, n)
      case None => None
      case Some(v) =>
        assert v in Domain(n) - cube.Keys;
        var lo := DpllRec(newCs, newA[v := false], n);
        if lo.Some? then lo else DpllRec(newCs, newA[v := true], n)
  }

  /** solve_dpll with the corrected recursion: pure-literal elimination, then the search. */
  function SolveDpll(f: CnfFormula): (r: Option<Assignment>)
    requires WellFormed(f)
    ensures r.Some? ==> Domain(f.numVars) <= r.value.Keys && CheckAssignment(f, r.value)
    ensures r.Some? ==> Extends(r.value, PureAssignment(f.clauses, f.numVars))
  {
    var pa := PureAssignment(f.clauses, f.numVars);
    var r := DpllRec(Reduced(f.clauses, pa), pa, f.numVars);
    if r.Some? then
      DpllSound(Reduced(f.clauses, pa), pa, f.numVars);
      ReducedKeepsModels(f.clauses, pa, r.value);
      r
    else r
  }

  /** What the corrected search returns satisfies the clauses and extends the propagated cube. */
  lemma DpllSound(cs: seq<Clause>, cube: Assignment, n: nat)
    requires DpllRec(cs, cube, n).Some?
    ensures AllSatisfied(cs, DpllRec(cs, cube, n).value)
    decreases Domain(n) - cube.Keys
  {
    var newA := Propagated(cs, cube);
    var newCs := Reduced(cs, newA);
    var t := DpllRec(cs, cube, n).value;
    if IsSatisfied(newCs) {
      ReducedEmptyIff(cs, newA);
      SatisfiedExtends(cs, newA, t);
    } else {
      var v := FirstUnassigned(newA, n).value;
      assert v in Domain(n) - cube.Keys;
      if DpllRec(newCs, newA[v := false], n).Some? {
        DpllSound(newCs, newA[v := false], n);
      } else {
        DpllSound(newCs, newA[v := true], n);
      }
      ReducedKeepsModels(cs, newA, t);
    }
  }

  /**
   * The corrected search misses no model: with every variable in 1..n, a
   * model of 1..n extending the cube makes it return a result.
   */
  lemma DpllComplete(cs: seq<Clause>, cube: Assignment, n: nat, t: Assignment)
    requires forall c, l :: c in cs && l in c.literals ==> 1 <= l.v <= n
    requires Domain(n) <= t.Keys && Extends(t, cube) && AllSatisfied(cs, t)
    ensures DpllRec(cs, cube, n).Some?
    decreases Domain(n) - cube.Keys
  {
    var newA := Propagated(cs, cube);
    var newCs := Reduced(cs, newA);
    PropagatedKeepsModels(cs, cube, t);
    if !IsSatisfied(newCs) {
      ModelNotFalsified(cs, newA, t);
      UndecidedHasUnassigned(cs, newA, n);
      var v := FirstUnassigned(newA, n).value;
      assert v in Domain(n) - cube.Keys;
      ReducedKeepsModels(cs, newA, t);
      ReducedInRange(cs, newA, n);
      if t[v] {
        DpllComplete(newCs, newA[v := true], n, t);
      } else {
        DpllComplete(newCs, newA[v := false], n, t);
      }
    }
  }

  /**
   * solve_dpll (with the corrected branching): any returned assignment is
   * total and a model, and None means the formula has no model.
   */
  lemma SolveDpllCorrect(f: CnfFormula)
    requires WellFormed(f)
    ensures SolveDpll(f).Some? ==>
      Domain(f.numVars) <= SolveDpll(f).value.Keys && CheckAssignment(f, SolveDpll(f).value)
    ensures SolveDpll(f).None? <==> forall t: Assignment :: Domain(f.numVars) <= t.Keys ==> !CheckAssignment(f, t)
  {
    var pa := PureAssignment(f.clauses, f.numVars);
    var pleCs := Reduced(f.clauses, pa);
    if SolveDpll(f).Some? {
      var t := SolveDpll(f).value;
      DpllSound(pleCs, pa, f.numVars);
      ReducedKeepsModels(f.clauses, pa, t);
    }
    forall t: Assignment | Domain(f.numVars) <= t.Keys && CheckAssignment(f, t)
      ensures SolveDpll(f).Some?
    {
      PureOverrideKeepsModels(f.clauses, t, f.numVars);
      var t' := t + pa;
      ReducedKeepsModels(f.clauses, pa, t');
      ReducedInRange(f.clauses, pa, f.numVars);
      DpllComplete(pleCs, pa, f.numVars, t');
    }
  }
}
