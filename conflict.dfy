/**
 * What the two CDCL loops (src/solve_cdcl.rs and src/solve_cdcl_first_uip.rs)
 * share: the cut of a conflict and why moving it backwards keeps it sound,
 * the clause learned from a cut, and the invariant the search keeps between
 * iterations of its main loop.
 *
 * A cut is a set of literals, each true under the current assignment, that
 * cannot all be true together in any model of the clauses; the clause made
 * of their negations is then satisfied by every model, so learning it
 * changes no model.
 */
module ConflictAnalysis {
  import opened Formula
  import opened SearchState
  import TrailState

  /** How a loop bounded by `fuel` iterations ends: a value, a failed runtime assertion, or no more fuel. */
  datatype Outcome<T> = Finished(value: T) | Panicked | OutOfFuel

  // ---------------------------------------------------------------------------
  // Cuts and learned clauses
  // ---------------------------------------------------------------------------

  /** Every model of the clauses satisfies the clause made of `lits`. */
  ghost predicate Entailed(cs: seq<Clause>, lits: seq<Lit>)
  {
    forall t :: AllSatisfied(cs, t) ==> ClauseSatisfied(Clause(lits), t)
  }

  /** Every model of the clauses makes some literal of the cut false. */
  ghost predicate CutEntailed(cs: seq<Clause>, cut: set<Lit>)
  {
    forall t :: AllSatisfied(cs, t) ==> exists x :: x in cut && IsFalse(t, x)
  }

  /** The cut a conflict starts from: the negations of the falsified clause's literals. */
  function InitialCut(c: Clause): (r: set<Lit>)
    ensures forall x :: x in r <==> Not(x) in c.literals
  {
    assert forall x :: Not(Not(x)) == x;
    set l | l in c.literals :: Not(l)
  }

  /** The literals a reason clause adds to the cut: the negations of its literals on other variables. */
  function Antecedents(c: Clause, v: nat): (r: set<Lit>)
    ensures forall x :: x in r <==> Not(x) in c.literals && x.v != v
  {
    assert forall x :: Not(Not(x)) == x;
    set l | l in c.literals && l.v != v :: Not(l)
  }

  /** The runtime check of moving the cut: every literal of the reason clause on the element's variable has its value. */
  predicate SameVarAgrees(c: Clause, lit: Lit)
  {
    forall m :: m in c.literals && m.v == lit.v ==> m.value == lit.value
  }

  /** A falsified clause of the formula gives a sound cut. */
  lemma InitialCutEntailed(cs: seq<Clause>, c: Clause)
    requires c in cs
    ensures CutEntailed(cs, InitialCut(c))
  {
    forall t | AllSatisfied(cs, t)
      ensures exists x :: x in InitialCut(c) && IsFalse(t, x)
    {
      var m :| m in c.literals && IsTrue(t, m);
      assert Not(Not(m)) == m;
      assert Not(m) in InitialCut(c) && IsFalse(t, Not(m));
    }
  }

  /**
   * Moving the cut past a trail element whose reason clause is a clause of
   * the formula and passes the runtime check keeps it sound: a model that
   * made the element's literal false satisfies the reason clause through a
   * literal on another variable, whose negation joins the cut.
   */
  lemma MoveCutEntailed(cs: seq<Clause>, cut: set<Lit>, c: Clause, lit: Lit)
    requires CutEntailed(cs, cut) && c in cs && SameVarAgrees(c, lit)
    ensures CutEntailed(cs, (cut + Antecedents(c, lit.v)) - {lit})
  {
    var cut' := (cut + Antecedents(c, lit.v)) - {lit};
    forall t | AllSatisfied(cs, t)
      ensures exists x :: x in cut' && IsFalse(t, x)
    {
      var x :| x in cut && IsFalse(t, x);
      if x == lit {
        var m :| m in c.literals && IsTrue(t, m);
        assert m.v != lit.v;
        assert Not(Not(m)) == m;
        assert Not(m) in cut' && IsFalse(t, Not(m));
      } else {
        assert x in cut';
      }
    }
  }

  /** A clause holding the negation of every cut literal is entailed by the clauses. */
  lemma LearnedEntailed(cs: seq<Clause>, cut: set<Lit>, lits: seq<Lit>)
    requires CutEntailed(cs, cut)
    requires forall x :: x in cut ==> Not(x) in lits
    ensures Entailed(cs, lits)
  {
    forall t | AllSatisfied(cs, t)
      ensures ClauseSatisfied(Clause(lits), t)
    {
      var x :| x in cut && IsFalse(t, x);
      assert Not(x) in lits && IsTrue(t, Not(x));
    }
  }

  /** One more literal of a reason clause: what it adds to the runtime check and to the antecedents. */
  lemma ReasonPrefixSnoc(ls: seq<Lit>, i: nat, lit: Lit)
    requires i < |ls|
    ensures SameVarAgrees(Clause(ls[..i + 1]), lit) <==>
      SameVarAgrees(Clause(ls[..i]), lit) && (ls[i].v == lit.v ==> ls[i].value == lit.value)
    ensures Antecedents(Clause(ls[..i + 1]), lit.v) ==
      Antecedents(Clause(ls[..i]), lit.v) + if ls[i].v == lit.v then {} else {Not(ls[i])}
  {
    assert ls[..i + 1] == ls[..i] + [ls[i]];
    assert Not(Not(ls[i])) == ls[i];
  }

  /** A reason clause that passes the runtime check has every prefix passing it. */
  lemma SameVarPrefix(ls: seq<Lit>, i: nat, lit: Lit)
    requires i <= |ls| && SameVarAgrees(Clause(ls), lit)
    ensures SameVarAgrees(Clause(ls[..i]), lit)
  {
    assert forall m :: m in ls[..i] ==> m in ls;
  }

  /**
   * Set union regroups. The loops over a reason clause call it so that the
   * step is proved outside their larger context.
   */
  lemma UnionAssoc(a: set<Lit>, b: set<Lit>, c: set<Lit>)
    ensures (a + b) + c == a + (b + c)
  {
  }

  /** What one conflict analysis ends with: a clause to learn and a level, no cut found, or a panic. */
  datatype Analysis = Learn(clause: Clause, level: nat) | NoCut | AnalysisPanic

  // ---------------------------------------------------------------------------
  // The search invariant
  // ---------------------------------------------------------------------------

  /** Every unit-propagated trail element has a clause of the formula as its reason. */
  predicate ReasonsIn(s: State)
  {
    forall i :: 0 <= i < |s.trail| && s.trail[i].reason.UnitProp? ==> s.trail[i].reason.clause in s.clauses
  }

  /** Every model of the clauses agrees with the level-0 part of the trail. */
  ghost predicate Level0Forced(s: State)
  {
    forall t :: AllSatisfied(s.clauses, t) ==> Extends(t, AssignmentOf(KeepLevels(s.trail, 0)))
  }

  /**
   * What the CDCL main loop keeps about its state, relative to the state it
   * started from: the state is valid, reasons are clauses, level 0 is
   * forced, the original clauses are a prefix of the clauses, and the
   * models of the clauses are exactly those of the original ones.
   */
  ghost predicate SearchInv(s0: State, s: State)
  {
    Valid(s) && ReasonsIn(s) && Level0Forced(s) &&
    s.numVars == s0.numVars &&
    |s0.clauses| <= |s.clauses| && s.clauses[..|s0.clauses|] == s0.clauses &&
    forall t :: AllSatisfied(s0.clauses, t) ==> AllSatisfied(s.clauses, t)
  }

  /** A state with an empty trail starts the invariant. */
  lemma SearchInvStart(s: State)
    requires Valid(s) && s.trail == []
    ensures SearchInv(s, s)
  {
    assert s.clauses[..|s.clauses|] == s.clauses;
  }

  /** The models of a prefix of the clauses include the models of all of them. */
  lemma PrefixModels(s0: State, s: State, t: Assignment)
    requires |s0.clauses| <= |s.clauses| && s.clauses[..|s0.clauses|] == s0.clauses
    requires AllSatisfied(s.clauses, t)
    ensures AllSatisfied(s0.clauses, t)
  {
    forall c | c in s0.clauses ensures ClauseSatisfied(c, t) {
      var i :| 0 <= i < |s0.clauses| && s0.clauses[i] == c;
      assert s.clauses[i] == c;
    }
  }

  /** decide keeps the invariant: a decision leaves the level-0 part alone. */
  lemma DecideKeeps(s0: State, s: State, v: nat, b: bool)
    requires SearchInv(s0, s)
    ensures SearchInv(s0, Decide(s, v, b))
  {
    KeepLevelsZeroPush(s.trail, Step(Lit(v, b), Decision));
  }

  /**
   * Assigning the unit literal the status reports keeps the invariant: at
   * level 0 the literal is true in every model, because its clause is.
   */
  lemma UnitKeeps(s0: State, s: State)
    requires SearchInv(s0, s) && StatusOf(s).UnassignedUnit?
    ensures SearchInv(s0, AssignUnitprop(s, StatusOf(s).lit.v, StatusOf(s).lit.value, StatusOf(s).clause))
  {
    var st := StatusOf(s);
    var e := Step(st.lit, UnitProp(st.clause));
    var r := AssignUnitprop(s, st.lit.v, st.lit.value, st.clause);
    assert r.trail == s.trail + [e];
    KeepLevelsZeroPush(s.trail, e);
    forall t | AllSatisfied(r.clauses, t)
      ensures Extends(t, AssignmentOf(KeepLevels(r.trail, 0)))
    {
      if DecisionLevel(s.trail) == 0 {
        TrailState.UnitLiteralForced(st.clause, s.assignment, t);
      }
    }
  }

  /** unit_propagate keeps the invariant. */
  lemma {:induction false} UnitPropagatedKeeps(s0: State, s: State)
    requires SearchInv(s0, s)
    ensures SearchInv(s0, UnitPropagated(s))
    decreases Vars(s.clauses) - s.assignment.Keys
  {
    if StatusOf(s).UnassignedUnit? {
      var st := StatusOf(s);
      StatusLitOpen(s);
      UnitKeeps(s0, s);
      UnitPropagatedKeeps(s0, AssignUnitprop(s, st.lit.v, st.lit.value, st.clause));
    }
  }

  /**
   * Learning an entailed clause and backjumping keeps the invariant: the
   * models stay the same, the kept trail is a prefix, and its level-0 part
   * is the old one.
   */
  lemma LearnBackjumpKeeps(s0: State, s: State, lits: seq<Lit>, k: nat)
    requires SearchInv(s0, s) && Entailed(s.clauses, lits)
    ensures SearchInv(s0, Backjump(LearnClause(s, lits), k))
  {
    var l := LearnClause(s, lits);
    var r := Backjump(l, k);
    KeepLevelsZero(s.trail, k);
    forall t | AllSatisfied(s.clauses, t)
      ensures AllSatisfied(l.clauses, t)
    {
      assert ClauseSatisfied(Clause(lits), t);
    }
    forall t | AllSatisfied(r.clauses, t)
      ensures Extends(t, AssignmentOf(KeepLevels(r.trail, 0)))
    {
      assert AllSatisfied(s.clauses, t);
    }
    forall i | 0 <= i < |r.trail| && r.trail[i].reason.UnitProp?
      ensures r.trail[i].reason.clause in r.clauses
    {
      assert r.trail[i] == s.trail[i];
    }
    assert r.clauses[..|s0.clauses|] == s.clauses[..|s0.clauses|];
  }

  /** A satisfied state gives a total model of the original clauses. */
  lemma SatisfiedResult(s0: State, s: State)
    requires SearchInv(s0, s) && StatusOf(s) == Satisfied
    ensures Complete(FillUnassigned(s.assignment, s.numVars), s0.numVars)
    ensures AllSatisfied(s0.clauses, FillUnassigned(s.assignment, s.numVars))
  {
    StatusMeaning(s);
    var t := FillUnassigned(s.assignment, s.numVars);
    SatisfiedExtends(s.clauses, s.assignment, t);
    PrefixModels(s0, s, t);
  }

  /**
   * A clause falsified at decision level 0 means no model: every model
   * would extend the level-0 assignment, which falsifies that clause.
   */
  lemma Level0Conflict(s0: State, s: State)
    requires SearchInv(s0, s) && StatusOf(s).Falsified? && DecisionLevel(s.trail) == 0
    ensures forall t :: !AllSatisfied(s0.clauses, t)
    ensures forall t :: AllSatisfied(s.clauses, t) <==> AllSatisfied(s0.clauses, t)
  {
    var c := StatusOf(s).clause;
    forall t | AllSatisfied(s0.clauses, t)
      ensures false
    {
      assert Extends(t, s.assignment);
      FalsifiedExtends(c, s.assignment, t);
    }
    forall t ensures AllSatisfied(s.clauses, t) ==> AllSatisfied(s0.clauses, t) {
      if AllSatisfied(s.clauses, t) {
        PrefixModels(s0, s, t);
      }
    }
  }
}
