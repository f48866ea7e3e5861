/**
 * CDCL with first-UIP cuts (src/solve_cdcl_first_uip.rs). Each iteration of
 * the main loop first propagates units to a fixpoint. On a conflict the cut
 * is a hash set of literals; before it moves past each trail element, the
 * decision levels of its literals are listed, and when exactly one of them
 * is the current level, the negated cut is learned and the search backjumps
 * to the second-highest level in that list.
 *
 * A hash set's iteration order is unspecified: it is an arbitrary
 * enumeration here, the same one for the list of levels and for the learned
 * clause, since the set does not change between the two. A failed
 * `assert!`, `unwrap` or `unreachable!` makes the run Panicked, and the main
 * `loop` runs for at most `fuel` iterations.
 */
module FirstUip {
  import opened Formula
  import opened SearchState
  import opened ConflictAnalysis
  import SolverExamples

  // ---------------------------------------------------------------------------
  // Levels of the cut
  // ---------------------------------------------------------------------------

  /** Iterating a hash set: every element once, in an order the set does not fix. */
  method Elements(s: set<Lit>) returns (xs: seq<Lit>)
    ensures forall x :: x in xs <==> x in s
    ensures forall i, j :: 0 <= i < j < |xs| ==> xs[i] != xs[j]
  {
    xs := [];
    var rest := s;
    while rest != {}
      invariant forall x :: x in s <==> x in xs || x in rest
      invariant forall x :: x in xs ==> x !in rest
      invariant forall i, j :: 0 <= i < j < |xs| ==> xs[i] != xs[j]
      decreases |rest|
    {
      var x :| x in rest;
      xs := xs + [x];
      rest := rest - {x};
    }
  }

  /**
   * The decision level of each literal's variable, in order; None when one
   * is unassigned, where the `unwrap` panics.
   */
  function CutLevels(xs: seq<Lit>, trail: seq<Step>): (r: Option<seq<nat>>)
    ensures r.Some? <==> forall i :: 0 <= i < |xs| ==> LevelOf(trail, xs[i].v).Some?
    ensures r.Some? ==> |r.value| == |xs|
    ensures r.Some? ==> forall i :: 0 <= i < |xs| ==> LevelOf(trail, xs[i].v) == Some(r.value[i])
  {
    if xs == [] then Some([])
    else
      match LevelOf(trail, xs[0].v)
      case None => None
      case Some(l) =>
        var rest := CutLevels(xs[1..], trail);
        if rest.None? then None else Some([l] + rest.value)
  }

  /** How many of the levels equal `k`: the filter-and-count of the source. */
  function CountLevel(levels: seq<nat>, k: nat): (r: nat)
    ensures r == multiset(levels)[k]
  {
    if levels == [] then 0
    else
      assert levels == [levels[0]] + levels[1..];
      (if levels[0] == k then 1 else 0) + CountLevel(levels[1..], k)
  }

  predicate Descending(xs: seq<nat>)
  {
    forall i, j :: 0 <= i < j < |xs| ==> xs[i] >= xs[j]
  }

  /** Every entry is at most `h`. */
  predicate AtMost(h: nat, xs: seq<nat>)
  {
    forall i :: 0 <= i < |xs| ==> xs[i] <= h
  }

  /** A bound on every entry carries over to a permutation. */
  lemma AtMostPerm(h: nat, xs: seq<nat>, ys: seq<nat>)
    requires AtMost(h, xs) && multiset(xs) == multiset(ys)
    ensures AtMost(h, ys)
  {
    forall k | 0 <= k < |ys| ensures ys[k] <= h {
      assert ys[k] in multiset(ys);
      assert ys[k] in xs;
    }
  }

  /** Put `x` at its place in a non-increasing sequence. */
  function InsertDescending(x: nat, xs: seq<nat>): (r: seq<nat>)
    requires Descending(xs)
    ensures Descending(r) && multiset(r) == multiset(xs) + multiset{x}
  {
    if xs == [] || x >= xs[0] then
      DescendingCons(x, xs);
      [x] + xs
    else
      var rest := InsertDescending(x, xs[1..]);
      assert xs == [xs[0]] + xs[1..];
      AtMostPerm(xs[0], xs[1..] + [x], rest);
      DescendingCons(xs[0], rest);
      [xs[0]] + rest
  }

  /** A head no smaller than the first entry of a non-increasing sequence keeps it non-increasing. */
  lemma DescendingCons(h: nat, xs: seq<nat>)
    requires Descending(xs) && (xs == [] || AtMost(h, xs) || h >= xs[0])
    ensures Descending([h] + xs)
  {
  }

  /** sort_unstable followed by reverse: the levels in non-increasing order. */
  function SortDescending(xs: seq<nat>): (r: seq<nat>)
    ensures Descending(r) && multiset(r) == multiset(xs)
  {
    if xs == [] then []
    else
      assert xs == [xs[0]] + xs[1..];
      InsertDescending(xs[0], SortDescending(xs[1..]))
  }

  /** The backjump level: the second entry of the sorted levels, or 0 when there is only one. */
  function BackjumpLevel(levels: seq<nat>): (r: nat)
    ensures |levels| <= 1 ==> r == 0
    ensures |levels| > 1 ==> r in levels
  {
    var sorted := SortDescending(levels);
    assert |sorted| == |multiset(levels)| == |levels|;
    if |sorted| > 1 then
      assert sorted[1] in multiset(sorted);
      sorted[1]
    else 0
  }

  /**
   * Sorted, levels all at most `dl` with exactly one equal to it start with
   * `dl`, and their second entry is below it.
   */
  lemma SortedTop(levels: seq<nat>, sorted: seq<nat>, dl: nat)
    requires Descending(sorted) && multiset(sorted) == multiset(levels)
    requires AtMost(dl, levels) && multiset(levels)[dl] == 1
    ensures |sorted| > 0 && sorted[0] == dl
    ensures |sorted| > 1 ==> sorted[1] < dl
  {
    AtMostPerm(dl, levels, sorted);
    assert dl in multiset(sorted);
    var k :| 0 <= k < |sorted| && sorted[k] == dl;
    assert sorted[0] >= sorted[k];
    if |sorted| > 1 {
      OtherLevel(sorted, dl, 0, 1);
    }
  }

  /**
   * With every level at most the current one and exactly one equal to it,
   * the backjump level is below the current level, every other entry is at
   * most the backjump level, and with two entries or more one of the others
   * is exactly at it.
   */
  lemma UipLevels(levels: seq<nat>, dl: nat)
    requires dl > 0 && AtMost(dl, levels) && multiset(levels)[dl] == 1
    ensures BackjumpLevel(levels) < dl
    ensures exists i :: (0 <= i < |levels| && levels[i] == dl &&
      (forall j :: 0 <= j < |levels| && j != i ==> levels[j] <= BackjumpLevel(levels)) &&
      (|levels| >= 2 ==> exists j :: 0 <= j < |levels| && j != i && levels[j] == BackjumpLevel(levels)))
  {
    var bj := BackjumpLevel(levels);
    SortedTop(levels, SortDescending(levels), dl);
    assert dl in multiset(levels);
    var i :| 0 <= i < |levels| && levels[i] == dl;
    forall j | 0 <= j < |levels| && j != i
      ensures levels[j] <= bj
    {
      BelowBackjump(levels, dl, i, j);
    }
    if |levels| >= 2 {
      var j :| 0 <= j < |levels| && levels[j] == bj;
      assert j != i;
    }
    assert bj < dl;
    assert 0 <= i < |levels| && levels[i] == dl &&
      (forall j :: 0 <= j < |levels| && j != i ==> levels[j] <= bj) &&
      (|levels| >= 2 ==> exists j :: 0 <= j < |levels| && j != i && levels[j] == bj);
  }

  /** Beside the single entry at `dl`, every entry is at most the backjump level. */
  lemma BelowBackjump(levels: seq<nat>, dl: nat, i: nat, j: nat)
    requires AtMost(dl, levels) && multiset(levels)[dl] == 1
    requires i < |levels| && j < |levels| && i != j && levels[i] == dl
    ensures levels[j] <= BackjumpLevel(levels)
  {
    var sorted := SortDescending(levels);
    SortedTop(levels, sorted, dl);
    OtherLevel(levels, dl, i, j);
    assert levels[j] in multiset(sorted);
    var k :| 0 <= k < |sorted| && sorted[k] == levels[j];
    assert k != 0;
  }

  /** Only one entry equals `dl`, so any other entry differs from it. */
  lemma OtherLevel(levels: seq<nat>, dl: nat, i: nat, j: nat)
    requires multiset(levels)[dl] == 1
    requires i < |levels| && j < |levels| && i != j && levels[i] == dl
    ensures levels[j] != dl
  {
    var rest := levels[..i] + levels[i + 1..];
    assert levels == levels[..i] + [levels[i]] + levels[i + 1..];
    assert multiset(levels) == multiset(rest) + multiset{dl};
    var j' := if j < i then j else j - 1;
    assert rest[j'] == levels[j];
    assert levels[j] in multiset(rest);
  }

  // ---------------------------------------------------------------------------
  // Conflict analysis
  // ---------------------------------------------------------------------------

  /**
   * The learned clause of a first-UIP cut: one literal at the current level,
   * every other one assigned at most at the backjump level, which is below
   * the current level, and, with two literals or more, one of them at it.
   */
  predicate UipShape(lits: seq<Lit>, trail: seq<Step>, level: nat)
  {
    level < DecisionLevel(trail) &&
    exists i :: (0 <= i < |lits| && LevelOf(trail, lits[i].v) == Some(DecisionLevel(trail)) &&
      (forall j :: 0 <= j < |lits| && j != i ==>
        LevelOf(trail, lits[j].v).Some? && LevelOf(trail, lits[j].v).value <= level) &&
      (|lits| >= 2 ==> exists j :: 0 <= j < |lits| && j != i && LevelOf(trail, lits[j].v) == Some(level)))
  }

  /** The clause of the negated cut literals has the levels of the cut literals. */
  lemma UipClause(xs: seq<Lit>, levels: seq<nat>, lits: seq<Lit>, trail: seq<Step>)
    requires |levels| == |xs| && forall i :: 0 <= i < |xs| ==> LevelOf(trail, xs[i].v) == Some(levels[i])
    requires |lits| == |xs| && forall i :: 0 <= i < |xs| ==> lits[i] == Not(xs[i])
    requires DecisionLevel(trail) > 0 && AtMost(DecisionLevel(trail), levels)
    requires multiset(levels)[DecisionLevel(trail)] == 1
    ensures UipShape(lits, trail, BackjumpLevel(levels))
  {
    var dl := DecisionLevel(trail);
    var bj := BackjumpLevel(levels);
    UipLevels(levels, dl);
    NegatedLevels(xs, levels, lits, trail);
    var i :| 0 <= i < |levels| && levels[i] == dl &&
      (forall j :: 0 <= j < |levels| && j != i ==> levels[j] <= bj) &&
      (|levels| >= 2 ==> exists j :: 0 <= j < |levels| && j != i && levels[j] == bj);
    UipWitness(levels, lits, trail, i, bj);
  }

  /** The clause's literals at the levels of the list: the shape holds with the one at the current level as witness. */
  lemma UipWitness(levels: seq<nat>, lits: seq<Lit>, trail: seq<Step>, i: nat, bj: nat)
    requires |lits| == |levels| && forall k :: 0 <= k < |lits| ==> LevelOf(trail, lits[k].v) == Some(levels[k])
    requires i < |levels| && levels[i] == DecisionLevel(trail) && bj < DecisionLevel(trail)
    requires forall j :: 0 <= j < |levels| && j != i ==> levels[j] <= bj
    requires |levels| >= 2 ==> exists j :: 0 <= j < |levels| && j != i && levels[j] == bj
    ensures UipShape(lits, trail, bj)
  {
    assert LevelOf(trail, lits[i].v) == Some(DecisionLevel(trail));
  }

  /** Negating a literal keeps its variable, hence its level. */
  lemma NegatedLevels(xs: seq<Lit>, levels: seq<nat>, lits: seq<Lit>, trail: seq<Step>)
    requires |levels| == |xs| && forall i :: 0 <= i < |xs| ==> LevelOf(trail, xs[i].v) == Some(levels[i])
    requires |lits| == |xs| && forall i :: 0 <= i < |xs| ==> lits[i] == Not(xs[i])
    ensures forall i :: 0 <= i < |lits| ==> LevelOf(trail, lits[i].v) == Some(levels[i])
  {
    forall i | 0 <= i < |lits| ensures LevelOf(trail, lits[i].v) == Some(levels[i]) {
      assert lits[i].v == xs[i].v;
    }
  }

  /**
   * The loop over the reason clause of a unit-propagated element: a literal
   * on the element's variable must have its value, and any other adds its
   * negation to the cut.
   */
  method AddAntecedents(cut: set<Lit>, c: Clause, elementLit: Lit) returns (ok: bool, cut': set<Lit>)
    ensures ok <==> SameVarAgrees(c, elementLit)
    ensures ok ==> cut' == cut + Antecedents(c, elementLit.v)
  {
    cut' := cut;
    var i := 0;
    ghost var ants: set<Lit> := {};
    while i < |c.literals|
      invariant 0 <= i <= |c.literals|
      invariant SameVarAgrees(Clause(c.literals[..i]), elementLit)
      invariant ants == Antecedents(Clause(c.literals[..i]), elementLit.v)
      invariant cut' == cut + ants
    {
      var lit := c.literals[i];
      ReasonPrefixSnoc(c.literals, i, elementLit);
      if lit.v == elementLit.v {
        if lit.value != elementLit.value {
          return false, cut';
        }
      } else {
        UnionAssoc(cut, ants, {Not(lit)});
        cut' := cut' + {Not(lit)};
        ants := ants + {Not(lit)};
      }
      i := i + 1;
    }
    assert c.literals[..i] == c.literals;
    return true, cut';
  }

  /**
   * The Falsified arm above level 0: walk the trail from its end; before
   * moving past each element, list the cut's levels and stop at a first-UIP
   * cut. A learned clause is entailed by the clauses and has the first-UIP
   * shape.
   */
  method AnalyzeFirstUip(state: State, falsified: Clause) returns (out: Analysis)
    requires SearchState.Valid(state) && ReasonsIn(state)
    requires falsified in state.clauses
    requires DecisionLevel(state.trail) > 0
    ensures out.Learn? ==> Entailed(state.clauses, out.clause.literals)
    ensures out.Learn? ==> UipShape(out.clause.literals, state.trail, out.level)
  {
    var cut := InitialCut(falsified);
    InitialCutEntailed(state.clauses, falsified);
    var dl := DecisionLevel(state.trail);
    var i := |state.trail|;
    while i > 0
      invariant 0 <= i <= |state.trail|
      invariant CutEntailed(state.clauses, cut)
      decreases i
    {
      var xs := Elements(cut);
      var levels := CutLevels(xs, state.trail);
      if levels.None? {
        return AnalysisPanic;
      }
      var count := CountLevel(levels.value, dl);
      if count == 0 {
        return AnalysisPanic;
      }
      if count == 1 {
        var learned := Clause(seq(|xs|, k requires 0 <= k < |xs| => Not(xs[k])));
        assert forall x :: x in cut ==> Not(x) in learned.literals by {
          forall x | x in cut ensures Not(x) in learned.literals {
            var k :| 0 <= k < |xs| && xs[k] == x;
            assert learned.literals[k] == Not(x);
          }
        }
        LearnedEntailed(state.clauses, cut, learned.literals);
        forall k | 0 <= k < |levels.value|
          ensures levels.value[k] <= dl
        {
          assert LevelOf(state.trail, xs[k].v) == Some(levels.value[k]);
        }
        UipClause(xs, levels.value, learned.literals, state.trail);
        return Learn(learned, BackjumpLevel(levels.value));
      }
      var e := state.trail[i - 1];
      if e.reason.Decision? {
        return AnalysisPanic;
      }
      var ok, added := AddAntecedents(cut, e.reason.clause, e.lit);
      if !ok {
        return AnalysisPanic;
      }
      MoveCutEntailed(state.clauses, cut, e.reason.clause, e.lit);
      cut := added - {e.lit};
      i := i - 1;
    }
    return NoCut;
  }

  // ---------------------------------------------------------------------------
  // The main loop
  // ---------------------------------------------------------------------------

  /**
   * solve_cdcl_first_uip_from_state: at most `fuel` iterations of the main
   * loop. Some assignment is a total model of the starting clauses, and None
   * means they have no model.
   */
  method SolveFirstUipFromState(s0: State, fuel: nat) returns (r: Outcome<Option<Assignment>>)
    requires SearchInv(s0, s0)
    ensures r.Finished? && r.value.Some? ==>
      Complete(r.value.value, s0.numVars) && AllSatisfied(s0.clauses, r.value.value)
    ensures r.Finished? && r.value.None? ==> forall t :: !AllSatisfied(s0.clauses, t)
  {
    var state := s0;
    var steps := fuel;
    while steps > 0
      invariant SearchInv(s0, state)
      decreases steps
    {
      UnitPropagatedKeeps(s0, state);
      state := UnitPropagated(state);
      var status := StatusOf(state);
      if status.Satisfied? {
        SatisfiedResult(s0, state);
        return Finished(Some(FillUnassigned(state.assignment, state.numVars)));
      } else if status.UnassignedDecision? {
        DecideKeeps(s0, state, status.lit.v, status.lit.value);
        state := Decide(state, status.lit.v, status.lit.value);
      } else {
        // Propagation leaves no unit clause, so the unreachable arm is not taken.
        assert status.Falsified?;
        if DecisionLevel(state.trail) == 0 {
          Level0Conflict(s0, state);
          return Finished(None);
        }
        var analysis := AnalyzeFirstUip(state, status.clause);
        if analysis.AnalysisPanic? {
          return Panicked;
        } else if analysis.Learn? {
          LearnBackjumpKeeps(s0, state, analysis.clause.literals, analysis.level);
          state := LearnClause(state, analysis.clause.literals);
          state := Backjump(state, analysis.level);
        }
      }
      steps := steps - 1;
    }
    return OutOfFuel;
  }

  /** solve_cdcl_first_uip: the loop from the blank state. */
  method SolveFirstUip(f: CnfFormula, fuel: nat) returns (r: Outcome<Option<Assignment>>)
    ensures r.Finished? && r.value.Some? ==>
      Complete(r.value.value, f.numVars) && CheckAssignment(f, r.value.value)
    ensures r.Finished? && r.value.None? ==> forall t :: !CheckAssignment(f, t)
  {
    var s := FromCnf(f);
    SearchInvStart(s);
    r := SolveFirstUipFromState(s, fuel);
  }

  /** test_solve_cdcl_first_uip_sat: when the loop finishes on the satisfiable test formula, it returns a total model. */
  method SatExampleFirstUip(fuel: nat) returns (r: Outcome<Option<Assignment>>)
    ensures r.Finished? ==> r.value.Some? && Complete(r.value.value, 5)
    ensures r.Finished? ==> CheckAssignment(CnfFormula(5, SolverExamples.SatClauses()), r.value.value)
  {
    var f := CnfFormula(5, SolverExamples.SatClauses());
    SolverExamples.SatModel(f, map[1 := true, 2 := false, 3 := true, 4 := false, 5 := false]);
    r := SolveFirstUip(f, fuel);
  }

  /** test_solve_cdcl_first_uip_unsat: when the loop finishes on the unsatisfiable test formula, it returns None. */
  method UnsatExampleFirstUip(fuel: nat) returns (r: Outcome<Option<Assignment>>)
    ensures r.Finished? ==> r.value.None?
  {
    var f := CnfFormula(5, SolverExamples.UnsatClauses());
    r := SolveFirstUip(f, fuel);
    if r.Finished? && r.value.Some? {
      SolverExamples.UnsatNoModel(f, r.value.value);
    }
  }
}
