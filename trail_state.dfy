/**
 * The trail-based solver state (src/solver_state.rs): the formula, a partial
 * assignment, and the trail of assigned literals, each with its reason (a
 * decision, with a snapshot of the assignment before it, or the clause a
 * unit propagation used). Clauses are never simplified here; their status is
 * read off the assignment.
 */
module TrailState {
  import opened Formula
  import Solver

  datatype TrailReason = Decision(snapshot: Assignment) | UnitProp(clause: Clause)

  datatype TrailElement = TrailElement(lit: Lit, reason: TrailReason)

  /** get_status of this revision: satisfied, falsified, or an unassigned literal to branch on. */
  datatype Status = Satisfied | Falsified | Unassigned(lit: Lit)

  // ---------------------------------------------------------------------------
  // Clause::get_unit_literal and Clause::get_equivalent_clause
  // ---------------------------------------------------------------------------

  /**
   * The unit literal of a clause: none when some literal is true, otherwise
   * the unassigned literal when there is exactly one unassigned position.
   */
  function UnitLiteral(c: Clause, a: Assignment): (r: Option<Lit>)
    ensures r.Some? ==> r.value in c.literals && r.value.v !in a
  {
    var open := Solver.Unassigned(c.literals, a);
    if ClauseSatisfied(c, a) || |open| != 1 then None
    else
      assert open[0] in open;
      Some(open[0])
  }

  /** Exactly one position of `lits` is unassigned, and it holds `l`. */
  predicate SoleOpen(lits: seq<Lit>, a: Assignment, l: Lit)
  {
    exists i :: 0 <= i < |lits| && lits[i] == l && l.v !in a &&
      forall j :: 0 <= j < |lits| && j != i ==> lits[j].v in a
  }

  lemma {:induction false} UnassignedNone(lits: seq<Lit>, a: Assignment)
    ensures Solver.Unassigned(lits, a) == [] <==> forall j :: 0 <= j < |lits| ==> lits[j].v in a
  {
    if lits != [] {
      UnassignedNone(lits[1..], a);
      assert forall j :: 0 < j < |lits| ==> lits[j] == lits[1..][j - 1];
    }
  }

  lemma {:induction false} UnassignedSingle(lits: seq<Lit>, a: Assignment, l: Lit)
    ensures Solver.Unassigned(lits, a) == [l] <==> SoleOpen(lits, a, l)
  {
    if lits != [] {
      UnassignedSingle(lits[1..], a, l);
      if lits[0].v in a {
        SoleOpenAssignedHead(lits, a, l);
      } else {
        UnassignedNone(lits[1..], a);
        assert forall j :: 0 < j < |lits| ==> lits[j] == lits[1..][j - 1];
        if SoleOpen(lits, a, l) {
          var i :| 0 <= i < |lits| && lits[i] == l && l.v !in a &&
            forall j :: 0 <= j < |lits| && j != i ==> lits[j].v in a;
          assert i == 0;
        }
      }
    }
  }

  /** With an assigned first position, the sole open position lies in the rest. */
  lemma SoleOpenAssignedHead(lits: seq<Lit>, a: Assignment, l: Lit)
    requires lits != [] && lits[0].v in a
    ensures SoleOpen(lits, a, l) <==> SoleOpen(lits[1..], a, l)
  {
    var rest := lits[1..];
    if SoleOpen(rest, a, l) {
      var i :| 0 <= i < |rest| && rest[i] == l && l.v !in a &&
        forall j :: 0 <= j < |rest| && j != i ==> rest[j].v in a;
      forall j | 0 <= j < |lits| && j != i + 1 ensures lits[j].v in a {
        if j > 0 { assert lits[j] == rest[j - 1]; }
      }
    }
    if SoleOpen(lits, a, l) {
      var i :| 0 <= i < |lits| && lits[i] == l && l.v !in a &&
        forall j :: 0 <= j < |lits| && j != i ==> lits[j].v in a;
      forall j | 0 <= j < |rest| && j != i - 1 ensures rest[j].v in a {
        assert rest[j] == lits[j + 1];
      }
    }
  }

  /**
   * get_unit_literal returns Some(l) exactly when no literal is true and l
   * sits at the only unassigned position, every other literal being false.
   */
  lemma UnitLiteralIff(c: Clause, a: Assignment, l: Lit)
    ensures UnitLiteral(c, a) == Some(l) <==>
      !ClauseSatisfied(c, a) &&
      exists i :: 0 <= i < |c.literals| && c.literals[i] == l && l.v !in a &&
        forall j :: 0 <= j < |c.literals| && j != i ==> IsFalse(a, c.literals[j])
  {
    UnassignedSingle(c.literals, a, l);
    if !ClauseSatisfied(c, a) {
      forall j | 0 <= j < |c.literals| ensures c.literals[j].v in a <==> IsFalse(a, c.literals[j]) {
        assert c.literals[j] in c.literals;
      }
    }
    var open := Solver.Unassigned(c.literals, a);
    if |open| == 1 {
      assert open == [open[0]];
    }
  }

  /**
   * The loop of get_unit_literal: a true literal ends it with nothing, a
   * second unassigned literal ends it with nothing, false literals are
   * skipped, and the one unassigned literal seen is the answer.
   */
  method GetUnitLiteral(c: Clause, a: Assignment) returns (r: Option<Lit>)
    ensures r == UnitLiteral(c, a)
  {
    var unassignedLit: Option<Lit> := None;
    var k := 0;
    while k < |c.literals|
      invariant 0 <= k <= |c.literals|
      invariant !ClauseSatisfied(Clause(c.literals[..k]), a)
      invariant Solver.Unassigned(c.literals[..k], a) == OptionSeq(unassignedLit)
    {
      var lit := c.literals[k];
      Solver.UnassignedSnoc(c.literals, k, a);
      match LitValue(a, lit) {
        case Some(true) =>
          assert lit in c.literals;
          return None;
        case Some(false) =>
        case None =>
          if unassignedLit.Some? {
            UnassignedPrefixTooMany(c, k, a);
            return None;
          }
          unassignedLit := Some(lit);
      }
      k := k + 1;
    }
    assert c.literals[..k] == c.literals;
    r := unassignedLit;
  }

  function OptionSeq(o: Option<Lit>): seq<Lit>
  {
    match o
    case None => []
    case Some(l) => [l]
  }

  /** Two unassigned positions: the clause has no unit literal. */
  lemma UnassignedPrefixTooMany(c: Clause, k: nat, a: Assignment)
    requires k < |c.literals|
    requires |Solver.Unassigned(c.literals[..k + 1], a)| >= 2
    ensures UnitLiteral(c, a) == None
  {
    var lits := c.literals;
    assert lits == lits[..k + 1] + lits[k + 1..];
    Solver.UnassignedAppend(lits[..k + 1], lits[k + 1..], a);
  }

  /**
   * get_equivalent_clause: nothing for a satisfied clause, otherwise its
   * unassigned literals in order. Over a clause list it is apply_assignment
   * of the earlier revision.
   */
  function EquivalentClause(c: Clause, a: Assignment): (r: Option<seq<Lit>>)
    ensures r.None? <==> ClauseSatisfied(c, a)
    ensures r.Some? ==> forall l :: l in r.value <==> l in c.literals && l.v !in a
  {
    if ClauseSatisfied(c, a) then None else Some(Solver.Unassigned(c.literals, a))
  }

  /** get_equivalent_clauses: the filter_map of get_equivalent_clause over the formula. */
  function EquivalentClauses(cs: seq<Clause>, a: Assignment): (r: seq<Clause>)
    ensures |r| <= |cs|
    ensures forall c, l :: c in r && l in c.literals ==> l.v !in a
  {
    if cs == [] then []
    else
      (match EquivalentClause(cs[0], a) case None => [] case Some(lits) => [Clause(lits)]) +
      EquivalentClauses(cs[1..], a)
  }

  /** The equivalent clauses are exactly the clauses apply_assignment keeps. */
  lemma {:induction false} EquivalentClausesAreReduced(cs: seq<Clause>, a: Assignment)
    ensures EquivalentClauses(cs, a) == Solver.Reduced(cs, a)
  {
    if cs != [] {
      EquivalentClausesAreReduced(cs[1..], a);
    }
  }

  // ---------------------------------------------------------------------------
  // get_status
  // ---------------------------------------------------------------------------

  function LastOpen(lits: seq<Lit>, a: Assignment): Option<Lit>
  {
    var open := Solver.Unassigned(lits, a);
    if open == [] then None else Some(open[|open| - 1])
  }

  /**
   * get_status: the first clause without a true literal decides. It is
   * falsified when none of its literals is unassigned, otherwise the status
   * names its last unassigned literal. With no such clause the formula is
   * satisfied.
   */
  function StatusOf(cs: seq<Clause>, a: Assignment): (r: Status)
    ensures r.Unassigned? ==> r.lit.v !in a
  {
    if cs == [] then Satisfied
    else if ClauseSatisfied(cs[0], a) then StatusOf(cs[1..], a)
    else match LastOpen(cs[0].literals, a)
      case None => Falsified
      case Some(l) => Unassigned(l)
  }

  /**
   * What get_status reports: Satisfied exactly when check_assignment holds;
   * Falsified only when some clause has every literal false; Unassigned(l)
   * only for an unassigned literal of a clause with no true literal, and
   * then no earlier clause is falsified.
   */
  lemma {:induction false} StatusOfMeaning(cs: seq<Clause>, a: Assignment)
    ensures StatusOf(cs, a) == Satisfied <==> AllSatisfied(cs, a)
    ensures StatusOf(cs, a) == Falsified ==> exists c :: c in cs && ClauseFalsified(c, a)
    ensures StatusOf(cs, a).Unassigned? ==>
      var l := StatusOf(cs, a).lit;
      l.v !in a && exists c :: c in cs && l in c.literals && !ClauseSatisfied(c, a)
  {
    if cs != [] {
      StatusOfMeaning(cs[1..], a);
      var c := cs[0];
      assert c in cs;
      assert forall d :: d in cs <==> d == c || d in cs[1..];
      if !ClauseSatisfied(c, a) {
        var open := Solver.Unassigned(c.literals, a);
        if open == [] {
          forall l | l in c.literals ensures IsFalse(a, l) {
            assert l !in open;
          }
        } else {
          assert open[|open| - 1] in open;
        }
      }
    }
  }

  /**
   * The inner loop of get_status over one clause: a true literal moves on to
   * the next clause, an unassigned literal is remembered (the last one wins).
   */
  method ScanClause(c: Clause, a: Assignment) returns (satisfied: bool, unassigned: Option<Lit>)
    ensures satisfied <==> ClauseSatisfied(c, a)
    ensures !satisfied ==> unassigned == LastOpen(c.literals, a)
  {
    unassigned := None;
    var k := 0;
    while k < |c.literals|
      invariant 0 <= k <= |c.literals|
      invariant !ClauseSatisfied(Clause(c.literals[..k]), a)
      invariant unassigned == LastOpen(c.literals[..k], a)
    {
      var lit := c.literals[k];
      LastOpenSnoc(c.literals, k, a);
      match LitValue(a, lit) {
        case Some(false) =>
        case Some(true) =>
          assert lit in c.literals;
          return true, unassigned;
        case None =>
          unassigned := Some(lit);
      }
      k := k + 1;
    }
    assert c.literals[..k] == c.literals;
    satisfied := false;
  }

  lemma LastOpenSnoc(lits: seq<Lit>, k: nat, a: Assignment)
    requires k < |lits|
    ensures LastOpen(lits[..k + 1], a) == if lits[k].v in a then LastOpen(lits[..k], a) else Some(lits[k])
    ensures ClauseSatisfied(Clause(lits[..k + 1]), a) <==> ClauseSatisfied(Clause(lits[..k]), a) || IsTrue(a, lits[k])
  {
    Solver.UnassignedSnoc(lits, k, a);
  }

  /** The labelled outer loop of get_status. */
  method GetStatus(cs: seq<Clause>, a: Assignment) returns (st: Status)
    ensures st == StatusOf(cs, a)
  {
    var j := 0;
    while j < |cs|
      invariant 0 <= j <= |cs|
      invariant StatusOf(cs[j..], a) == StatusOf(cs, a)
    {
      var satisfied, unassigned := ScanClause(cs[j], a);
      assert cs[j..][1..] == cs[j + 1..];
      if !satisfied {
        match unassigned
        case Some(l) => return Unassigned(l);
        case None => return Falsified;
      }
      j := j + 1;
    }
    st := Satisfied;
  }

  // ---------------------------------------------------------------------------
  // get_unit_literal of the state, get_last_decision_index
  // ---------------------------------------------------------------------------

  /** get_unit_literal of the state: the first clause that has a unit literal, with that literal. */
  function FirstUnitClause(cs: seq<Clause>, a: Assignment): (r: Option<(Clause, Lit)>)
    ensures r.Some? ==> r.value.0 in cs && UnitLiteral(r.value.0, a) == Some(r.value.1)
    ensures r.None? <==> forall c :: c in cs ==> UnitLiteral(c, a).None?
  {
    if cs == [] then None
    else match UnitLiteral(cs[0], a)
      case Some(l) => Some((cs[0], l))
      case None =>
        assert forall c :: c in cs <==> c == cs[0] || c in cs[1..];
        FirstUnitClause(cs[1..], a)
  }

  /**
   * get_last_decision_index: the largest trail index whose reason is a
   * decision, together with that decision's snapshot.
   */
  function LastDecision(trail: seq<TrailElement>): (r: Option<(nat, Assignment)>)
    ensures r.Some? ==> r.value.0 < |trail| && trail[r.value.0].reason == Decision(r.value.1)
    ensures r.Some? ==> forall k :: r.value.0 < k < |trail| ==> trail[k].reason.UnitProp?
    ensures r.None? <==> forall k :: 0 <= k < |trail| ==> trail[k].reason.UnitProp?
  {
    if trail == [] then None
    else
      var last := |trail| - 1;
      match trail[last].reason
      case Decision(snapshot) => Some((last, snapshot))
      case UnitProp(_) =>
        var r := LastDecision(trail[..last]);
        assert forall k :: 0 <= k < last ==> trail[..last][k] == trail[k];
        r
  }

  // ---------------------------------------------------------------------------
  // pure_literal_eliminate and unit_propagate, as functions of the state
  // ---------------------------------------------------------------------------

  /**
   * The decisions pure_literal_eliminate pushes for variables 1..i, in
   * increasing order; each snapshot is the assignment just before it.
   */
  function PureTrail(cs: seq<Clause>, a: Assignment, i: nat): seq<TrailElement>
  {
    if i == 0 then [] else PureTrail(cs, a, i - 1) + PureStep(cs, a, i)
  }

  function PureStep(cs: seq<Clause>, a: Assignment, i: nat): seq<TrailElement>
    requires i >= 1
  {
    match PureValue(cs, i)
    case None => []
    case Some(b) => [TrailElement(Lit(i, b), Decision(a + PureAssignment(cs, i - 1)))]
  }

  /** One round of pure_literal_eliminate's loop, on the assignment and on the trail. */
  lemma PureTrailStep(cs: seq<Clause>, a: Assignment, i: nat, t0: seq<TrailElement>, pv: Option<bool>)
    requires pv == PureValue(cs, i + 1)
    ensures a + PureAssignment(cs, i + 1) ==
      if pv.Some? then (a + PureAssignment(cs, i))[i + 1 := pv.value] else a + PureAssignment(cs, i)
    ensures t0 + PureTrail(cs, a, i + 1) ==
      if pv.Some? then (t0 + PureTrail(cs, a, i)) + [TrailElement(Lit(i + 1, pv.value), Decision(a + PureAssignment(cs, i)))]
      else t0 + PureTrail(cs, a, i)
  {
    PureAssignmentStep(cs, a, i);
    AppendAssoc(t0, PureTrail(cs, a, i), PureStep(cs, a, i + 1));
  }

  /** pure_literal_eliminate only decides, and only pure variables of 1..i, each to its sole polarity. */
  lemma {:induction false} PureTrailDecisions(cs: seq<Clause>, a: Assignment, i: nat)
    ensures forall e :: e in PureTrail(cs, a, i) ==>
      e.reason.Decision? && 1 <= e.lit.v <= i && PureValue(cs, e.lit.v) == Some(e.lit.value)
  {
    if i > 0 {
      PureTrailDecisions(cs, a, i - 1);
      var prev, step := PureTrail(cs, a, i - 1), PureStep(cs, a, i);
      assert PureTrail(cs, a, i) == prev + step;
      forall e: TrailElement | e in prev + step
        ensures e.reason.Decision? && 1 <= e.lit.v <= i && PureValue(cs, e.lit.v) == Some(e.lit.value)
      {
        if e !in prev {
          assert e in step;
        }
      }
    }
  }

  /** Every pure variable of 1..i is decided, with the assignment before it as snapshot. */
  lemma {:induction false} PureTrailComplete(cs: seq<Clause>, a: Assignment, i: nat)
    ensures forall v :: 1 <= v <= i && PureValue(cs, v).Some? ==>
      TrailElement(Lit(v, PureValue(cs, v).value), Decision(a + PureAssignment(cs, v - 1))) in PureTrail(cs, a, i)
  {
    if i > 0 {
      PureTrailComplete(cs, a, i - 1);
      var prev := PureTrail(cs, a, i - 1);
      assert PureTrail(cs, a, i) == prev + PureStep(cs, a, i);
      forall v | 1 <= v <= i && PureValue(cs, v).Some?
        ensures TrailElement(Lit(v, PureValue(cs, v).value), Decision(a + PureAssignment(cs, v - 1))) in PureTrail(cs, a, i)
      {
        var x := TrailElement(Lit(v, PureValue(cs, v).value), Decision(a + PureAssignment(cs, v - 1)));
        if v < i {
          assert x in prev;
        } else {
          assert PureStep(cs, a, i) == [x];
        }
      }
    }
  }

  /** The decisions come in increasing variable order. */
  lemma {:induction false} PureTrailIncreasing(cs: seq<Clause>, a: Assignment, i: nat)
    ensures forall j, k :: 0 <= j < k < |PureTrail(cs, a, i)| ==>
      PureTrail(cs, a, i)[j].lit.v < PureTrail(cs, a, i)[k].lit.v
  {
    if i > 0 {
      PureTrailIncreasing(cs, a, i - 1);
      PureTrailDecisions(cs, a, i - 1);
      var prev := PureTrail(cs, a, i - 1);
      var t := PureTrail(cs, a, i);
      forall j, k | 0 <= j < k < |t| ensures t[j].lit.v < t[k].lit.v {
        if k < |prev| {
          assert t[j] == prev[j] && t[k] == prev[k];
        } else {
          assert t[j] == prev[j] && prev[j] in prev;
          assert t[k].lit.v == i;
        }
      }
    }
  }

  /**
   * The effect of unit_propagate: while the status is Unassigned and some
   * clause has a unit literal, assign the first such literal with its clause
   * as reason. Returns the final assignment and the trail elements pushed.
   * Every step assigns a variable of the formula that was unassigned.
   */
  function Propagate(cs: seq<Clause>, a: Assignment): (r: (Assignment, seq<TrailElement>))
    ensures Extends(r.0, a)
    decreases Vars(cs) - a.Keys
  {
    if !StatusOf(cs, a).Unassigned? then (a, [])
    else match FirstUnitClause(cs, a)
      case None => (a, [])
      case Some((c, l)) =>
        assert l.v in Vars(cs) - a.Keys;
        var rest := Propagate(cs, a[l.v := l.value]);
        (rest.0, [TrailElement(l, UnitProp(c))] + rest.1)
  }

  /**
   * Progress of the unit_propagate loop: from `a0`, the elements `pushed`
   * have been appended and `a` has been reached.
   */
  predicate PropagatedSoFar(cs: seq<Clause>, a0: Assignment, a: Assignment, pushed: seq<TrailElement>)
  {
    Propagate(cs, a0).0 == Propagate(cs, a).0 && Propagate(cs, a0).1 == pushed + Propagate(cs, a).1
  }

  lemma PropagateStep(cs: seq<Clause>, a: Assignment, c: Clause, l: Lit)
    requires StatusOf(cs, a).Unassigned? && FirstUnitClause(cs, a) == Some((c, l))
    ensures Propagate(cs, a).0 == Propagate(cs, a[l.v := l.value]).0
    ensures Propagate(cs, a).1 == [TrailElement(l, UnitProp(c))] + Propagate(cs, a[l.v := l.value]).1
  {
  }

  lemma PropagateUnfold(cs: seq<Clause>, a0: Assignment, a: Assignment, pushed: seq<TrailElement>, c: Clause, l: Lit)
    requires PropagatedSoFar(cs, a0, a, pushed)
    requires StatusOf(cs, a).Unassigned? && FirstUnitClause(cs, a) == Some((c, l))
    ensures PropagatedSoFar(cs, a0, a[l.v := l.value], pushed + [TrailElement(l, UnitProp(c))])
    ensures l.v in Vars(cs) - a.Keys
  {
    assert c in cs && l in c.literals;
    PropagateStep(cs, a, c, l);
    AppendAssoc(pushed, [TrailElement(l, UnitProp(c))], Propagate(cs, a[l.v := l.value]).1);
  }

  lemma PropagateStop(cs: seq<Clause>, a: Assignment)
    requires !StatusOf(cs, a).Unassigned? || FirstUnitClause(cs, a).None?
    ensures Propagate(cs, a) == (a, [])
  {
  }

  lemma PropagateDone(cs: seq<Clause>, a0: Assignment, a: Assignment, pushed: seq<TrailElement>)
    requires PropagatedSoFar(cs, a0, a, pushed)
    requires !StatusOf(cs, a).Unassigned? || FirstUnitClause(cs, a).None?
    ensures Propagate(cs, a0) == (a, pushed)
  {
    PropagateStop(cs, a);
    assert pushed + [] == pushed;
  }

  /**
   * unit_propagate stops where the status is not Unassigned or no clause has
   * a unit literal left.
   */
  lemma {:induction false} PropagateStops(cs: seq<Clause>, a: Assignment)
    ensures var b := Propagate(cs, a).0;
      !StatusOf(cs, b).Unassigned? || FirstUnitClause(cs, b).None?
    decreases Vars(cs) - a.Keys
  {
    if StatusOf(cs, a).Unassigned? && FirstUnitClause(cs, a).Some? {
      var l := FirstUnitClause(cs, a).value.1;
      assert l.v in Vars(cs) - a.Keys;
      PropagateStops(cs, a[l.v := l.value]);
    }
  }

  /** The assignment `a` with the literals of `t` assigned, first to last. */
  function AssignAll(a: Assignment, t: seq<TrailElement>): Assignment
    decreases t
  {
    if t == [] then a else AssignAll(a[t[0].lit.v := t[0].lit.value], t[1..])
  }

  /**
   * Every element unit_propagate pushes is justified: its reason is a clause
   * of the formula that contains its literal, and the literal is true in the
   * final assignment. Moreover the i-th pushed literal is the unit literal of
   * its reason clause in the assignment reached just before it, that is, `a`
   * with the first i pushed literals assigned.
   */
  lemma {:induction false} PropagateJustified(cs: seq<Clause>, a: Assignment)
    ensures forall e :: e in Propagate(cs, a).1 ==>
      e.reason.UnitProp? && e.reason.clause in cs && e.lit in e.reason.clause.literals && IsTrue(Propagate(cs, a).0, e.lit)
    ensures var t := Propagate(cs, a).1;
      forall i :: 0 <= i < |t| ==> UnitLiteral(t[i].reason.clause, AssignAll(a, t[..i])) == Some(t[i].lit)
    decreases Vars(cs) - a.Keys
  {
    PropagateInOrder(cs, a);
    if StatusOf(cs, a).Unassigned? && FirstUnitClause(cs, a).Some? {
      var l := FirstUnitClause(cs, a).value.1;
      assert l.v in Vars(cs) - a.Keys;
      PropagateJustified(cs, a[l.v := l.value]);
    }
  }

  lemma {:induction false} PropagateInOrder(cs: seq<Clause>, a: Assignment)
    ensures var t := Propagate(cs, a).1;
      forall i :: 0 <= i < |t| ==> t[i].reason.UnitProp? && UnitLiteral(t[i].reason.clause, AssignAll(a, t[..i])) == Some(t[i].lit)
    decreases Vars(cs) - a.Keys
  {
    if StatusOf(cs, a).Unassigned? && FirstUnitClause(cs, a).Some? {
      var (c, l) := FirstUnitClause(cs, a).value;
      var a' := a[l.v := l.value];
      assert l.v in Vars(cs) - a.Keys;
      PropagateInOrder(cs, a');
      PropagateStep(cs, a, c, l);
      PushedInOrder(a, a', TrailElement(l, UnitProp(c)), Propagate(cs, a').1);
    } else {
      PropagateStop(cs, a);
    }
  }

  /** Putting a unit step in front of a trail that is in order keeps it in order. */
  lemma PushedInOrder(a: Assignment, a': Assignment, e: TrailElement, rest: seq<TrailElement>)
    requires a' == a[e.lit.v := e.lit.value]
    requires e.reason.UnitProp? && UnitLiteral(e.reason.clause, a) == Some(e.lit)
    requires forall i :: 0 <= i < |rest| ==> rest[i].reason.UnitProp? && UnitLiteral(rest[i].reason.clause, AssignAll(a', rest[..i])) == Some(rest[i].lit)
    ensures var t := [e] + rest;
      forall i :: 0 <= i < |t| ==> t[i].reason.UnitProp? && UnitLiteral(t[i].reason.clause, AssignAll(a, t[..i])) == Some(t[i].lit)
  {
    var t := [e] + rest;
    forall i | 0 <= i < |t|
      ensures t[i].reason.UnitProp? && UnitLiteral(t[i].reason.clause, AssignAll(a, t[..i])) == Some(t[i].lit)
    {
      if i == 0 {
        assert t[..0] == [];
      } else {
        assert t[..i][0] == e && t[..i][1..] == rest[..i - 1];
        assert t[i] == rest[i - 1];
      }
    }
  }

  /** A unit literal is true in every model that extends the assignment. */
  lemma UnitLiteralForced(c: Clause, a: Assignment, t: Assignment)
    requires UnitLiteral(c, a).Some?
    requires Extends(t, a) && ClauseSatisfied(c, t)
    ensures IsTrue(t, UnitLiteral(c, a).value)
  {
    var l := UnitLiteral(c, a).value;
    UnitLiteralIff(c, a, l);
    var k :| 0 <= k < |c.literals| && c.literals[k] == l && l.v !in a &&
      forall j :: 0 <= j < |c.literals| && j != k ==> IsFalse(a, c.literals[j]);
    var m :| m in c.literals && IsTrue(t, m);
    assert !IsFalse(a, m);
    var j :| 0 <= j < |c.literals| && c.literals[j] == m;
    assert j == k;
  }

  /**
   * unit_propagate loses no model: every model of the formula that extends
   * the assignment also extends the propagated one.
   */
  lemma {:induction false} PropagateKeepsModels(cs: seq<Clause>, a: Assignment, t: Assignment)
    requires Extends(t, a) && AllSatisfied(cs, t)
    ensures Extends(t, Propagate(cs, a).0)
    decreases Vars(cs) - a.Keys
  {
    if StatusOf(cs, a).Unassigned? && FirstUnitClause(cs, a).Some? {
      var (c, l) := FirstUnitClause(cs, a).value;
      UnitLiteralForced(c, a, t);
      assert l.v in Vars(cs) - a.Keys;
      PropagateKeepsModels(cs, a[l.v := l.value], t);
    }
  }

  // ---------------------------------------------------------------------------
  // The state
  // ---------------------------------------------------------------------------

  class SolverState {
    var numVars: nat
    var clauses: seq<Clause>
    var assignment: Assignment
    var trail: seq<TrailElement>

    /** from_cnf: the formula, the blank assignment and an empty trail. */
    constructor FromCnf(cnf: CnfFormula)
      ensures numVars == cnf.numVars && clauses == cnf.clauses
      ensures assignment == map[] && trail == []
    {
      numVars := cnf.numVars;
      clauses := cnf.clauses;
      assignment := map[];
      trail := [];
    }

    /** clone */
    constructor Copy(s: SolverState)
      ensures numVars == s.numVars && clauses == s.clauses
      ensures assignment == s.assignment && trail == s.trail
    {
      numVars := s.numVars;
      clauses := s.clauses;
      assignment := s.assignment;
      trail := s.trail;
    }

    method GetStatusOf() returns (st: Status)
      ensures st == StatusOf(clauses, assignment)
    {
      st := GetStatus(clauses, assignment);
    }

    /** decide: push a decision with the current assignment as snapshot, then set the variable. */
    method Decide(v: nat, value: bool)
      modifies this
      ensures trail == old(trail) + [TrailElement(Lit(v, value), Decision(old(assignment)))]
      ensures assignment == old(assignment)[v := value]
      ensures numVars == old(numVars) && clauses == old(clauses)
    {
      trail := trail + [TrailElement(Lit(v, value), Decision(assignment))];
      assignment := assignment[v := value];
    }

    /** assign_unitprop: push the literal with its reason clause, then set the variable. */
    method AssignUnitprop(v: nat, value: bool, clause: Clause)
      modifies this
      ensures trail == old(trail) + [TrailElement(Lit(v, value), UnitProp(clause))]
      ensures assignment == old(assignment)[v := value]
      ensures numVars == old(numVars) && clauses == old(clauses)
    {
      trail := trail + [TrailElement(Lit(v, value), UnitProp(clause))];
      assignment := assignment[v := value];
    }

    /** learn_clause: append one clause at the end; nothing else changes. */
    method LearnClause(lits: seq<Lit>)
      modifies this
      ensures clauses == old(clauses) + [Clause(lits)]
      ensures numVars == old(numVars) && assignment == old(assignment) && trail == old(trail)
    {
      clauses := clauses + [Clause(lits)];
    }

    /**
     * pure_literal_eliminate: the polarity scan, then one decision per pure
     * variable in increasing order. The assignment gains exactly the pure
     * values and the trail exactly the pure decisions.
     */
    method PureLiteralEliminate()
      requires forall c, l :: c in clauses && l in c.literals ==> 1 <= l.v <= numVars
      modifies this
      ensures numVars == old(numVars) && clauses == old(clauses)
      ensures assignment == old(assignment) + PureAssignment(clauses, numVars)
      ensures trail == old(trail) + PureTrail(clauses, old(assignment), numVars)
    {
      var seenPos, seenNeg := SeenPolarities(clauses, numVars);
      DecidePure(seenPos[..], seenNeg[..]);
    }

    /** The decision loop of pure_literal_eliminate, over the collected polarities. */
    method DecidePure(pos: seq<bool>, neg: seq<bool>)
      requires |pos| == numVars && |neg| == numVars
      requires forall i :: 0 <= i < numVars ==> (pos[i] <==> Occurs(clauses, Lit(i + 1, true)))
      requires forall i :: 0 <= i < numVars ==> (neg[i] <==> Occurs(clauses, Lit(i + 1, false)))
      modifies this
      ensures numVars == old(numVars) && clauses == old(clauses)
      ensures assignment == old(assignment) + PureAssignment(clauses, numVars)
      ensures trail == old(trail) + PureTrail(clauses, old(assignment), numVars)
    {
      var a0, t0, cs, n := assignment, trail, clauses, numVars;
      PureAssignmentEmpty(cs, a0);
      assert PureTrail(cs, a0, 0) == [];
      assert trail == t0 + [];
      for i := 0 to n
        invariant numVars == n && clauses == cs
        invariant PureDecided(a0, t0, i)
      {
        DecidePureStep(i, pos[i], neg[i], a0, t0);
      }
    }

    /** Variables 1..i are done: starting from assignment a0 and trail t0, exactly their pure decisions were made. */
    ghost predicate PureDecided(a0: Assignment, t0: seq<TrailElement>, i: nat)
      reads this
    {
      assignment == a0 + PureAssignment(clauses, i) && trail == t0 + PureTrail(clauses, a0, i)
    }

    /** One round of the decision loop: decide variable i + 1 if it is pure. */
    method DecidePureStep(i: nat, p: bool, n: bool, ghost a0: Assignment, ghost t0: seq<TrailElement>)
      requires (p <==> Occurs(clauses, Lit(i + 1, true))) && (n <==> Occurs(clauses, Lit(i + 1, false)))
      requires PureDecided(a0, t0, i)
      modifies this
      ensures numVars == old(numVars) && clauses == old(clauses)
      ensures PureDecided(a0, t0, i + 1)
    {
      var pv := if p && !n then Some(true) else if !p && n then Some(false) else None;
      assert pv == PureValue(clauses, i + 1);
      PureTrailStep(clauses, a0, i, t0, pv);
      if pv.Some? {
        Decide(i + 1, pv.value);
      }
    }

    /** get_unit_literal of the state, with the find_map over clauses. */
    method GetUnitClause() returns (r: Option<(Clause, Lit)>)
      ensures r == FirstUnitClause(clauses, assignment)
    {
      var j := 0;
      while j < |clauses|
        invariant 0 <= j <= |clauses|
        invariant FirstUnitClause(clauses[j..], assignment) == FirstUnitClause(clauses, assignment)
      {
        var lit := GetUnitLiteral(clauses[j], assignment);
        assert clauses[j..][1..] == clauses[j + 1..];
        if lit.Some? {
          return Some((clauses[j], lit.value));
        }
        j := j + 1;
      }
      r := None;
    }

    /**
     * unit_propagate: while the status is Unassigned and a unit literal
     * exists, assign it with its clause as reason.
     */
    method UnitPropagate()
      modifies this
      ensures numVars == old(numVars) && clauses == old(clauses)
      ensures assignment == Propagate(clauses, old(assignment)).0
      ensures trail == old(trail) + Propagate(clauses, old(assignment)).1
    {
      var cs, a0, t0 := clauses, assignment, trail;
      var pushed: seq<TrailElement> := [];
      while true
        invariant numVars == old(numVars) && clauses == cs
        invariant trail == t0 + pushed
        invariant PropagatedSoFar(cs, a0, assignment, pushed)
        decreases Vars(cs) - assignment.Keys
      {
        var st := GetStatusOf();
        if !st.Unassigned? {
          PropagateDone(cs, a0, assignment, pushed);
          break;
        }
        var unit := GetUnitClause();
        if unit.None? {
          PropagateDone(cs, a0, assignment, pushed);
          break;
        }
        var (clause, lit) := unit.value;
        PropagateUnfold(cs, a0, assignment, pushed, clause, lit);
        var e := TrailElement(lit, UnitProp(clause));
        AppendAssoc(t0, pushed, [e]);
        AssignUnitprop(lit.v, lit.value, clause);
        pushed := pushed + [e];
      }
    }
  }

  /**
   * branch_on_variable: a copy of the state decides `v` True, the state
   * itself decides `v` False.
   */
  method BranchOnVariable(state: SolverState, v: nat) returns (tstate: SolverState, fstate: SolverState)
    modifies state
    ensures fresh(tstate) && fstate == state
    ensures tstate.numVars == old(state.numVars) && tstate.clauses == old(state.clauses)
    ensures tstate.assignment == old(state.assignment)[v := true]
    ensures tstate.trail == old(state.trail) + [TrailElement(Lit(v, true), Decision(old(state.assignment)))]
    ensures fstate.numVars == old(state.numVars) && fstate.clauses == old(state.clauses)
    ensures fstate.assignment == old(state.assignment)[v := false]
    ensures fstate.trail == old(state.trail) + [TrailElement(Lit(v, false), Decision(old(state.assignment)))]
  {
    tstate := new SolverState.Copy(state);
    tstate.Decide(v, true);
    fstate := state;
    fstate.Decide(v, false);
  }

  // ---------------------------------------------------------------------------
  // The unit tests of solver_state
  // ---------------------------------------------------------------------------

  /** get_unit_literal of a two-literal clause. */
  lemma UnitPair(l0: Lit, l1: Lit, a: Assignment)
    ensures UnitLiteral(Clause([l0, l1]), a) ==
      if IsTrue(a, l0) || IsTrue(a, l1) then None
      else if l0.v in a && l1.v !in a then Some(l1)
      else if l0.v !in a && l1.v in a then Some(l0)
      else None
  {
    UnassignedPair(l0, l1, a);
    assert forall l :: l in [l0, l1] <==> l == l0 || l == l1;
  }

  /** get_unit_literal of a one-literal clause. */
  lemma UnitSingle(l0: Lit, a: Assignment)
    ensures UnitLiteral(Clause([l0]), a) == if l0.v in a then None else Some(l0)
  {
    UnassignedSingle1(l0, a);
    assert forall l :: l in [l0] <==> l == l0;
  }

  lemma UnassignedPair(l0: Lit, l1: Lit, a: Assignment)
    ensures Solver.Unassigned([l0, l1], a) == (if l0.v in a then [] else [l0]) + (if l1.v in a then [] else [l1])
  {
    assert [l0, l1][1..] == [l1];
    assert [l1][1..] == [];
  }

  lemma UnassignedSingle1(l0: Lit, a: Assignment)
    ensures Solver.Unassigned([l0], a) == (if l0.v in a then [] else [l0])
  {
    assert [l0][1..] == [];
  }

  /** The first unit clause of a four-clause formula. */
  lemma FirstUnit4(c0: Clause, c1: Clause, c2: Clause, c3: Clause, a: Assignment)
    ensures FirstUnitClause([c0, c1, c2, c3], a) ==
      if UnitLiteral(c0, a).Some? then Some((c0, UnitLiteral(c0, a).value))
      else if UnitLiteral(c1, a).Some? then Some((c1, UnitLiteral(c1, a).value))
      else if UnitLiteral(c2, a).Some? then Some((c2, UnitLiteral(c2, a).value))
      else if UnitLiteral(c3, a).Some? then Some((c3, UnitLiteral(c3, a).value))
      else None
  {
    FirstUnitCons(c0, [c1, c2, c3], a);
    FirstUnitCons(c1, [c2, c3], a);
    FirstUnitCons(c2, [c3], a);
    FirstUnitCons(c3, [], a);
    assert [c0] + [c1, c2, c3] == [c0, c1, c2, c3] && [c1] + [c2, c3] == [c1, c2, c3];
    assert [c2] + [c3] == [c2, c3] && [c3] + [] == [c3];
  }

  lemma FirstUnitCons(c: Clause, cs: seq<Clause>, a: Assignment)
    ensures FirstUnitClause([c] + cs, a) ==
      if UnitLiteral(c, a).Some? then Some((c, UnitLiteral(c, a).value)) else FirstUnitClause(cs, a)
  {
    assert ([c] + cs)[0] == c && ([c] + cs)[1..] == cs;
  }

  /**
   * test_ucp: on (x1 ∨ x2) ∧ (¬x1 ∨ ¬x2) ∧ (x1) ∧ (x3 ∨ x4), unit_propagate
   * from the empty assignment pushes x1 with reason (x1), then ¬x2 with
   * reason (¬x1 ∨ ¬x2), and leaves (x3 ∨ x4) as the only equivalent clause.
   */
  lemma UcpExample(cs: seq<Clause>)
    requires cs == [Clause([Lit(1, true), Lit(2, true)]), Clause([Lit(1, false), Lit(2, false)]),
                    Clause([Lit(1, true)]), Clause([Lit(3, true), Lit(4, true)])]
    ensures Propagate(cs, map[]).1 ==
      [TrailElement(Lit(1, true), UnitProp(Clause([Lit(1, true)]))),
       TrailElement(Lit(2, false), UnitProp(Clause([Lit(1, false), Lit(2, false)])))]
    ensures EquivalentClauses(cs, Propagate(cs, map[]).0) == [Clause([Lit(3, true), Lit(4, true)])]
  {
    UcpFirstStep(cs, map[]);
    UcpSecondStep(cs, map[1 := true]);
    UcpLastStep(cs, map[1 := true, 2 := false]);
    PropagateTwice(cs, map[], cs[2], Lit(1, true), cs[1], Lit(2, false));
  }

  /** Two unit steps and then a stop. */
  lemma PropagateTwice(cs: seq<Clause>, a: Assignment, c1: Clause, l1: Lit, c2: Clause, l2: Lit)
    requires StatusOf(cs, a).Unassigned? && FirstUnitClause(cs, a) == Some((c1, l1))
    requires var a1 := a[l1.v := l1.value];
      StatusOf(cs, a1).Unassigned? && FirstUnitClause(cs, a1) == Some((c2, l2)) &&
      FirstUnitClause(cs, a1[l2.v := l2.value]) == None
    ensures Propagate(cs, a).0 == a[l1.v := l1.value][l2.v := l2.value]
    ensures Propagate(cs, a).1 == [TrailElement(l1, UnitProp(c1)), TrailElement(l2, UnitProp(c2))]
  {
    PropagateLast(cs, a[l1.v := l1.value], c2, l2);
    PropagateStep(cs, a, c1, l1);
  }

  /** One unit step and then a stop. */
  lemma PropagateLast(cs: seq<Clause>, a: Assignment, c: Clause, l: Lit)
    requires StatusOf(cs, a).Unassigned? && FirstUnitClause(cs, a) == Some((c, l))
    requires FirstUnitClause(cs, a[l.v := l.value]) == None
    ensures Propagate(cs, a).0 == a[l.v := l.value]
    ensures Propagate(cs, a).1 == [TrailElement(l, UnitProp(c))]
  {
    PropagateStop(cs, a[l.v := l.value]);
    PropagateStep(cs, a, c, l);
    assert [TrailElement(l, UnitProp(c))] + [] == [TrailElement(l, UnitProp(c))];
  }

  lemma UcpFirstStep(cs: seq<Clause>, a0: Assignment)
    requires cs == [Clause([Lit(1, true), Lit(2, true)]), Clause([Lit(1, false), Lit(2, false)]),
                    Clause([Lit(1, true)]), Clause([Lit(3, true), Lit(4, true)])]
    requires a0 == map[]
    ensures StatusOf(cs, a0).Unassigned? && FirstUnitClause(cs, a0) == Some((cs[2], Lit(1, true)))
  {
    UnitPair(Lit(1, true), Lit(2, true), a0);
    UnitPair(Lit(1, false), Lit(2, false), a0);
    UnitSingle(Lit(1, true), a0);
    FirstUnit4(cs[0], cs[1], cs[2], cs[3], a0);
    UnassignedPair(Lit(1, true), Lit(2, true), a0);
  }

  lemma UcpSecondStep(cs: seq<Clause>, a1: Assignment)
    requires cs == [Clause([Lit(1, true), Lit(2, true)]), Clause([Lit(1, false), Lit(2, false)]),
                    Clause([Lit(1, true)]), Clause([Lit(3, true), Lit(4, true)])]
    requires a1 == map[1 := true]
    ensures StatusOf(cs, a1).Unassigned? && FirstUnitClause(cs, a1) == Some((cs[1], Lit(2, false)))
  {
    UnitPair(Lit(1, true), Lit(2, true), a1);
    UnitPair(Lit(1, false), Lit(2, false), a1);
    FirstUnit4(cs[0], cs[1], cs[2], cs[3], a1);
    assert ClauseSatisfied(cs[0], a1) by { assert cs[0].literals[0] == Lit(1, true); }
    assert cs[1..] == [cs[1], cs[2], cs[3]];
    assert !ClauseSatisfied(cs[1], a1);
    UnassignedPair(Lit(1, false), Lit(2, false), a1);
  }

  lemma UcpLastStep(cs: seq<Clause>, a2: Assignment)
    requires cs == [Clause([Lit(1, true), Lit(2, true)]), Clause([Lit(1, false), Lit(2, false)]),
                    Clause([Lit(1, true)]), Clause([Lit(3, true), Lit(4, true)])]
    requires a2 == map[1 := true, 2 := false]
    ensures FirstUnitClause(cs, a2) == None
    ensures EquivalentClauses(cs, a2) == [Clause([Lit(3, true), Lit(4, true)])]
  {
    UnitPair(Lit(1, true), Lit(2, true), a2);
    UnitPair(Lit(1, false), Lit(2, false), a2);
    UnitSingle(Lit(1, true), a2);
    UnitPair(Lit(3, true), Lit(4, true), a2);
    FirstUnit4(cs[0], cs[1], cs[2], cs[3], a2);
    assert ClauseSatisfied(cs[0], a2) by { assert cs[0].literals[0] == Lit(1, true); }
    assert ClauseSatisfied(cs[1], a2) by { assert cs[1].literals[1] == Lit(2, false); }
    assert ClauseSatisfied(cs[2], a2) by { assert cs[2].literals[0] == Lit(1, true); }
    assert !ClauseSatisfied(cs[3], a2);
    UnassignedPair(Lit(3, true), Lit(4, true), a2);
    assert 3 !in a2 && 4 !in a2;
    assert [Lit(3, true)] + [Lit(4, true)] == [Lit(3, true), Lit(4, true)];
    assert EquivalentClause(cs[3], a2) == Some([Lit(3, true), Lit(4, true)]);
    assert cs[1..] == [cs[1], cs[2], cs[3]] && cs[1..][1..] == [cs[2], cs[3]];
    assert cs[1..][1..][1..] == [cs[3]] && cs[1..][1..][1..][1..] == [];
    assert EquivalentClauses([cs[3]], a2) == [Clause([Lit(3, true), Lit(4, true)])];
    assert EquivalentClauses([cs[2], cs[3]], a2) == [Clause([Lit(3, true), Lit(4, true)])];
    assert EquivalentClauses([cs[1], cs[2], cs[3]], a2) == [Clause([Lit(3, true), Lit(4, true)])];
  }

  /**
   * test_ple: on (x1 ∨ x2) ∧ (x1 ∨ ¬x2) ∧ (x3 ∨ x4) ∧ (x3 ∨ ¬x4) ∧ (¬x3),
   * only x1 is pure, so pure_literal_eliminate from the empty assignment sets
   * x1 True and the last three clauses are left as they are.
   */
  lemma PleExample(cs: seq<Clause>)
    requires cs == [Clause([Lit(1, true), Lit(2, true)]), Clause([Lit(1, true), Lit(2, false)]),
                    Clause([Lit(3, true), Lit(4, true)]), Clause([Lit(3, true), Lit(4, false)]),
                    Clause([Lit(3, false)])]
    ensures map[] + PureAssignment(cs, 5) == map[1 := true]
    ensures EquivalentClauses(cs, map[] + PureAssignment(cs, 5)) == cs[2..]
  {
    PlePure(cs);
    assert map[] + map[1 := true] == map[1 := true];
    PleReduced(cs, map[1 := true]);
  }

  lemma PlePure(cs: seq<Clause>)
    requires cs == [Clause([Lit(1, true), Lit(2, true)]), Clause([Lit(1, true), Lit(2, false)]),
                    Clause([Lit(3, true), Lit(4, true)]), Clause([Lit(3, true), Lit(4, false)]),
                    Clause([Lit(3, false)])]
    ensures PureAssignment(cs, 5) == map[1 := true]
  {
    PleOccurs(cs);
    PureOnlyFirst(cs);
  }

  /** With x1 only positive, x2..x4 in both polarities and x5 absent, the pure assignment of 1..5 sets x1 alone. */
  lemma PureOnlyFirst(cs: seq<Clause>)
    requires Occurs(cs, Lit(1, true)) && !Occurs(cs, Lit(1, false))
    requires Occurs(cs, Lit(2, true)) && Occurs(cs, Lit(2, false))
    requires Occurs(cs, Lit(3, true)) && Occurs(cs, Lit(3, false))
    requires Occurs(cs, Lit(4, true)) && Occurs(cs, Lit(4, false))
    requires !Occurs(cs, Lit(5, true)) && !Occurs(cs, Lit(5, false))
    ensures PureAssignment(cs, 5) == map[1 := true]
  {
    var r := PureAssignment(cs, 5);
    assert r.Keys == {1};
  }

  /** Which literals occur in the test_ple formula. */
  lemma PleOccurs(cs: seq<Clause>)
    requires cs == [Clause([Lit(1, true), Lit(2, true)]), Clause([Lit(1, true), Lit(2, false)]),
                    Clause([Lit(3, true), Lit(4, true)]), Clause([Lit(3, true), Lit(4, false)]),
                    Clause([Lit(3, false)])]
    ensures Occurs(cs, Lit(1, true)) && !Occurs(cs, Lit(1, false))
    ensures Occurs(cs, Lit(2, true)) && Occurs(cs, Lit(2, false))
    ensures Occurs(cs, Lit(3, true)) && Occurs(cs, Lit(3, false))
    ensures Occurs(cs, Lit(4, true)) && Occurs(cs, Lit(4, false))
    ensures !Occurs(cs, Lit(5, true)) && !Occurs(cs, Lit(5, false))
  {
    assert cs[0].literals[0] == Lit(1, true) && cs[0].literals[1] == Lit(2, true) && cs[1].literals[1] == Lit(2, false);
    assert cs[2].literals[0] == Lit(3, true) && cs[2].literals[1] == Lit(4, true);
    assert cs[3].literals[1] == Lit(4, false) && cs[4].literals[0] == Lit(3, false);
    assert cs[0] in cs && cs[1] in cs && cs[2] in cs && cs[3] in cs && cs[4] in cs;
    NotOccurs(cs);
  }

  /** x1 occurs only positively, and x5 not at all, in the test_ple formula. */
  lemma NotOccurs(cs: seq<Clause>)
    requires cs == [Clause([Lit(1, true), Lit(2, true)]), Clause([Lit(1, true), Lit(2, false)]),
                    Clause([Lit(3, true), Lit(4, true)]), Clause([Lit(3, true), Lit(4, false)]),
                    Clause([Lit(3, false)])]
    ensures !Occurs(cs, Lit(1, false)) && !Occurs(cs, Lit(5, true)) && !Occurs(cs, Lit(5, false))
  {
    forall c | c in cs
      ensures forall l :: l in c.literals ==> l.v <= 4 && (l.v == 1 ==> l.value)
    {
      var i :| 0 <= i < 5 && cs[i] == c;
    }
  }

  lemma PleReduced(cs: seq<Clause>, a: Assignment)
    requires cs == [Clause([Lit(1, true), Lit(2, true)]), Clause([Lit(1, true), Lit(2, false)]),
                    Clause([Lit(3, true), Lit(4, true)]), Clause([Lit(3, true), Lit(4, false)]),
                    Clause([Lit(3, false)])]
    requires a == map[1 := true]
    ensures EquivalentClauses(cs, a) == cs[2..]
  {
    assert Lit(1, true) in cs[0].literals && Lit(1, true) in cs[1].literals && IsTrue(a, Lit(1, true));
    assert cs[1..] == [cs[1], cs[2], cs[3], cs[4]] && cs[1..][1..] == cs[2..];
    PleKept(cs[2..], a);
  }

  /** The clauses of test_ple without x1 keep all their literals under x1 = True. */
  lemma PleKept(cs: seq<Clause>, a: Assignment)
    requires cs == [Clause([Lit(3, true), Lit(4, true)]), Clause([Lit(3, true), Lit(4, false)]), Clause([Lit(3, false)])]
    requires a == map[1 := true]
    ensures EquivalentClauses(cs, a) == cs
  {
    UnassignedPair(Lit(3, true), Lit(4, true), a);
    UnassignedPair(Lit(3, true), Lit(4, false), a);
    UnassignedSingle1(Lit(3, false), a);
    assert 3 !in a && 4 !in a;
    assert [Lit(3, true)] + [Lit(4, true)] == cs[0].literals;
    assert [Lit(3, true)] + [Lit(4, false)] == cs[1].literals;
    assert EquivalentClause(cs[0], a) == Some(cs[0].literals);
    assert EquivalentClause(cs[1], a) == Some(cs[1].literals);
    assert EquivalentClause(cs[2], a) == Some(cs[2].literals);
    assert cs[1..] == [cs[1], cs[2]] && cs[1..][1..] == [cs[2]] && cs[1..][1..][1..] == [];
    assert EquivalentClauses([cs[2]], a) == [cs[2]];
    assert EquivalentClauses([cs[1], cs[2]], a) == [cs[1], cs[2]];
  }
}
