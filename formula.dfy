/**
 * Literals, clauses, CNF formulas and partial assignments: the vocabulary that
 * every parser, simplifier and search procedure of the workbench shares.
 *
 * A variable is a positive index 1..numVars; a literal pairs a variable with
 * the value that makes the literal true; an assignment is a partial map from
 * variables to values.
 */
module Formula {

  datatype Option<+T> = None | Some(value: T)

  /** A literal: variable `v` and the value `value` that makes it true. */
  datatype Lit = Lit(v: nat, value: bool)

  datatype Clause = Clause(literals: seq<Lit>)

  datatype CnfFormula = CnfFormula(numVars: nat, clauses: seq<Clause>)

  /** A partial assignment: exactly the variables in its domain have a value. */
  type Assignment = map<nat, bool>

  /** The literal with the same variable and the opposite polarity. */
  function Not(l: Lit): Lit
  {
    Lit(l.v, !l.value)
  }

  /** The value of a literal under an assignment: Some(true), Some(false), or None if unassigned. */
  function LitValue(a: Assignment, l: Lit): Option<bool>
  {
    if l.v in a then Some(a[l.v] == l.value) else None
  }

  predicate IsTrue(a: Assignment, l: Lit)
  {
    l.v in a && a[l.v] == l.value
  }

  predicate IsFalse(a: Assignment, l: Lit)
  {
    l.v in a && a[l.v] != l.value
  }

  predicate ClauseSatisfied(c: Clause, a: Assignment)
  {
    exists l :: l in c.literals && IsTrue(a, l)
  }

  /** Every literal of the clause is false (an empty clause is falsified by every assignment). */
  predicate ClauseFalsified(c: Clause, a: Assignment)
  {
    forall l :: l in c.literals ==> IsFalse(a, l)
  }

  /**
   * check_assignment: every clause has a literal whose variable is assigned
   * the literal's value. Unassigned literals never count.
   */
  predicate CheckAssignment(f: CnfFormula, a: Assignment)
  {
    AllSatisfied(f.clauses, a)
  }

  predicate AllSatisfied(cs: seq<Clause>, a: Assignment)
  {
    forall c :: c in cs ==> ClauseSatisfied(c, a)
  }

  /** is_satisfied of a (simplified) clause list: no clause is left. */
  predicate IsSatisfied(cs: seq<Clause>)
  {
    cs == []
  }

  /** is_falsified of a (simplified) clause list: some clause has lost all its literals. */
  predicate IsFalsified(cs: seq<Clause>)
  {
    exists c :: c in cs && c.literals == []
  }

  /** `b` agrees with `a` on every variable `a` assigns. */
  predicate Extends(b: Assignment, a: Assignment)
  {
    forall v :: v in a ==> v in b && b[v] == a[v]
  }

  /** The variables 1..n. */
  function Domain(n: nat): (r: set<nat>)
    ensures forall v :: v in r <==> 1 <= v <= n
  {
    Range(1, n)
  }

  predicate Complete(a: Assignment, n: nat)
  {
    forall v :: 1 <= v <= n ==> v in a
  }

  /** Every variable that occurs in some clause. */
  function Vars(cs: seq<Clause>): set<nat>
  {
    set c, l | c in cs && l in c.literals :: l.v
  }

  /** Every literal of the formula names a variable in 1..numVars. */
  predicate WellFormed(f: CnfFormula)
  {
    forall c, l :: c in f.clauses && l in c.literals ==> 1 <= l.v <= f.numVars
  }

  predicate Occurs(cs: seq<Clause>, l: Lit)
  {
    exists c :: c in cs && l in c.literals
  }

  /**
   * fill_unassigned: every variable of 1..n left unassigned gets a value; the
   * assigned ones keep theirs. Which value the filler picks is not part of
   * this model; `false` is used.
   */
  function FillUnassigned(a: Assignment, n: nat): (r: Assignment)
    ensures Extends(r, a) && Complete(r, n)
    ensures r.Keys == a.Keys + Domain(n)
  {
    map v | v in a.Keys + Domain(n) :: if v in a then a[v] else false
  }

  /** A clause that some assignment satisfies stays satisfied under every extension of it. */
  lemma SatisfiedExtends(cs: seq<Clause>, a: Assignment, b: Assignment)
    requires AllSatisfied(cs, a) && Extends(b, a)
    ensures AllSatisfied(cs, b)
  {
    forall c | c in cs
      ensures ClauseSatisfied(c, b)
    {
      var l :| l in c.literals && IsTrue(a, l);
      assert IsTrue(b, l);
    }
  }

  /** A falsified clause stays falsified under every extension. */
  lemma FalsifiedExtends(c: Clause, a: Assignment, b: Assignment)
    requires ClauseFalsified(c, a) && Extends(b, a)
    ensures ClauseFalsified(c, b) && !ClauseSatisfied(c, b)
  {
    forall l | l in c.literals
      ensures IsFalse(b, l)
    {
      assert IsFalse(a, l);
    }
  }

  // ---------------------------------------------------------------------------
  // Enumeration of every total assignment (every_possible, and the cartesian
  // product over [False, True] per variable): variable 1 varies slowest and
  // False comes before True.
  // ---------------------------------------------------------------------------

  /**
   * get_unassigned_var: an unassigned variable of 1..n, or None when all of
   * them are assigned. The implementation is not part of this model; the
   * lowest such variable is the choice fixed here.
   */
  function FirstUnassigned(a: Assignment, n: nat): (r: Option<nat>)
    ensures r.Some? ==> 1 <= r.value <= n && r.value !in a
    ensures r.Some? ==> forall w :: 1 <= w < r.value ==> w in a
    ensures r.None? <==> Complete(a, n)
  {
    FirstUnassignedFrom(a, 1, n)
  }

  function FirstUnassignedFrom(a: Assignment, i: nat, n: nat): (r: Option<nat>)
    requires i >= 1
    requires forall w :: 1 <= w < i ==> w in a
    ensures r.Some? ==> i <= r.value <= n && r.value !in a
    ensures r.Some? ==> forall w :: 1 <= w < r.value ==> w in a
    ensures r.None? <==> Complete(a, n)
    decreases n + 1 - i
  {
    if i > n then None
    else if i !in a then Some(i)
    else FirstUnassignedFrom(a, i + 1, n)
  }

  /** The variables i..n. */
  function Range(i: nat, n: nat): (r: set<nat>)
    ensures forall v :: v in r <==> i <= v <= n
    decreases n + 1 - i
  {
    if i > n then {} else {i} + Range(i + 1, n)
  }

  function AllFrom(i: nat, n: nat): seq<Assignment>
    decreases n + 1 - i
  {
    if i > n then [map[]]
    else
      var rest := AllFrom(i + 1, n);
      seq(|rest|, k requires 0 <= k < |rest| => rest[k][i := false]) +
      seq(|rest|, k requires 0 <= k < |rest| => rest[k][i := true])
  }

  /** Every possible total assignment of the variables 1..n, in cartesian order. */
  function AllAssignments(n: nat): seq<Assignment>
  {
    AllFrom(1, n)
  }

  /** Each enumerated assignment assigns exactly the variables i..n. */
  lemma {:induction false} AllFromKeys(i: nat, n: nat, k: nat)
    requires k < |AllFrom(i, n)|
    ensures AllFrom(i, n)[k].Keys == Range(i, n)
    decreases n + 1 - i
  {
    if i > n {
      assert Range(i, n) == {};
    } else {
      var rest := AllFrom(i + 1, n);
      var j := if k < |rest| then k else k - |rest|;
      AllFromKeys(i + 1, n, j);
      assert Range(i, n) == Range(i + 1, n) + {i};
    }
  }

  /** Every assignment of exactly the variables i..n is enumerated. */
  lemma {:induction false} AllFromContains(i: nat, n: nat, t: Assignment)
    requires t.Keys == Range(i, n)
    ensures t in AllFrom(i, n)
    decreases n + 1 - i
  {
    if i > n {
      assert t.Keys == {};
      assert t == map[];
    } else {
      var rest := AllFrom(i + 1, n);
      assert i in t.Keys;
      var t' := t - {i};
      assert t'.Keys == Range(i + 1, n);
      AllFromContains(i + 1, n, t');
      var k :| 0 <= k < |rest| && rest[k] == t';
      assert t == t'[i := t[i]];
      if t[i] {
        assert AllFrom(i, n)[|rest| + k] == t;
      } else {
        assert AllFrom(i, n)[k] == t;
      }
    }
  }

  /** The enumeration is exactly the total assignments of 1..n. */
  lemma AllAssignmentsExact(n: nat, t: Assignment)
    ensures t in AllAssignments(n) <==> t.Keys == Domain(n)
  {
    assert Range(1, n) == Domain(n);
    if t in AllAssignments(n) {
      var k :| 0 <= k < |AllFrom(1, n)| && AllFrom(1, n)[k] == t;
      AllFromKeys(1, n, k);
    }
    if t.Keys == Domain(n) {
      AllFromContains(1, n, t);
    }
  }

  // ---------------------------------------------------------------------------
  // Pure literals (shared by the three pure_literal_eliminate revisions).
  // ---------------------------------------------------------------------------

  /**
   * The value a pure-literal pass gives variable v: True if v occurs only
   * positively, False if only negatively, nothing if it occurs in both
   * polarities or not at all.
   */
  function PureValue(cs: seq<Clause>, v: nat): Option<bool>
  {
    var pos := Occurs(cs, Lit(v, true));
    var neg := Occurs(cs, Lit(v, false));
    if pos && !neg then Some(true)
    else if !pos && neg then Some(false)
    else None
  }

  /** The assignment of every pure variable of 1..n to its sole polarity. */
  function PureAssignment(cs: seq<Clause>, n: nat): (r: Assignment)
    ensures r.Keys <= Domain(n)
    ensures forall v :: v in r <==> 1 <= v <= n && (Occurs(cs, Lit(v, true)) != Occurs(cs, Lit(v, false)))
    ensures forall v :: v in r ==> Occurs(cs, Lit(v, r[v])) && !Occurs(cs, Lit(v, !r[v]))
  {
    map v | v in Domain(n) && PureValue(cs, v).Some? :: PureValue(cs, v).value
  }

  /** The pure prefix of no variables is empty. */
  lemma PureAssignmentEmpty(cs: seq<Clause>, a: Assignment)
    ensures PureAssignment(cs, 0) == map[] && a + PureAssignment(cs, 0) == a
  {
    assert PureAssignment(cs, 0).Keys == {};
  }

  /** Extending the pure prefix 1..i by variable i + 1. */
  lemma PureAssignmentStep(cs: seq<Clause>, a: Assignment, i: nat)
    ensures PureAssignment(cs, i + 1) ==
      match PureValue(cs, i + 1)
      case None => PureAssignment(cs, i)
      case Some(b) => PureAssignment(cs, i)[i + 1 := b]
    ensures a + PureAssignment(cs, i + 1) ==
      match PureValue(cs, i + 1)
      case None => a + PureAssignment(cs, i)
      case Some(b) => (a + PureAssignment(cs, i))[i + 1 := b]
  {
  }

  /** One round of a pure-literal loop: `pv` is the pure value of variable i + 1, if any. */
  lemma PureAssignmentNext(cs: seq<Clause>, a: Assignment, i: nat, pv: Option<bool>)
    requires pv == PureValue(cs, i + 1)
    ensures a + PureAssignment(cs, i + 1) ==
      if pv.Some? then (a + PureAssignment(cs, i))[i + 1 := pv.value] else a + PureAssignment(cs, i)
  {
    PureAssignmentStep(cs, a, i);
  }

  /**
   * The pure-literal rule: overriding any model with the pure values keeps it
   * a model, because a clause that mentions a pure variable mentions it with
   * the pure polarity.
   */
  lemma PureOverrideKeepsModels(cs: seq<Clause>, t: Assignment, n: nat)
    requires AllSatisfied(cs, t)
    ensures AllSatisfied(cs, t + PureAssignment(cs, n))
  {
    var p := PureAssignment(cs, n);
    forall c | c in cs
      ensures ClauseSatisfied(c, t + p)
    {
      var l :| l in c.literals && IsTrue(t, l);
      assert Occurs(cs, l);
      if l.v in p {
        assert Occurs(cs, Lit(l.v, l.value));
      }
      assert IsTrue(t + p, l);
    }
  }

  /**
   * The seen_positive / seen_negative scan of a pure-literal pass: one flag
   * per variable and polarity, set when a literal of that polarity occurs.
   * Indexing by `var - 1` is why every variable must lie in 1..n.
   */
  method SeenPolarities(cs: seq<Clause>, n: nat) returns (pos: array<bool>, neg: array<bool>)
    requires forall c, l :: c in cs && l in c.literals ==> 1 <= l.v <= n
    ensures pos.Length == n && neg.Length == n
    ensures forall i :: 0 <= i < n ==> (pos[i] <==> Occurs(cs, Lit(i + 1, true)))
    ensures forall i :: 0 <= i < n ==> (neg[i] <==> Occurs(cs, Lit(i + 1, false)))
  {
    pos := new bool[n](_ => false);
    neg := new bool[n](_ => false);
    var j := 0;
    while j < |cs|
      invariant 0 <= j <= |cs|
      invariant forall i :: 0 <= i < n ==> (pos[i] <==> Occurs(cs[..j], Lit(i + 1, true)))
      invariant forall i :: 0 <= i < n ==> (neg[i] <==> Occurs(cs[..j], Lit(i + 1, false)))
    {
      var lits := cs[j].literals;
      assert cs[j] in cs;
      var k := 0;
      while k < |lits|
        invariant 0 <= k <= |lits|
        invariant forall i :: 0 <= i < n ==>
          (pos[i] <==> Occurs(cs[..j], Lit(i + 1, true)) || Lit(i + 1, true) in lits[..k])
        invariant forall i :: 0 <= i < n ==>
          (neg[i] <==> Occurs(cs[..j], Lit(i + 1, false)) || Lit(i + 1, false) in lits[..k])
      {
        var l := lits[k];
        assert l in lits;
        assert lits[..k + 1] == lits[..k] + [l];
        if l.value {
          pos[l.v - 1] := true;
        } else {
          neg[l.v - 1] := true;
        }
        k := k + 1;
      }
      assert lits[..k] == lits;
      assert cs[..j + 1] == cs[..j] + [cs[j]];
      forall l: Lit
        ensures Occurs(cs[..j + 1], l) <==> Occurs(cs[..j], l) || l in lits
      {
        if Occurs(cs[..j + 1], l) {
          var c :| c in cs[..j + 1] && l in c.literals;
          if c !in cs[..j] { assert c == cs[j]; }
        }
        if l in lits { assert cs[j] in cs[..j + 1]; }
        if Occurs(cs[..j], l) {
          var c :| c in cs[..j] && l in c.literals;
          assert c in cs[..j + 1];
        }
      }
      j := j + 1;
    }
    assert cs[..j] == cs;
  }

  /**
   * Sequence concatenation regroups. Called where the unfolding of a trail
   * or a literal list needs the regrouped form, so that the step is proved
   * outside the larger proof's context.
   */
  lemma AppendAssoc<T>(x: seq<T>, y: seq<T>, z: seq<T>)
    ensures x + (y + z) == (x + y) + z
  {
  }
}
