/**
 * The random k-SAT generator of src/random.rs. Every random draw is a
 * nondeterministic choice (`:|`): the proofs hold whatever the generator
 * returns.
 */
module RandomCnf {
  import opened Formula

  /** A clause of exactly k literals on pairwise distinct variables of 1..n. */
  predicate KClause(c: Clause, n: nat, k: nat)
  {
    |c.literals| == k &&
    (forall l :: l in c.literals ==> 1 <= l.v <= n) &&
    forall i, j :: 0 <= i < j < |c.literals| ==> c.literals[i].v != c.literals[j].v
  }

  /** The variables a sequence of literals mentions. */
  function VarsOf(lits: seq<Lit>): set<nat>
  {
    set l | l in lits :: l.v
  }

  /**
   * generate_random_cnf: k > n panics (None here) before any clause is
   * drawn; otherwise n variables and l clauses, each a k-clause.
   */
  method GenerateRandomCnf(n: nat, k: nat, l: nat) returns (r: Option<CnfFormula>)
    ensures r.None? <==> k > n
    ensures r.Some? ==> r.value.numVars == n && |r.value.clauses| == l
    ensures r.Some? ==> forall c :: c in r.value.clauses ==> KClause(c, n, k)
    ensures r.Some? ==> WellFormed(r.value)
  {
    if k > n {
      return None;
    }
    var clauses: seq<Clause> := [];
    for i := 0 to l
      invariant |clauses| == i
      invariant forall c :: c in clauses ==> KClause(c, n, k)
    {
      var c := GenerateRandomClause(n, k);
      clauses := clauses + [c];
    }
    r := Some(CnfFormula(n, clauses));
  }

  /**
   * generate_random_clause: grow a set of k distinct variables of 1..n by
   * random draws, then give each a random polarity, in the set's iteration
   * order. The caller guarantees k <= n, without which the draws never stop.
   */
  method GenerateRandomClause(n: nat, k: nat) returns (c: Clause)
    requires k <= n
    ensures KClause(c, n, k)
  {
    var chosen: set<nat> := {};
    while |chosen| < k
      invariant |chosen| <= k
      invariant forall v :: v in chosen ==> 1 <= v <= n
      decreases k - |chosen|
    {
      FreshVariable(chosen, n);
      var v :| 1 <= v <= n && v !in chosen;
      chosen := chosen + {v};
    }
    var lits: seq<Lit> := [];
    var rest := chosen;
    while rest != {}
      invariant rest <= chosen && |lits| + |rest| == |chosen|
      invariant forall l :: l in lits ==> l.v in chosen && l.v !in rest
      invariant forall i, j :: 0 <= i < j < |lits| ==> lits[i].v != lits[j].v
      decreases |rest|
    {
      var v :| v in rest;
      var positive: bool :| true;
      lits := lits + [Lit(v, positive)];
      rest := rest - {v};
    }
    c := Clause(lits);
  }

  /** A set of fewer than n variables of 1..n misses one of them. */
  lemma FreshVariable(chosen: set<nat>, n: nat)
    requires |chosen| < n && forall v :: v in chosen ==> 1 <= v <= n
    ensures exists v :: 1 <= v <= n && v !in chosen
  {
    if forall v :: 1 <= v <= n ==> v in chosen {
      DomainSize(n);
      assert Domain(n) <= chosen;
      SubsetSize(Domain(n), chosen);
    }
  }

  lemma {:induction false} DomainSize(n: nat)
    ensures |Domain(n)| == n
  {
    if n > 0 {
      DomainSize(n - 1);
      assert n !in Domain(n - 1);
      assert Domain(n) == Domain(n - 1) + {n};
    }
  }

  lemma SubsetSize(a: set<nat>, b: set<nat>)
    requires a <= b
    ensures |a| <= |b|
  {
    assert b == a + (b - a);
  }

  /** A sequence of literals on distinct variables mentions as many variables as it has literals. */
  lemma {:induction false} DistinctVarsSize(lits: seq<Lit>)
    requires forall i, j :: 0 <= i < j < |lits| ==> lits[i].v != lits[j].v
    ensures |VarsOf(lits)| == |lits|
  {
    if lits != [] {
      var last := |lits| - 1;
      var init := lits[..last];
      DistinctVarsSize(init);
      assert lits == init + [lits[last]];
      assert VarsOf(lits) == VarsOf(init) + {lits[last].v};
      forall l | l in init ensures l.v != lits[last].v {
        var i :| 0 <= i < last && init[i] == l;
      }
    }
  }

  /** With k = n, a k-clause mentions every variable of 1..n, each exactly once. */
  lemma FullClause(c: Clause, n: nat)
    requires KClause(c, n, n)
    ensures VarsOf(c.literals) == Domain(n)
  {
    DistinctVarsSize(c.literals);
    DomainSize(n);
    assert VarsOf(c.literals) <= Domain(n);
    if VarsOf(c.literals) != Domain(n) {
      var v :| v in Domain(n) && v !in VarsOf(c.literals);
      SubsetSize(VarsOf(c.literals), Domain(n) - {v});
    }
  }
}
