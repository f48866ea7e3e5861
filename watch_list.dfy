/**
 * The two-watched-literal index of src/watch_list.rs. Slot 2(v-1) holds the
 * watches on the literal v = true and slot 2(v-1)+1 those on v = false; a
 * watch names a clause and a blocking literal of that clause, whose truth
 * lets the clause be skipped. When a literal is assigned, the watches on its
 * negation move to another literal of their clause that is not false, or,
 * when there is none, record the clause as falsified or unit in a cached
 * status.
 */
module WatchLists {
  import opened Formula
  import opened SearchState

  datatype Watch = Watch(clauseIdx: nat, blockingLit: Lit)

  // ---------------------------------------------------------------------------
  // Literal slots
  // ---------------------------------------------------------------------------

  /** to_watch_index (variables are numbered from 1). */
  function WatchIndex(l: Lit): (j: nat)
    requires l.v >= 1
    ensures SlotLit(j) == l && j < 2 * l.v
  {
    if l.value then 2 * (l.v - 1) else 2 * (l.v - 1) + 1
  }

  /** The literal whose watches slot `j` holds. */
  function SlotLit(j: nat): (l: Lit)
    ensures l.v >= 1
  {
    Lit(j / 2 + 1, j % 2 == 0)
  }

  /** Every literal has its own slot, and the slots of variables 1..n are the 2n lists `new` creates. */
  lemma WatchIndexSlots(l: Lit, n: nat)
    requires l.v >= 1
    ensures SlotLit(WatchIndex(l)) == l
    ensures WatchIndex(l) < 2 * n <==> l.v <= n
  {
  }

  /** Each slot belongs to exactly one literal: the slot map is injective and onto. */
  lemma WatchIndexInjective(l: Lit, m: Lit, j: nat)
    requires l.v >= 1 && m.v >= 1
    ensures WatchIndex(l) == WatchIndex(m) <==> l == m
    ensures WatchIndex(SlotLit(j)) == j
  {
    WatchIndexSlots(l, 0);
    WatchIndexSlots(m, 0);
  }

  /** The literal can be watched in a table of `size` slots. */
  predicate InTable(l: Lit, size: nat)
  {
    1 <= l.v && 2 * l.v <= size
  }

  lemma InTableSlot(l: Lit, size: nat)
    requires InTable(l, size)
    ensures WatchIndex(l) < size
  {
  }

  // ---------------------------------------------------------------------------
  // The table as a value
  // ---------------------------------------------------------------------------

  /** All watches of the table, wherever they sit. */
  function Entries(ws: seq<seq<Watch>>): multiset<Watch>
  {
    if ws == [] then multiset{} else Entries(ws[..|ws| - 1]) + multiset(ws[|ws| - 1])
  }

  /** Replacing one list of the table swaps its watches for the new list's. */
  lemma {:induction false} EntriesUpdate(ws: seq<seq<Watch>>, j: nat, s: seq<Watch>)
    requires j < |ws|
    ensures Entries(ws[j := s]) + multiset(ws[j]) == Entries(ws) + multiset(s)
    decreases |ws|
  {
    var last := |ws| - 1;
    var ws' := ws[j := s];
    assert Entries(ws) == Entries(ws[..last]) + multiset(ws[last]);
    assert Entries(ws') == Entries(ws'[..last]) + multiset(ws'[last]);
    if j < last {
      assert ws'[..last] == ws[..last][j := s];
      assert ws[..last][j] == ws[j] && ws'[last] == ws[last];
      EntriesUpdate(ws[..last], j, s);
      var e0, e1 := Entries(ws[..last]), Entries(ws'[..last]);
      assert e1 + multiset(ws[j]) == e0 + multiset(s);
      calc {
        Entries(ws') + multiset(ws[j]);
        e1 + multiset(ws[last]) + multiset(ws[j]);
        e1 + multiset(ws[j]) + multiset(ws[last]);
        e0 + multiset(s) + multiset(ws[last]);
        Entries(ws) + multiset(s);
      }
    } else {
      assert ws'[..last] == ws[..last];
    }
  }

  /** vec.push on slot j: the table gains exactly the pushed watch. */
  function Push(ws: seq<seq<Watch>>, j: nat, w: Watch): (r: seq<seq<Watch>>)
    requires j < |ws|
    ensures |r| == |ws| && Entries(r) == Entries(ws) + multiset{w}
  {
    EntriesUpdate(ws, j, ws[j] + [w]);
    assert multiset(ws[j] + [w]) == multiset(ws[j]) + multiset{w};
    MultisetCancel(Entries(ws[j := ws[j] + [w]]), Entries(ws) + multiset{w}, multiset(ws[j]));
    ws[j := ws[j] + [w]]
  }

  lemma MultisetCancel(a: multiset<Watch>, b: multiset<Watch>, c: multiset<Watch>)
    requires a + c == b + c
    ensures a == b
  {
    assert forall x :: a[x] == (a + c)[x] - c[x];
  }

  /** Vec::swap_remove: the last element takes the place of the one removed. */
  function SwapRemove(s: seq<Watch>, i: nat): (r: seq<Watch>)
    requires i < |s|
    ensures |r| == |s| - 1 && r[..i] == s[..i]
    ensures multiset(r) + multiset{s[i]} == multiset(s)
  {
    if i == |s| - 1 then
      assert s == s[..i] + [s[i]];
      s[..i]
    else
      assert s == s[..i] + [s[i]] + s[i + 1..|s| - 1] + [s[|s| - 1]];
      s[..i] + [s[|s| - 1]] + s[i + 1..|s| - 1]
  }

  lemma SwapRemoveKeeps(s: seq<Watch>, i: nat, x: Watch)
    requires i < |s| && x in SwapRemove(s, i)
    ensures x in s
  {
    assert x in multiset(SwapRemove(s, i));
  }

  /** A watch in slot j names a clause holding both the slot's literal and the blocking literal. */
  predicate WatchOk(w: Watch, j: nat, clauses: seq<Clause>)
  {
    w.clauseIdx < |clauses| &&
    SlotLit(j) in clauses[w.clauseIdx].literals &&
    w.blockingLit in clauses[w.clauseIdx].literals
  }

  predicate WatchesSound(ws: seq<seq<Watch>>, clauses: seq<Clause>)
  {
    forall j, w :: 0 <= j < |ws| && w in ws[j] ==> WatchOk(w, j, clauses)
  }

  /** Every literal of every clause can be watched in a table of `size` slots. */
  predicate ClausesInTable(clauses: seq<Clause>, size: nat)
  {
    forall c, l :: c in clauses && l in c.literals ==> InTable(l, size)
  }

  /** The table after add_clause: one watch for a unit clause, blocked by itself; two for a longer one, each blocked by the other. */
  function AddedWatches(ws: seq<seq<Watch>>, clauseIdx: nat, clause: Clause): (r: seq<seq<Watch>>)
    requires clause.literals != []
    requires InTable(clause.literals[0], |ws|)
    requires |clause.literals| > 1 ==> InTable(clause.literals[1], |ws|)
    ensures |r| == |ws|
  {
    var lit0 := clause.literals[0];
    if |clause.literals| == 1 then
      Push(ws, WatchIndex(lit0), Watch(clauseIdx, lit0))
    else
      var lit1 := clause.literals[1];
      var ws' := Push(ws, WatchIndex(lit0), Watch(clauseIdx, lit1));
      Push(ws', WatchIndex(lit1), Watch(clauseIdx, lit0))
  }

  /**
   * add_clause adds one watch per watched literal, and the watches it adds
   * name the clause and its own literals, so a sound table stays sound.
   */
  lemma AddedWatchesSound(ws: seq<seq<Watch>>, clauseIdx: nat, clauses: seq<Clause>)
    requires clauseIdx < |clauses| && clauses[clauseIdx].literals != []
    requires ClausesInTable(clauses, |ws|)
    requires WatchesSound(ws, clauses)
    ensures var c := clauses[clauseIdx];
      WatchesSound(AddedWatches(ws, clauseIdx, c), clauses) &&
      Entries(AddedWatches(ws, clauseIdx, c)) == Entries(ws) +
        if |c.literals| == 1 then multiset{Watch(clauseIdx, c.literals[0])}
        else multiset{Watch(clauseIdx, c.literals[1]), Watch(clauseIdx, c.literals[0])}
  {
    var c := clauses[clauseIdx];
    var lit0 := c.literals[0];
    assert c in clauses && lit0 in c.literals;
    assert InTable(lit0, |ws|);
    WatchIndexSlots(lit0, 0);
    if |c.literals| == 1 {
      PushSound(ws, WatchIndex(lit0), Watch(clauseIdx, lit0), clauses);
    } else {
      var lit1 := c.literals[1];
      assert lit1 in c.literals;
      assert InTable(lit1, |ws|);
      WatchIndexSlots(lit1, 0);
      var ws' := Push(ws, WatchIndex(lit0), Watch(clauseIdx, lit1));
      PushSound(ws, WatchIndex(lit0), Watch(clauseIdx, lit1), clauses);
      assert WatchOk(Watch(clauseIdx, lit0), WatchIndex(lit1), clauses);
      PushSound(ws', WatchIndex(lit1), Watch(clauseIdx, lit0), clauses);
    }
  }

  /** Pushing a watch that fits its slot keeps the table sound. */
  lemma PushSound(ws: seq<seq<Watch>>, j: nat, w: Watch, clauses: seq<Clause>)
    requires j < |ws| && WatchesSound(ws, clauses) && WatchOk(w, j, clauses)
    ensures WatchesSound(Push(ws, j, w), clauses)
  {
    var r := Push(ws, j, w);
    forall k, x | 0 <= k < |r| && x in r[k]
      ensures WatchOk(x, k, clauses)
    {
      if k != j || x != w {
        assert x in ws[k];
      }
    }
  }

  /** Removing a watch keeps the table sound. */
  lemma RemoveSound(ws: seq<seq<Watch>>, j: nat, i: nat, clauses: seq<Clause>)
    requires j < |ws| && i < |ws[j]| && WatchesSound(ws, clauses)
    ensures WatchesSound(ws[j := SwapRemove(ws[j], i)], clauses)
  {
    var r := ws[j := SwapRemove(ws[j], i)];
    forall k, x | 0 <= k < |r| && x in r[k]
      ensures WatchOk(x, k, clauses)
    {
      if k == j {
        SwapRemoveKeeps(ws[j], i, x);
      }
    }
  }

  // ---------------------------------------------------------------------------
  // The cached status
  // ---------------------------------------------------------------------------

  /**
   * What a status cached by update_for_assignment says: a falsified clause is
   * one of the clauses and, once the assigned literal is true, every literal
   * of it is false; a unit clause is one of the clauses whose literal is
   * unassigned and, once the assigned literal is true, all its other
   * literals are false.
   */
  predicate StatusSound(st: Option<Status>, assignedLit: Lit, a: Assignment, clauses: seq<Clause>)
  {
    match st
    case None => true
    case Some(Falsified(c)) =>
      c in clauses && (IsTrue(a, assignedLit) ==> ClauseFalsified(c, a))
    case Some(UnassignedUnit(l, c)) =>
      c in clauses && l in c.literals && LitValue(a, l).None? &&
      (IsTrue(a, assignedLit) ==> forall m :: m in c.literals && m != l ==> IsFalse(a, m))
    case Some(_) => false
  }

  /** A literal that can take over a watch: not the negated literal, not the blocking one, and not false. */
  predicate Replacement(l: Lit, neg: Lit, blocking: Lit, a: Assignment)
  {
    l != neg && l != blocking && LitValue(a, l) != Some(false)
  }

  /**
   * The search for a new literal to watch: the first replacement in the
   * clause, or `neg` itself when there is none.
   */
  method FindNewWatch(lits: seq<Lit>, neg: Lit, blocking: Lit, a: Assignment) returns (found: bool, newLit: Lit)
    ensures found ==> exists k :: (0 <= k < |lits| && lits[k] == newLit &&
      Replacement(newLit, neg, blocking, a) &&
      forall k' :: 0 <= k' < k ==> !Replacement(lits[k'], neg, blocking, a))
    ensures !found ==> newLit == neg && forall l :: l in lits ==> !Replacement(l, neg, blocking, a)
  {
    found, newLit := false, neg;
    var k := 0;
    while k < |lits|
      invariant k <= |lits|
      invariant forall k' :: 0 <= k' < k ==> !Replacement(lits[k'], neg, blocking, a)
    {
      if Replacement(lits[k], neg, blocking, a) {
        found, newLit := true, lits[k];
        return;
      }
      k := k + 1;
    }
  }

  /** No replacement and a false blocking literal: the clause is falsified once the assigned literal is true. */
  lemma NoReplacementFalsified(c: Clause, assignedLit: Lit, blocking: Lit, a: Assignment, clauses: seq<Clause>)
    requires forall l :: l in c.literals ==> !Replacement(l, Not(assignedLit), blocking, a)
    requires c in clauses && LitValue(a, blocking) == Some(false)
    ensures StatusSound(Some(Falsified(c)), assignedLit, a, clauses)
  {
  }

  // ---------------------------------------------------------------------------
  // The table
  // ---------------------------------------------------------------------------

  class WatchList {
    /** One list of watches per literal slot; the number of slots never changes. */
    var watches: seq<seq<Watch>>
    var cachedStatus: Option<Status>

    /** new: 2·numVars empty lists and no cached status. */
    constructor New(numVars: nat)
      ensures |watches| == 2 * numVars && Entries(watches) == multiset{}
      ensures forall j :: 0 <= j < |watches| ==> watches[j] == []
      ensures cachedStatus == None
    {
      var empty: seq<seq<Watch>> := seq(2 * numVars, _ => []);
      EmptyEntries(empty);
      watches := empty;
      cachedStatus := None;
    }

    /** add_clause: an empty clause is a caller error (`unreachable!`). */
    method AddClause(clauseIdx: nat, clause: Clause)
      modifies this
      requires clause.literals != []
      requires InTable(clause.literals[0], |watches|)
      requires |clause.literals| > 1 ==> InTable(clause.literals[1], |watches|)
      ensures watches == AddedWatches(old(watches), clauseIdx, clause)
      ensures cachedStatus == old(cachedStatus)
    {
      var lit0 := clause.literals[0];
      if |clause.literals| == 1 {
        watches := Push(watches, WatchIndex(lit0), Watch(clauseIdx, lit0));
      } else {
        var lit1 := clause.literals[1];
        watches := Push(watches, WatchIndex(lit0), Watch(clauseIdx, lit1));
        watches := Push(watches, WatchIndex(lit1), Watch(clauseIdx, lit0));
      }
    }

    /** get_cached_status: the status the last update left, without changing it. */
    function CachedStatus(): (r: Option<Status>)
      reads this
      ensures r == cachedStatus
    {
      cachedStatus
    }

    /** clear_status */
    method ClearStatus()
      modifies this
      ensures cachedStatus == None && watches == old(watches)
    {
      cachedStatus := None;
    }

    /**
     * update_for_assignment. The stale status is dropped first. Every watch on
     * the negated literal whose blocking literal is not true either moves to
     * a replacement literal of its clause, or, with none left, caches its
     * clause as falsified (and stops) or, when nothing is cached yet, as unit.
     *
     * Afterwards the table holds the same watches, still sound; lists other
     * than the negated literal's only grew, and only by watches moved from it
     * onto a replacement literal, while a watch blocked by a true literal
     * stays where it was; a cached status is sound; and
     * unless a falsified clause stopped the scan, every watch left on the
     * negated literal is blocked by a true literal, or by an unassigned one
     * while a unit clause is cached.
     */
    method UpdateForAssignment(assignedLit: Lit, a: Assignment, clauses: seq<Clause>)
      modifies this
      requires InTable(assignedLit, |watches|)
      requires ClausesInTable(clauses, |watches|)
      requires WatchesSound(watches, clauses)
      ensures Entries(watches) == Entries(old(watches))
      ensures WatchesSound(watches, clauses)
      ensures Grown(old(watches), watches, WatchIndex(Not(assignedLit)))
      ensures MovedFrom(old(watches), watches, WatchIndex(Not(assignedLit)), Not(assignedLit), a)
      ensures StatusSound(cachedStatus, assignedLit, a, clauses)
      ensures !(cachedStatus.Some? && cachedStatus.value.Falsified?) ==>
        AllSettled(watches[WatchIndex(Not(assignedLit))], a, cachedStatus)
    {
      cachedStatus := None;
      var neg := Not(assignedLit);
      var negIdx := WatchIndex(neg);
      WatchIndexSlots(neg, 0);
      ghost var start := watches;
      var i: nat := 0;
      while i < |watches[negIdx]|
        invariant Grown(start, watches, negIdx) && Entries(watches) == Entries(start)
        invariant MovedFrom(start, watches, negIdx, neg, a)
        invariant WatchesSound(watches, clauses)
        invariant StatusSound(cachedStatus, assignedLit, a, clauses)
        invariant cachedStatus.None? || cachedStatus.value.UnassignedUnit?
        invariant i <= |watches[negIdx]|
        invariant AllSettled(watches[negIdx][..i], a, cachedStatus)
        decreases |watches[negIdx]| - i
      {
        var next, stop := ScanWatch(negIdx, i, assignedLit, a, clauses, start);
        if stop {
          return;
        }
        i := next;
      }
      assert watches[negIdx][..i] == watches[negIdx];
    }

    /**
     * One turn of the scan over the watches of the negated literal: a watch
     * whose blocking literal is true stays; otherwise it moves to a
     * replacement literal, or, with none, the clause is falsified (and the
     * scan stops) or unit on the blocking literal (cached unless a unit is
     * cached already).
     */
    method ScanWatch(negIdx: nat, i: nat, assignedLit: Lit, a: Assignment, clauses: seq<Clause>,
                     ghost start: seq<seq<Watch>>) returns (next: nat, stop: bool)
      modifies this
      requires InTable(assignedLit, |start|) && ClausesInTable(clauses, |start|)
      requires negIdx == WatchIndex(Not(assignedLit))
      requires Grown(start, watches, negIdx) && Entries(watches) == Entries(start)
      requires WatchesSound(watches, clauses)
      requires StatusSound(cachedStatus, assignedLit, a, clauses)
      requires cachedStatus.None? || cachedStatus.value.UnassignedUnit?
      requires i < |watches[negIdx]| && AllSettled(watches[negIdx][..i], a, cachedStatus)
      requires MovedFrom(start, watches, negIdx, Not(assignedLit), a)
      ensures Grown(start, watches, negIdx) && Entries(watches) == Entries(start)
      ensures MovedFrom(start, watches, negIdx, Not(assignedLit), a)
      ensures WatchesSound(watches, clauses)
      ensures StatusSound(cachedStatus, assignedLit, a, clauses)
      ensures stop <==> cachedStatus.Some? && cachedStatus.value.Falsified?
      ensures !stop ==> next <= |watches[negIdx]| && |watches[negIdx]| - next < |old(watches)[negIdx]| - i
      ensures !stop ==> AllSettled(watches[negIdx][..next], a, cachedStatus)
    {
      var neg := Not(assignedLit);
      WatchIndexSlots(neg, 0);
      var watch := watches[negIdx][i];
      if LitValue(a, watch.blockingLit) == Some(true) {
        SettledStep(watches[negIdx], i, a, cachedStatus);
        return i + 1, false;
      }
      assert WatchOk(watch, negIdx, clauses);
      var clause := clauses[watch.clauseIdx];
      assert clause in clauses;
      var found, newLit := FindNewWatch(clause.literals, neg, watch.blockingLit, a);
      if found {
        assert newLit in clause.literals;
        assert InTable(newLit, |watches|);
        WatchIndexInjective(newLit, neg, negIdx);
        MovedFromStep(start, watches, negIdx, i, neg, newLit, a);
        Relocate(negIdx, i, newLit, clauses, start);
        return i, false;
      } else if LitValue(a, watch.blockingLit) == Some(false) {
        NoReplacementFalsified(clause, assignedLit, watch.blockingLit, a, clauses);
        cachedStatus := Some(Falsified(clause));
        return i, true;
      }
      if cachedStatus.None? {
        SettledMore(watches[negIdx][..i], a, Some(UnassignedUnit(watch.blockingLit, clause)));
        NoReplacementUnit(clause, assignedLit, watch.blockingLit, a, clauses);
        cachedStatus := Some(UnassignedUnit(watch.blockingLit, clause));
      }
      SettledStep(watches[negIdx], i, a, cachedStatus);
      return i + 1, false;
    }

    /**
     * The relocation step: swap_remove watch i from slot j, then push it, with
     * its clause and blocking literal unchanged, onto the slot of `newLit`.
     */
    method Relocate(j: nat, i: nat, newLit: Lit, ghost clauses: seq<Clause>, ghost start: seq<seq<Watch>>)
      modifies this
      requires j < |watches| && i < |watches[j]| && WatchesSound(watches, clauses)
      requires InTable(newLit, |watches|) && newLit != SlotLit(j)
      requires watches[j][i].clauseIdx < |clauses| && newLit in clauses[watches[j][i].clauseIdx].literals
      requires Grown(start, watches, j)
      ensures watches == Push(old(watches)[j := SwapRemove(old(watches)[j], i)], WatchIndex(newLit), old(watches)[j][i])
      ensures Entries(watches) == Entries(old(watches)) && WatchesSound(watches, clauses)
      ensures Grown(start, watches, j) && watches[j] == SwapRemove(old(watches)[j], i)
      ensures cachedStatus == old(cachedStatus)
    {
      var removed := watches[j][i];
      MoveWatch(watches, j, i, newLit, clauses);
      GrownMove(start, watches, j, i, WatchIndex(newLit), removed);
      watches := watches[j := SwapRemove(watches[j], i)];
      watches := Push(watches, WatchIndex(newLit), Watch(removed.clauseIdx, removed.blockingLit));
    }
  }

  /** Every list other than slot j kept its old watches as a prefix. */
  predicate Grown(start: seq<seq<Watch>>, ws: seq<seq<Watch>>, j: nat)
  {
    |ws| == |start| && forall k :: 0 <= k < |ws| && k != j ==> start[k] <= ws[k]
  }

  /** Moving a watch from one slot to another keeps the table's watches. */
  lemma MoveEntries(ws: seq<seq<Watch>>, j: nat, i: nat, k: nat)
    requires j < |ws| && i < |ws[j]| && k < |ws|
    ensures Entries(Push(ws[j := SwapRemove(ws[j], i)], k, ws[j][i])) == Entries(ws)
  {
    var w := ws[j][i];
    var rest := SwapRemove(ws[j], i);
    var removed := ws[j := rest];
    var moved := Push(removed, k, w);
    EntriesUpdate(ws, j, rest);
    calc {
      Entries(moved) + multiset(ws[j]);
      Entries(removed) + multiset{w} + multiset(ws[j]);
      Entries(removed) + multiset(ws[j]) + multiset{w};
      Entries(ws) + multiset(rest) + multiset{w};
      Entries(ws) + multiset(ws[j]);
    }
    MultisetCancel(Entries(moved), Entries(ws), multiset(ws[j]));
  }

  lemma GrownMove(start: seq<seq<Watch>>, ws: seq<seq<Watch>>, j: nat, i: nat, k: nat, w: Watch)
    requires Grown(start, ws, j) && j < |ws| && i < |ws[j]| && k < |ws| && k != j
    ensures Grown(start, Push(ws[j := SwapRemove(ws[j], i)], k, w), j)
  {
    var r := Push(ws[j := SwapRemove(ws[j], i)], k, w);
    forall k' | 0 <= k' < |r| && k' != j ensures start[k'] <= r[k'] {
      assert ws[k'] <= r[k'];
    }
  }

  /**
   * Where the scan put watches, measured against the table `start` it began
   * from: the negated literal's slot `negIdx` only lost watches, and kept
   * every one whose blocking literal is true; whatever any other slot gained
   * came from that slot, with its blocking literal unchanged, and the slot's
   * literal is a replacement for it (not `neg`, not the blocking literal,
   * not false).
   */
  predicate MovedFrom(start: seq<seq<Watch>>, ws: seq<seq<Watch>>, negIdx: nat, neg: Lit, a: Assignment)
  {
    |ws| == |start| && negIdx < |ws| &&
    (forall w :: w in ws[negIdx] ==> w in start[negIdx]) &&
    (forall w :: w in start[negIdx] && IsTrue(a, w.blockingLit) ==> w in ws[negIdx]) &&
    (forall k, w :: 0 <= k < |ws| && k != negIdx && |start[k]| <= |ws[k]| && w in ws[k][|start[k]|..] ==>
       w in start[negIdx] && Replacement(SlotLit(k), neg, w.blockingLit, a))
  }

  /**
   * Moving watch i, whose blocking literal is not true, from the negated
   * literal's slot to the slot of a replacement literal keeps MovedFrom.
   */
  lemma MovedFromStep(start: seq<seq<Watch>>, ws: seq<seq<Watch>>, j: nat, i: nat, neg: Lit, newLit: Lit, a: Assignment)
    requires MovedFrom(start, ws, j, neg, a) && Grown(start, ws, j) && i < |ws[j]|
    requires newLit.v >= 1 && WatchIndex(newLit) < |ws| && WatchIndex(newLit) != j
    requires Replacement(newLit, neg, ws[j][i].blockingLit, a) && !IsTrue(a, ws[j][i].blockingLit)
    ensures MovedFrom(start, Push(ws[j := SwapRemove(ws[j], i)], WatchIndex(newLit), ws[j][i]), j, neg, a)
  {
    var w := ws[j][i];
    var kNew := WatchIndex(newLit);
    var rest := SwapRemove(ws[j], i);
    var r := Push(ws[j := rest], kNew, w);
    WatchIndexSlots(newLit, 0);
    assert r[j] == rest;
    forall x | x in r[j] ensures x in start[j] {
      SwapRemoveKeeps(ws[j], i, x);
    }
    forall x | x in start[j] && IsTrue(a, x.blockingLit) ensures x in r[j] {
      SwapRemoveOthers(ws[j], i, x);
    }
    forall k, x | 0 <= k < |r| && k != j && |start[k]| <= |r[k]| && x in r[k][|start[k]|..]
      ensures x in start[j] && Replacement(SlotLit(k), neg, x.blockingLit, a)
    {
      if k == kNew {
        assert r[k][|start[k]|..] == ws[k][|start[k]|..] + [w];
        if x != w {
          assert x in ws[k][|start[k]|..];
        }
      } else {
        assert r[k] == ws[k];
      }
    }
  }

  /** swap_remove keeps every watch other than the removed one. */
  lemma SwapRemoveOthers(s: seq<Watch>, i: nat, x: Watch)
    requires i < |s| && x in s && x != s[i]
    ensures x in SwapRemove(s, i)
  {
    assert x in multiset(s);
    assert multiset(SwapRemove(s, i))[x] == multiset(s)[x];
  }

  predicate AllSettled(s: seq<Watch>, a: Assignment, st: Option<Status>)
  {
    forall w :: w in s ==> Settled(w, a, st)
  }

  lemma SettledStep(s: seq<Watch>, i: nat, a: Assignment, st: Option<Status>)
    requires i < |s| && AllSettled(s[..i], a, st) && Settled(s[i], a, st)
    ensures AllSettled(s[..i + 1], a, st)
  {
    assert s[..i + 1] == s[..i] + [s[i]];
  }

  /** Caching a status only widens what counts as settled. */
  lemma SettledMore(s: seq<Watch>, a: Assignment, st: Option<Status>)
    requires AllSettled(s, a, None) && st.Some?
    ensures AllSettled(s, a, st)
  {
  }

  /** No replacement and an unassigned blocking literal: the clause is unit on it once the assigned literal is true. */
  lemma NoReplacementUnit(c: Clause, assignedLit: Lit, blocking: Lit, a: Assignment, clauses: seq<Clause>)
    requires forall l :: l in c.literals ==> !Replacement(l, Not(assignedLit), blocking, a)
    requires c in clauses && blocking in c.literals && LitValue(a, blocking).None?
    ensures StatusSound(Some(UnassignedUnit(blocking, c)), assignedLit, a, clauses)
  {
  }

  /** A watch the scan has passed: blocked by a true literal, or by an unassigned one once a status is cached. */
  predicate Settled(w: Watch, a: Assignment, st: Option<Status>)
  {
    IsTrue(a, w.blockingLit) || (LitValue(a, w.blockingLit).None? && st.Some?)
  }

  lemma EmptyEntries(ws: seq<seq<Watch>>)
    requires forall j :: 0 <= j < |ws| ==> ws[j] == []
    ensures Entries(ws) == multiset{}
    decreases |ws|
  {
    if ws != [] {
      EmptyEntries(ws[..|ws| - 1]);
    }
  }

  /**
   * Moving watch i of slot j to the slot of a replacement literal of its
   * clause keeps the table's watches and its soundness, leaves the scanned
   * prefix of slot j alone and only appends to the other slot.
   */
  lemma MoveWatch(ws: seq<seq<Watch>>, j: nat, i: nat, newLit: Lit, clauses: seq<Clause>)
    requires j < |ws| && i < |ws[j]| && WatchesSound(ws, clauses)
    requires InTable(newLit, |ws|) && newLit != SlotLit(j)
    requires ws[j][i].clauseIdx < |clauses| && newLit in clauses[ws[j][i].clauseIdx].literals
    ensures var removed := ws[j := SwapRemove(ws[j], i)];
      var moved := Push(removed, WatchIndex(newLit), ws[j][i]);
      WatchIndex(newLit) != j &&
      Entries(moved) == Entries(ws) && WatchesSound(moved, clauses) &&
      moved[j] == SwapRemove(ws[j], i)
  {
    var w := ws[j][i];
    assert WatchOk(w, j, clauses);
    WatchIndexInjective(newLit, SlotLit(j), j);
    WatchIndexSlots(newLit, 0);
    var removed := ws[j := SwapRemove(ws[j], i)];
    MoveEntries(ws, j, i, WatchIndex(newLit));
    RemoveSound(ws, j, i, clauses);
    PushSound(removed, WatchIndex(newLit), w, clauses);
  }
}
