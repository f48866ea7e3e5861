/**
 * The aggregation half of scripts/viz.py: benchmark records are grouped by
 * their clause-to-variable ratio l/n, and each group is reduced to its mean
 * duration and the fraction of its formulas that were satisfiable. Ratios
 * and means are exact reals; the insertion-ordered dictionary of groups is a
 * sequence of (ratio, records) pairs with distinct ratios.
 */
module Viz {
  import opened Formula

  datatype Record = Record(n: int, l: int, duration: real, sat: bool)

  datatype Group = Group(ratio: real, records: seq<Record>)

  function Ratio(r: Record): real
    requires r.n != 0
  {
    (r.l as real) / (r.n as real)
  }

  predicate NonZero(records: seq<Record>)
  {
    forall i :: 0 <= i < |records| ==> records[i].n != 0
  }

  /** The ratio of every record, in input order. */
  function Ratios(records: seq<Record>): (r: seq<real>)
    requires NonZero(records)
    ensures |r| == |records| && forall i :: 0 <= i < |records| ==> r[i] == Ratio(records[i])
  {
    if records == [] then [] else Ratios(records[..|records| - 1]) + [Ratio(records[|records| - 1])]
  }

  /** The distinct values of `s` in order of first occurrence. */
  function Dedup(s: seq<real>): seq<real>
  {
    if s == [] then []
    else
      var init := Dedup(s[..|s| - 1]);
      if s[|s| - 1] in s[..|s| - 1] then init else init + [s[|s| - 1]]
  }

  /** The records of one ratio, in input order. */
  function Filter(records: seq<Record>, key: real): seq<Record>
    requires NonZero(records)
  {
    if records == [] then []
    else
      var last := records[|records| - 1];
      Filter(records[..|records| - 1], key) + if Ratio(last) == key then [last] else []
  }

  function Keys(gs: seq<Group>): (r: seq<real>)
    ensures |r| == |gs| && forall j :: 0 <= j < |gs| ==> r[j] == gs[j].ratio
  {
    if gs == [] then [] else Keys(gs[..|gs| - 1]) + [gs[|gs| - 1].ratio]
  }

  function TotalSize(gs: seq<Group>): nat
  {
    if gs == [] then 0 else TotalSize(gs[..|gs| - 1]) + |gs[|gs| - 1].records|
  }

  /** The dictionary lookup: where the ratio's group sits, if it has one yet. */
  function KeyIndex(gs: seq<Group>, key: real): (r: Option<nat>)
    ensures r.Some? ==> r.value < |gs| && gs[r.value].ratio == key
    ensures r.None? ==> forall j :: 0 <= j < |gs| ==> gs[j].ratio != key
  {
    if gs == [] then None
    else if gs[|gs| - 1].ratio == key then Some(|gs| - 1)
    else KeyIndex(gs[..|gs| - 1], key)
  }

  // ---------------------------------------------------------------------------
  // group_by_ratio
  // ---------------------------------------------------------------------------

  /**
   * group_by_ratio: a record with n = 0 fails the assertion (None). Otherwise
   * the groups are keyed by the distinct ratios in order of first
   * occurrence, each group holds exactly the records of its ratio in input
   * order, and together they hold every record once.
   */
  method GroupByRatio(records: seq<Record>) returns (r: Option<seq<Group>>)
    ensures r.None? <==> !NonZero(records)
    ensures r.Some? ==> Keys(r.value) == Dedup(Ratios(records))
    ensures r.Some? ==> forall j :: 0 <= j < |r.value| ==> r.value[j].records == Filter(records, r.value[j].ratio)
    ensures r.Some? ==> TotalSize(r.value) == |records|
  {
    var gs: seq<Group> := [];
    for i := 0 to |records|
      invariant Grouped(records[..i], gs)
    {
      if records[i].n == 0 {
        assert !NonZero(records);
        return None;
      }
      var key := Ratio(records[i]);
      match KeyIndex(gs, key)
      case Some(j) =>
        AddToGroup(records, i, gs, j);
        gs := gs[j := Group(key, gs[j].records + [records[i]])];
      case None =>
        NewGroup(records, i, gs);
        gs := gs + [Group(key, [records[i]])];
    }
    assert records[..|records|] == records;
    r := Some(gs);
  }

  /** `gs` is the grouping of `prefix`: the state group_by_ratio keeps between records. */
  predicate Grouped(prefix: seq<Record>, gs: seq<Group>)
  {
    NonZero(prefix) &&
    Keys(gs) == Dedup(Ratios(prefix)) &&
    (forall j :: 0 <= j < |gs| ==> gs[j].records == Filter(prefix, gs[j].ratio)) &&
    TotalSize(gs) == |prefix|
  }

  /** A record whose ratio already has a group is appended to that group. */
  lemma AddToGroup(records: seq<Record>, i: nat, gs: seq<Group>, j: nat)
    requires i < |records| && records[i].n != 0 && Grouped(records[..i], gs)
    requires j < |gs| && gs[j].ratio == Ratio(records[i])
    ensures Grouped(records[..i + 1], gs[j := Group(gs[j].ratio, gs[j].records + [records[i]])])
  {
    var key := Ratio(records[i]);
    var gs' := gs[j := Group(key, gs[j].records + [records[i]])];
    GroupStep(records, i, gs);
    assert key in Keys(gs) by { assert Keys(gs)[j] == key; }
    assert Keys(gs') == Keys(gs);
    DedupDistinct(Ratios(records[..i]));
    forall j': nat | j' < |gs'| ensures gs'[j'].records == Filter(records[..i + 1], gs'[j'].ratio) {
      if j' != j {
        assert Keys(gs)[j'] != Keys(gs)[j];
      }
    }
    TotalSizeUpdate(gs, j, gs[j].records + [records[i]]);
  }

  /** A record with a ratio not seen before opens a new group at the end. */
  lemma NewGroup(records: seq<Record>, i: nat, gs: seq<Group>)
    requires i < |records| && records[i].n != 0 && Grouped(records[..i], gs)
    requires forall j :: 0 <= j < |gs| ==> gs[j].ratio != Ratio(records[i])
    ensures Grouped(records[..i + 1], gs + [Group(Ratio(records[i]), [records[i]])])
  {
    var key := Ratio(records[i]);
    var gs' := gs + [Group(key, [records[i]])];
    GroupStep(records, i, gs);
    assert key !in Keys(gs);
    assert Keys(gs') == Keys(gs) + [key];
    DedupMembers(Ratios(records[..i]));
    FilterAbsent(records[..i], key);
    forall j: nat | j < |gs'| ensures gs'[j].records == Filter(records[..i + 1], gs'[j].ratio) {
      if j < |gs| {
        assert gs'[j] == gs[j];
      }
    }
    assert gs'[..|gs|] == gs;
    assert TotalSize(gs') == TotalSize(gs) + 1;
  }

  /** What one more record does to the ratios, the keys and the filters of the prefix. */
  lemma GroupStep(records: seq<Record>, i: nat, gs: seq<Group>)
    requires i < |records| && NonZero(records[..i]) && records[i].n != 0
    requires Keys(gs) == Dedup(Ratios(records[..i]))
    ensures NonZero(records[..i + 1])
    ensures var key := Ratio(records[i]);
      Ratios(records[..i + 1]) == Ratios(records[..i]) + [key] &&
      (key in Keys(gs) ==> Dedup(Ratios(records[..i + 1])) == Keys(gs)) &&
      (key !in Keys(gs) ==> Dedup(Ratios(records[..i + 1])) == Keys(gs) + [key]) &&
      forall k :: Filter(records[..i + 1], k) == Filter(records[..i], k) + if key == k then [records[i]] else []
  {
    var pre := records[..i + 1];
    assert pre[..i] == records[..i];
    var rs := Ratios(pre);
    assert rs[..i] == Ratios(records[..i]);
    DedupMembers(rs[..i]);
  }

  lemma {:induction false} TotalSizeUpdate(gs: seq<Group>, j: nat, s: seq<Record>)
    requires j < |gs|
    ensures TotalSize(gs[j := Group(gs[j].ratio, s)]) + |gs[j].records| == TotalSize(gs) + |s|
    decreases |gs|
  {
    var last := |gs| - 1;
    var gs' := gs[j := Group(gs[j].ratio, s)];
    if j < last {
      assert gs'[..last] == gs[..last][j := Group(gs[j].ratio, s)];
      TotalSizeUpdate(gs[..last], j, s);
    } else {
      assert gs'[..last] == gs[..last];
    }
  }

  // ---------------------------------------------------------------------------
  // Properties of the grouping
  // ---------------------------------------------------------------------------

  /** Dedup keeps exactly the values of its input. */
  lemma {:induction false} DedupMembers(s: seq<real>)
    ensures forall x :: x in Dedup(s) <==> x in s
  {
    if s != [] {
      var init := s[..|s| - 1];
      DedupMembers(init);
      assert s == init + [s[|s| - 1]];
    }
  }

  /** Dedup yields no value twice. */
  lemma {:induction false} DedupDistinct(s: seq<real>)
    ensures forall i, j :: 0 <= i < j < |Dedup(s)| ==> Dedup(s)[i] != Dedup(s)[j]
  {
    if s != [] {
      var init := s[..|s| - 1];
      DedupDistinct(init);
      DedupMembers(init);
    }
  }

  /** A ratio no record has selects no record. */
  lemma {:induction false} FilterAbsent(records: seq<Record>, key: real)
    requires NonZero(records) && key !in Ratios(records)
    ensures Filter(records, key) == []
  {
    if records != [] {
      var last := |records| - 1;
      assert NonZero(records[..last]);
      assert Ratios(records)[last] == Ratio(records[last]);
      assert forall x :: x in Ratios(records[..last]) ==> x in Ratios(records);
      FilterAbsent(records[..last], key);
    }
  }

  /** Every record lands in the group of its own ratio, which is therefore never empty. */
  lemma {:induction false} FilterHolds(records: seq<Record>, i: nat)
    requires NonZero(records) && i < |records|
    ensures records[i] in Filter(records, Ratio(records[i]))
  {
    var last := |records| - 1;
    if i < last {
      assert NonZero(records[..last]);
      assert records[..last][i] == records[i];
      FilterHolds(records[..last], i);
    }
  }

  /** A group holds only records of its ratio. */
  lemma {:induction false} FilterOnly(records: seq<Record>, key: real)
    requires NonZero(records)
    ensures forall x :: x in Filter(records, key) ==> x.n != 0 && Ratio(x) == key
  {
    if records != [] {
      var last := |records| - 1;
      assert NonZero(records[..last]);
      FilterOnly(records[..last], key);
    }
  }

  /**
   * The groups partition the records: their ratios are distinct, each group
   * is non-empty and holds only records of its ratio, and every record sits
   * in the group of its ratio.
   */
  lemma GroupsPartition(records: seq<Record>, gs: seq<Group>)
    requires NonZero(records)
    requires Keys(gs) == Dedup(Ratios(records))
    requires forall j :: 0 <= j < |gs| ==> gs[j].records == Filter(records, gs[j].ratio)
    ensures forall j, j' :: 0 <= j < j' < |gs| ==> gs[j].ratio != gs[j'].ratio
    ensures forall j :: 0 <= j < |gs| ==> gs[j].records != []
    ensures forall j, x :: 0 <= j < |gs| && x in gs[j].records ==> x.n != 0 && Ratio(x) == gs[j].ratio
    ensures forall i :: 0 <= i < |records| ==>
      exists j :: 0 <= j < |gs| && gs[j].ratio == Ratio(records[i]) && records[i] in gs[j].records
  {
    DedupDistinct(Ratios(records));
    forall j: nat | j < |gs| {
      GroupNonEmpty(records, gs, j);
    }
    forall j: nat | j < |gs| {
      FilterOnly(records, gs[j].ratio);
    }
    forall i: nat | i < |records| {
      RecordGrouped(records, gs, i);
    }
  }

  lemma GroupNonEmpty(records: seq<Record>, gs: seq<Group>, j: nat)
    requires NonZero(records) && j < |gs|
    requires Keys(gs) == Dedup(Ratios(records))
    requires gs[j].records == Filter(records, gs[j].ratio)
    ensures gs[j].records != []
  {
    var rs := Ratios(records);
    DedupMembers(rs);
    assert gs[j].ratio == Keys(gs)[j];
    assert gs[j].ratio in rs;
    var i :| 0 <= i < |rs| && rs[i] == gs[j].ratio;
    FilterHolds(records, i);
  }

  lemma RecordGrouped(records: seq<Record>, gs: seq<Group>, i: nat)
    requires NonZero(records) && i < |records|
    requires Keys(gs) == Dedup(Ratios(records))
    requires forall j :: 0 <= j < |gs| ==> gs[j].records == Filter(records, gs[j].ratio)
    ensures exists j :: 0 <= j < |gs| && gs[j].ratio == Ratio(records[i]) && records[i] in gs[j].records
  {
    var rs := Ratios(records);
    DedupMembers(rs);
    assert rs[i] in Keys(gs);
    var j :| 0 <= j < |gs| && Keys(gs)[j] == rs[i];
    FilterHolds(records, i);
  }

  // ---------------------------------------------------------------------------
  // calculate_metrics
  // ---------------------------------------------------------------------------

  function DurationSum(records: seq<Record>): real
  {
    if records == [] then 0.0 else DurationSum(records[..|records| - 1]) + records[|records| - 1].duration
  }

  function SatCount(records: seq<Record>): (r: nat)
    ensures r <= |records|
  {
    if records == [] then 0 else SatCount(records[..|records| - 1]) + if records[|records| - 1].sat then 1 else 0
  }

  /** The mean duration lies between the least and the greatest duration of the group. */
  lemma {:induction false} DurationSumBounds(records: seq<Record>, lo: real, hi: real)
    requires forall x :: x in records ==> lo <= x.duration <= hi
    ensures |records| as real * lo <= DurationSum(records) <= |records| as real * hi
  {
    if records != [] {
      var init := records[..|records| - 1];
      assert forall x :: x in init ==> x in records;
      DurationSumBounds(init, lo, hi);
      var m := |init| as real;
      var d := records[|records| - 1].duration;
      assert records[|records| - 1] in records;
      assert DurationSum(records) == DurationSum(init) + d;
      assert |records| as real * lo == m * lo + lo && |records| as real * hi == m * hi + hi;
    }
  }

  /**
   * One metrics entry describes group `g`: its ratio, a mean duration that
   * times the group size gives the total duration, and a satisfiable
   * fraction that times the group size gives the number of satisfiable
   * records and so lies in [0, 1].
   */
  predicate Summarises(g: Group, ratio: real, avg: real, prob: real)
  {
    ratio == g.ratio &&
    avg * |g.records| as real == DurationSum(g.records) &&
    prob * |g.records| as real == SatCount(g.records) as real && 0.0 <= prob <= 1.0
  }

  /**
   * calculate_metrics: one entry per group, index-aligned, each the group's
   * ratio, mean duration and fraction of satisfiable records. Groups are
   * never empty, as group_by_ratio builds them.
   */
  method CalculateMetrics(gs: seq<Group>) returns (ratios: seq<real>, avgDurations: seq<real>, satProbs: seq<real>)
    requires forall j :: 0 <= j < |gs| ==> gs[j].records != []
    ensures |ratios| == |gs| && |avgDurations| == |gs| && |satProbs| == |gs|
    ensures forall j :: 0 <= j < |gs| ==> Summarises(gs[j], ratios[j], avgDurations[j], satProbs[j])
  {
    ratios, avgDurations, satProbs := [], [], [];
    for j := 0 to |gs|
      invariant |ratios| == j && |avgDurations| == j && |satProbs| == j
      invariant forall j' :: 0 <= j' < j ==> Summarises(gs[j'], ratios[j'], avgDurations[j'], satProbs[j'])
    {
      var records := gs[j].records;
      var size := |records| as real;
      var avg := DurationSum(records) / size;
      var prob := SatCount(records) as real / size;
      FractionBounds(SatCount(records) as real, size);
      assert Summarises(gs[j], gs[j].ratio, avg, prob);
      ratios := ratios + [gs[j].ratio];
      avgDurations := avgDurations + [avg];
      satProbs := satProbs + [prob];
    }
  }

  /** Multiplying by a positive factor preserves and reflects order. */
  lemma MulLeCancel(n: real, x: real, y: real)
    requires n > 0.0 && n * x <= n * y
    ensures x <= y
  {
    var d := y - x;
    assert n * d == n * y - n * x;
    assert d == (n * d) / n;
  }

  /** A count out of a positive total is a fraction in [0, 1]. */
  lemma FractionBounds(c: real, n: real)
    requires 0.0 <= c <= n && n > 0.0
    ensures 0.0 <= c / n <= 1.0
  {
    MulLeCancel(n, c / n, 1.0);
  }

  /** A mean computed by calculate_metrics lies between the group's least and greatest duration. */
  lemma MeanBetween(records: seq<Record>, avg: real, lo: real, hi: real)
    requires records != [] && avg * |records| as real == DurationSum(records)
    requires forall x :: x in records ==> lo <= x.duration <= hi
    ensures lo <= avg <= hi
  {
    DurationSumBounds(records, lo, hi);
    var n := |records| as real;
    assert n * avg == avg * n == DurationSum(records);
    MulLeCancel(n, lo, avg);
    MulLeCancel(n, avg, hi);
  }
}
