/**
 * `quantile_from_counts`: the count-weighted order statistic of a frequency
 * table, found by walking the values in ascending order until the running count
 * reaches `ceil(q * total)`.
 */
module Quantiles {
  import opened Wrappers
  import opened Numbers
  import opened Sorting
  import opened Tables

  /** The counts of the values of `ks`, added up in order. */
  function SumSeq(t: Table, ks: seq<real>): int
    decreases |ks|
  {
    if ks == [] then 0 else SumSeq(t, ks[..|ks| - 1]) + Count(t, ks[|ks| - 1])
  }

  ghost function Elems(ks: seq<real>): set<real> {
    set k | k in ks
  }

  /** `math.ceil(q * total)`: the running count the walk must reach. */
  function Target(q: real, total: int): (r: int)
    ensures q * total as real <= r as real < q * total as real + 1.0
  {
    Ceil(q * total as real)
  }

  /** The values whose cumulative count reaches `target`. */
  ghost function Meeting(t: Table, target: int): set<real> {
    set k | k in t.Keys && Cum(t, k) >= target
  }

  /** The least value reaching `target`, or the largest value when none does. */
  ghost function FirstReaching(t: Table, target: int): real
    requires t != map[]
  {
    var meet := Meeting(t, target);
    if meet == {} then MaxReal(t.Keys) else MinReal(meet)
  }

  /**
   * The specification of the walk: no answer for an empty table or one whose counts
   * add up to 0; otherwise the least value whose cumulative count reaches the target
   * `ceil(q * total)`, or the largest value when none does.
   */
  ghost function QuantileOf(t: Table, q: real): Option<real> {
    if t == map[] || Total(t) == 0 then None
    else Some(FirstReaching(t, Target(q, Total(t))))
  }

  /** Over distinct values, the ordered running sum is the sum over the set of those values. */
  lemma {:induction false} SumSeqIsSumOver(t: Table, ks: seq<real>)
    requires StrictlyIncreasing(ks)
    ensures SumSeq(t, ks) == SumOver(t, Elems(ks))
    decreases |ks|
  {
    if ks != [] {
      var n := |ks| - 1;
      var init := ks[..n];
      assert StrictlyIncreasing(init);
      SumSeqIsSumOver(t, init);
      SumOverRemove(t, Elems(ks), ks[n]);
      ElemsDropLast(ks);
    }
  }

  /** Removing the last of strictly increasing values leaves the values before it. */
  lemma ElemsDropLast(ks: seq<real>)
    requires StrictlyIncreasing(ks) && ks != []
    ensures Elems(ks) - {ks[|ks| - 1]} == Elems(ks[..|ks| - 1])
  {
    var n := |ks| - 1;
    var init := ks[..n];
    forall k ensures k in Elems(ks) - {ks[n]} <==> k in Elems(init) {
      if k in Elems(ks) - {ks[n]} {
        var j :| 0 <= j < |ks| && ks[j] == k;
        assert j < n && init[j] == k;
      }
      if k in Elems(init) {
        var j :| 0 <= j < n && init[j] == k;
        assert ks[j] == k && ks[j] < ks[n];
      }
    }
  }

  /**
   * When `ks` lists the values of `t` in ascending order, the values up to `ks[i]`
   * are the first `i + 1` of them.
   */
  lemma AtMostPrefix(t: Table, ks: seq<real>, i: nat)
    requires StrictlyIncreasing(ks) && (forall k :: k in ks <==> k in t) && i < |ks|
    ensures AtMost(t, ks[i]) == Elems(ks[..i + 1])
  {
    forall k ensures k in AtMost(t, ks[i]) <==> k in Elems(ks[..i + 1]) {
      if k in AtMost(t, ks[i]) {
        var j :| 0 <= j < |ks| && ks[j] == k;
        assert j <= i;
        assert ks[..i + 1][j] == k;
      }
      if k in Elems(ks[..i + 1]) {
        var j :| 0 <= j < i + 1 && ks[..i + 1][j] == k;
        assert ks[j] == k;
      }
    }
  }

  /** The cumulative count at `ks[i]` is the running sum through position `i`. */
  lemma CumIsRunningSum(t: Table, ks: seq<real>, i: nat)
    requires StrictlyIncreasing(ks) && (forall k :: k in ks <==> k in t) && i < |ks|
    ensures Cum(t, ks[i]) == SumSeq(t, ks[..i + 1])
  {
    AtMostPrefix(t, ks, i);
    assert StrictlyIncreasing(ks[..i + 1]);
    SumSeqIsSumOver(t, ks[..i + 1]);
  }

  /** The running sum over all the values is the table's total. */
  lemma TotalIsSum(t: Table, ks: seq<real>)
    requires StrictlyIncreasing(ks) && (forall k :: k in ks <==> k in t)
    ensures Total(t) == SumSeq(t, ks)
  {
    SumSeqIsSumOver(t, ks);
    assert Elems(ks) == t.Keys;
  }

  /** Extending the running sum by one position adds that value's count. */
  lemma SumSeqStep(t: Table, ks: seq<real>, i: nat)
    requires i < |ks|
    ensures SumSeq(t, ks[..i + 1]) == SumSeq(t, ks[..i]) + Count(t, ks[i])
  {
    assert ks[..i + 1][..i] == ks[..i];
  }

  /** The last of the ascending values is the largest value of the table. */
  lemma LastIsMax(t: Table, ks: seq<real>)
    requires StrictlyIncreasing(ks) && (forall k :: k in ks <==> k in t) && t != map[]
    ensures ks != [] && MaxReal(t.Keys) == ks[|ks| - 1]
  {
    var m := MaxReal(t.Keys);
    var j :| 0 <= j < |ks| && ks[j] == m;
    assert ks[|ks| - 1] in t.Keys;
  }

  /** `sum(c for _, c in items)`: the table's total, added up over its sorted values. */
  method SumCounts(t: Table, ks: seq<real>) returns (total: int)
    requires StrictlyIncreasing(ks) && (forall k :: k in ks <==> k in t)
    ensures total == Total(t)
  {
    total := 0;
    var i := 0;
    while i < |ks|
      invariant i <= |ks|
      invariant total == SumSeq(t, ks[..i])
    {
      SumSeqStep(t, ks, i);
      total := total + t[ks[i]];
      i := i + 1;
    }
    assert ks[..|ks|] == ks;
    TotalIsSum(t, ks);
  }

  /**
   * The walk over the sorted values: the running count is advanced value by value
   * and the first value at which it reaches `target` is returned, the last value
   * when the walk runs out.
   */
  method Walk(t: Table, ks: seq<real>, target: int) returns (v: real)
    requires StrictlyIncreasing(ks) && (forall k :: k in ks <==> k in t) && t != map[]
    ensures v == FirstReaching(t, target)
  {
    LastIsMax(t, ks);
    ghost var meet := Meeting(t, target);
    var run := 0;
    var i := 0;
    while i < |ks|
      invariant i <= |ks|
      invariant run == SumSeq(t, ks[..i])
      invariant forall j :: 0 <= j < i ==> ks[j] !in meet
    {
      SumSeqStep(t, ks, i);
      CumIsRunningSum(t, ks, i);
      run := run + t[ks[i]];
      if run >= target {
        assert ks[i] in meet;
        forall k | k in meet ensures ks[i] <= k {
          var j :| 0 <= j < |ks| && ks[j] == k;
          if j < i {
            assert false;
          }
        }
        return ks[i];
      }
      i := i + 1;
    }
    forall k | k in t.Keys ensures k !in meet {
      var j :| 0 <= j < |ks| && ks[j] == k;
    }
    assert meet == {};
    return ks[|ks| - 1];
  }

  /**
   * `quantile_from_counts(counts, q)`: no answer for an empty table or a zero
   * total, otherwise the walk towards `ceil(q * total)`.
   */
  method Quantile(t: Table, q: real) returns (r: Option<real>)
    ensures r == QuantileOf(t, q)
  {
    if t == map[] {
      assert QuantileOf(t, q) == None;
      return None;
    }
    var ks := SortedReals(t.Keys);
    var total := SumCounts(t, ks);
    if total == 0 {
      assert QuantileOf(t, q) == None;
      return None;
    }
    var v := Walk(t, ks, Target(q, total));
    QuantileUnfold(t, q);
    return Some(v);
  }

  /** The walk has an answer exactly when the table is non-empty and its counts do not add up to 0. */
  lemma QuantileNone(t: Table, q: real)
    ensures QuantileOf(t, q).None? <==> (t == map[] || Total(t) == 0)
  {
  }

  /** The answer is always one of the table's values, between its smallest and its largest. */
  lemma QuantileInTable(t: Table, q: real)
    requires QuantileOf(t, q).Some?
    ensures QuantileOf(t, q).value in t
    ensures MinReal(t.Keys) <= QuantileOf(t, q).value <= MaxReal(t.Keys)
  {
  }

  /** The cumulative count at the largest value is the table's total. */
  lemma CumAtMax(t: Table)
    requires t != map[]
    ensures Cum(t, MaxReal(t.Keys)) == Total(t)
  {
    assert AtMost(t, MaxReal(t.Keys)) == t.Keys;
  }

  /** A higher target is reached by fewer values, so its first value is no smaller. */
  lemma FirstReachingMonotone(t: Table, a: int, b: int)
    requires t != map[] && a <= b
    ensures FirstReaching(t, a) <= FirstReaching(t, b)
  {
    var ma, mb := Meeting(t, a), Meeting(t, b);
    assert mb <= ma;
    if mb != {} {
      assert MinReal(mb) in ma;
    }
  }

  /** When the largest value reaches the target, the first value reaching it is the least such value. */
  lemma FirstReachingIsLeast(t: Table, target: int)
    requires t != map[] && Cum(t, MaxReal(t.Keys)) >= target
    ensures var v := FirstReaching(t, target);
      v in t && Cum(t, v) >= target &&
      forall k :: k in t && k < v ==> Cum(t, k) < target
  {
    var meet := Meeting(t, target);
    assert MaxReal(t.Keys) in meet;
    var v := MinReal(meet);
    forall k | k in t && k < v ensures Cum(t, k) < target {
      assert k in meet ==> v <= k;
    }
  }

  /** The target `ceil(q * total)` grows with `q` when the total is not negative. */
  lemma TargetMonotone(q1: real, q2: real, total: int)
    requires q1 <= q2 && 0 <= total
    ensures Target(q1, total) <= Target(q2, total)
  {
    var x1, x2 := q1 * total as real, q2 * total as real;
    assert x2 - x1 == (q2 - q1) * total as real;
    CeilMonotone(x1, x2);
  }

  /** With `q <= 1` the target never exceeds a non-negative total. */
  lemma TargetAtMostTotal(q: real, total: int)
    requires q <= 1.0 && 0 <= total
    ensures Target(q, total) <= total
  {
    TargetMonotone(q, 1.0, total);
    assert 1.0 * total as real == total as real;
  }

  lemma QuantileUnfold(t: Table, q: real)
    requires t != map[] && Total(t) != 0
    ensures QuantileOf(t, q) == Some(FirstReaching(t, Target(q, Total(t))))
  {
  }

  /**
   * With non-negative counts, a positive total and `q <= 1`, the answer is the
   * least value whose cumulative count reaches `ceil(q * total)`: it reaches the
   * target, and no smaller value of the table does.
   */
  lemma QuantileIsLeast(t: Table, q: real)
    requires NonNegative(t) && q <= 1.0
    requires t != map[] && Total(t) != 0
    ensures QuantileOf(t, q).Some?
    ensures var v := QuantileOf(t, q).value; var target := Target(q, Total(t));
      v in t && Cum(t, v) >= target &&
      forall k :: k in t && k < v ==> Cum(t, k) < target
  {
    var target := Target(q, Total(t));
    assert Cum(t, MaxReal(t.Keys)) >= target by {
      TotalNonNegative(t);
      TargetAtMostTotal(q, Total(t));
      CumAtMax(t);
    }
    FirstReachingIsLeast(t, target);
    QuantileUnfold(t, q);
  }

  /** With non-negative counts, a larger `q` never gives a smaller answer. */
  lemma QuantileMonotone(t: Table, q1: real, q2: real)
    requires NonNegative(t) && q1 <= q2
    requires t != map[] && Total(t) != 0
    ensures QuantileOf(t, q1).Some? && QuantileOf(t, q2).Some?
    ensures QuantileOf(t, q1).value <= QuantileOf(t, q2).value
  {
    TotalNonNegative(t);
    TargetMonotone(q1, q2, Total(t));
    FirstReachingMonotone(t, Target(q1, Total(t)), Target(q2, Total(t)));
    QuantileUnfold(t, q1);
    QuantileUnfold(t, q2);
  }

  /**
   * Merging the per-file tables in any order gives the same quantiles: the answer
   * depends only on which tables were merged.
   */
  lemma QuantileOrderIndependent(xs: seq<Table>, ys: seq<Table>, q: real)
    requires multiset(xs) == multiset(ys)
    ensures QuantileOf(MergeAll(xs), q) == QuantileOf(MergeAll(ys), q)
  {
    MergeAllPermutation(xs, ys);
  }
}
