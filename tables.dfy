/**
 * Frequency tables: a latency value mapped to the number of observations at that
 * value, the `defaultdict(int)` that `parse_hdr_txt` builds and that the memtier
 * aggregator merges across client logs. Latency values are the keys, read as reals.
 */
module Tables {
  import opened Sorting

  type Table = map<real, int>

  /** Reading a `defaultdict(int)`: an absent value counts 0. */
  function Count(t: Table, v: real): int {
    if v in t then t[v] else 0
  }

  /** `t[v] += d` on a `defaultdict(int)`: the key is created even when `d` is 0. */
  function AddCount(t: Table, v: real, d: int): (r: Table)
    ensures r.Keys == t.Keys + {v}
    ensures Count(r, v) == Count(t, v) + d
    ensures forall k :: k != v ==> Count(r, k) == Count(t, k)
  {
    t[v := Count(t, v) + d]
  }

  ghost predicate NonNegative(t: Table) {
    forall k :: k in t ==> t[k] >= 0
  }

  /** The sum of the counts of the values in `s`. */
  ghost function SumOver(t: Table, s: set<real>): int
    decreases s
  {
    if s == {} then 0
    else
      NonEmptyReals(s);
      var k :| k in s; Count(t, k) + SumOver(t, s - {k})
  }

  /** The number of observations a table holds. */
  ghost function Total(t: Table): int {
    SumOver(t, t.Keys)
  }

  ghost function AtMost(t: Table, v: real): set<real> {
    set k | k in t.Keys && k <= v
  }

  /** The cumulative count at `v`: the observations at values up to and including `v`. */
  ghost function Cum(t: Table, v: real): int {
    SumOver(t, AtMost(t, v))
  }

  lemma {:induction false} SumOverRemove(t: Table, s: set<real>, y: real)
    requires y in s
    ensures SumOver(t, s) == Count(t, y) + SumOver(t, s - {y})
    decreases s
  {
    var k :| k in s && SumOver(t, s) == Count(t, k) + SumOver(t, s - {k});
    if k != y {
      SumOverRemove(t, s - {k}, y);
      SumOverRemove(t, s - {y}, k);
      assert s - {k} - {y} == s - {y} - {k};
    }
  }

  lemma {:induction false} SumOverCongruent(a: Table, b: Table, s: set<real>)
    requires forall k :: k in s ==> Count(a, k) == Count(b, k)
    ensures SumOver(a, s) == SumOver(b, s)
    decreases s
  {
    if s != {} {
      NonEmptyReals(s);
      var y :| y in s;
      SumOverRemove(a, s, y);
      SumOverRemove(b, s, y);
      SumOverCongruent(a, b, s - {y});
    }
  }

  lemma {:induction false} SumOverLinear(a: Table, b: Table, c: Table, s: set<real>)
    requires forall k :: k in s ==> Count(c, k) == Count(a, k) + Count(b, k)
    ensures SumOver(c, s) == SumOver(a, s) + SumOver(b, s)
    decreases s
  {
    if s != {} {
      NonEmptyReals(s);
      var y :| y in s;
      SumOverRemove(a, s, y);
      SumOverRemove(b, s, y);
      SumOverRemove(c, s, y);
      SumOverLinear(a, b, c, s - {y});
    }
  }

  /** Values the table does not hold add nothing to a sum. */
  lemma {:induction false} SumOverAbsent(t: Table, s: set<real>, e: set<real>)
    requires forall k :: k in e ==> k !in t
    ensures SumOver(t, s + e) == SumOver(t, s - e)
    decreases e
  {
    if e != {} {
      NonEmptyReals(e);
      var y :| y in e;
      if y in s {
        SumOverRemove(t, s + e, y);
        assert (s + e) - {y} == (s - {y}) + (e - {y});
        SumOverAbsent(t, s - {y}, e - {y});
        assert (s - {y}) - (e - {y}) == s - e;
      } else {
        SumOverRemove(t, s + e, y);
        assert (s + e) - {y} == s + (e - {y});
        SumOverAbsent(t, s, e - {y});
        assert s - (e - {y}) == s - e;
      }
    } else {
      assert s + e == s - e;
    }
  }

  lemma {:induction false} SumOverNonNegative(t: Table, s: set<real>)
    requires NonNegative(t)
    ensures SumOver(t, s) >= 0
    decreases s
  {
    if s != {} {
      NonEmptyReals(s);
      var y :| y in s;
      SumOverRemove(t, s, y);
      SumOverNonNegative(t, s - {y});
    }
  }

  /** Adding `d` observations at one value adds `d` to the total. */
  lemma TotalAddCount(t: Table, v: real, d: int)
    ensures Total(AddCount(t, v, d)) == Total(t) + d
  {
    var r := AddCount(t, v, d);
    if v in t {
      assert r.Keys == t.Keys;
      SumOverRemove(r, r.Keys, v);
      SumOverRemove(t, t.Keys, v);
      SumOverCongruent(r, t, t.Keys - {v});
    } else {
      SumOverRemove(r, r.Keys, v);
      assert r.Keys - {v} == t.Keys;
      SumOverCongruent(r, t, t.Keys);
    }
  }

  lemma TotalNonNegative(t: Table)
    requires NonNegative(t)
    ensures Total(t) >= 0
  {
    SumOverNonNegative(t, t.Keys);
  }

  /** `merged_counts[v] += c` for every item of `b`: the value-wise sum of two tables. */
  function Merge(a: Table, b: Table): (r: Table)
    ensures r.Keys == a.Keys + b.Keys
    ensures forall k :: Count(r, k) == Count(a, k) + Count(b, k)
  {
    map k | k in a.Keys + b.Keys :: Count(a, k) + Count(b, k)
  }

  /** The tables merged one after the other, starting from an empty table. */
  function MergeAll(ts: seq<Table>): Table
    decreases |ts|
  {
    if ts == [] then map[] else Merge(MergeAll(ts[..|ts| - 1]), ts[|ts| - 1])
  }

  /** The count of `v` summed over a list of tables. */
  function CountSum(ts: seq<Table>, v: real): int
    decreases |ts|
  {
    if ts == [] then 0 else CountSum(ts[..|ts| - 1], v) + Count(ts[|ts| - 1], v)
  }

  lemma MergeCommutes(a: Table, b: Table)
    ensures Merge(a, b) == Merge(b, a)
  {
    assert Merge(a, b).Keys == Merge(b, a).Keys;
  }

  lemma MergeAssociates(a: Table, b: Table, c: Table)
    ensures Merge(Merge(a, b), c) == Merge(a, Merge(b, c))
  {
    var l, r := Merge(Merge(a, b), c), Merge(a, Merge(b, c));
    assert l.Keys == r.Keys;
    forall k | k in l ensures l[k] == r[k] {
      assert Count(l, k) == Count(r, k);
    }
  }

  lemma MergeEmpty(t: Table)
    ensures Merge(map[], t) == t && Merge(t, map[]) == t
  {
    var l := Merge(map[], t);
    assert l.Keys == t.Keys;
    forall k | k in l ensures l[k] == t[k] {
      assert Count(l, k) == Count(t, k);
    }
    MergeCommutes(t, map[]);
  }

  /** The merged table holds, at every value, the sum of that value's counts over all the tables. */
  lemma {:induction false} MergeAllCounts(ts: seq<Table>, v: real)
    ensures Count(MergeAll(ts), v) == CountSum(ts, v)
    ensures v in MergeAll(ts) <==> exists i :: 0 <= i < |ts| && v in ts[i]
    decreases |ts|
  {
    if ts != [] {
      var init := ts[..|ts| - 1];
      MergeAllCounts(init, v);
      assert forall i :: 0 <= i < |init| ==> init[i] == ts[i];
      if v in MergeAll(init) {
        var i :| 0 <= i < |init| && v in init[i];
        assert v in ts[i];
      }
    }
  }

  lemma {:induction false} MergeAllAppend(xs: seq<Table>, ys: seq<Table>)
    ensures MergeAll(xs + ys) == Merge(MergeAll(xs), MergeAll(ys))
    decreases |ys|
  {
    if ys == [] {
      assert xs + ys == xs;
      MergeEmpty(MergeAll(xs));
    } else {
      var init := ys[..|ys| - 1];
      assert (xs + ys)[..|xs + ys| - 1] == xs + init;
      MergeAllAppend(xs, init);
      MergeAssociates(MergeAll(xs), MergeAll(init), ys[|ys| - 1]);
    }
  }

  /** A table in the middle of the list can be merged last instead. */
  lemma MergeAllMoveLast(before: seq<Table>, x: Table, after: seq<Table>)
    ensures MergeAll(before + [x] + after) == Merge(MergeAll(before + after), x)
  {
    MergeAllAppend(before + [x], after);
    assert (before + [x])[..|before|] == before;
    MergeAllAppend(before, after);
    var p, s := MergeAll(before), MergeAll(after);
    calc {
      MergeAll(before + [x] + after);
      Merge(Merge(p, x), s);
      { MergeAssociates(p, x, s); MergeCommutes(x, s); }
      Merge(p, Merge(s, x));
      { MergeAssociates(p, s, x); }
      Merge(Merge(p, s), x);
    }
  }

  lemma MultisetRemoveAt<T>(ys: seq<T>, j: nat)
    requires j < |ys|
    ensures ys == ys[..j] + [ys[j]] + ys[j + 1..]
    ensures multiset(ys[..j] + ys[j + 1..]) == multiset(ys) - multiset{ys[j]}
  {
    assert ys == ys[..j] + [ys[j]] + ys[j + 1..];
    assert multiset(ys) == multiset(ys[..j]) + multiset{ys[j]} + multiset(ys[j + 1..]);
  }

  /** Merging is insensitive to the order of the tables: any permutation gives the same table. */
  lemma {:induction false} MergeAllPermutation(xs: seq<Table>, ys: seq<Table>)
    requires multiset(xs) == multiset(ys)
    ensures MergeAll(xs) == MergeAll(ys)
    decreases |xs|
  {
    if xs == [] {
      assert |ys| == |multiset(ys)| == 0;
    } else {
      var n := |xs| - 1;
      var x := xs[n];
      MultisetRemoveAt(xs, n);
      assert xs[..n] + xs[n + 1..] == xs[..n];
      assert x in multiset(ys);
      var j :| 0 <= j < |ys| && ys[j] == x;
      MultisetRemoveAt(ys, j);
      MergeAllPermutation(xs[..n], ys[..j] + ys[j + 1..]);
      MergeAllMoveLast(ys[..j], x, ys[j + 1..]);
    }
  }

  /** The total of a merge is the sum of the totals. */
  lemma TotalMerge(a: Table, b: Table)
    ensures Total(Merge(a, b)) == Total(a) + Total(b)
  {
    var m := Merge(a, b);
    SumOverLinear(a, b, m, m.Keys);
    SumOverAbsent(a, a.Keys, b.Keys - a.Keys);
    assert a.Keys + (b.Keys - a.Keys) == m.Keys;
    assert a.Keys - (b.Keys - a.Keys) == a.Keys;
    SumOverAbsent(b, b.Keys, a.Keys - b.Keys);
    assert b.Keys + (a.Keys - b.Keys) == m.Keys;
    assert b.Keys - (a.Keys - b.Keys) == b.Keys;
  }

  lemma MergeNonNegative(a: Table, b: Table)
    requires NonNegative(a) && NonNegative(b)
    ensures NonNegative(Merge(a, b))
  {
    var m := Merge(a, b);
    forall k | k in m ensures m[k] >= 0 {
      assert Count(m, k) == Count(a, k) + Count(b, k);
    }
  }

  lemma {:induction false} MergeAllNonNegative(ts: seq<Table>)
    requires forall i :: 0 <= i < |ts| ==> NonNegative(ts[i])
    ensures NonNegative(MergeAll(ts))
    decreases |ts|
  {
    if ts != [] {
      MergeAllNonNegative(ts[..|ts| - 1]);
      MergeNonNegative(MergeAll(ts[..|ts| - 1]), ts[|ts| - 1]);
    }
  }
}
