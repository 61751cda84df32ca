/**
 * The per-client parsers of the memtier aggregator and the accumulation over one
 * `qps_*` directory: operation and miss totals from the client logs, the maxima of
 * the FULL_RUN percentiles, and the value-wise merge of the HdrHistogram exports,
 * from which the reported percentiles are read.
 */
module MemtierResults {
  import opened Wrappers
  import opened Text
  import opened Tables
  import opened HdrHistogram
  import opened Quantiles

  /** `PCTS`: the percentiles the report carries. */
  const Pcts: seq<int> := [50, 90, 95, 99]

  /** A dictionary from each of the report's percentiles to a value or `None`. */
  type PctMap = map<int, Option<real>>

  ghost predicate IsPctMap(m: PctMap) {
    forall p :: p in m <==> p in Pcts
  }

  /** `{p: None for p in PCTS}`. */
  function NoPcts(): (m: PctMap)
    ensures IsPctMap(m) && forall p :: p in m ==> m[p].None?
  {
    map p | p in Pcts :: None
  }

  // ----- parse_log_ops -----

  /** The ops/sec a line gives: the second field of a line starting with `Totals`, when it parses. */
  function TotalsOps(num: string -> Option<real>, line: string): Option<real> {
    var parts := Words(line);
    if StartsWith(line, "Totals") && |parts| >= 2 then num(parts[1]) else None
  }

  /**
   * The miss count a line gives: on a line mentioning `Misses` and holding a `=`,
   * the first field of the text between the first `=` and the next, when there is
   * one and it parses.
   */
  function MissCount(num: string -> Option<real>, line: string): Option<real> {
    if Contains(line, "Misses") && '=' in line then
      var fields := Words(SplitChar(line, '=')[1]);
      if fields == [] then None else num(fields[0])
    else None
  }

  function OpsOf(num: string -> Option<real>): string -> Option<real> {
    (line: string) => TotalsOps(num, line)
  }

  function MissesOf(num: string -> Option<real>): string -> Option<real> {
    (line: string) => MissCount(num, line)
  }

  /**
   * `parse_log_ops`: each line that yields a value overwrites the previous one, so
   * the results are those of the last `Totals` line and the last `Misses` line that
   * parse, or `None`.
   */
  method ParseLogOps(lines: seq<string>, num: string -> Option<real>) returns (ops: Option<real>, misses: Option<real>)
    ensures ops == LastBy(lines, OpsOf(num))
    ensures misses == LastBy(lines, MissesOf(num))
  {
    ops, misses := None, None;
    for i := 0 to |lines|
      invariant ops == LastBy(lines[..i], OpsOf(num))
      invariant misses == LastBy(lines[..i], MissesOf(num))
    {
      assert lines[..i + 1][..i] == lines[..i];
      var line := lines[i];
      var o := TotalsOps(num, line);
      if o.Some? {
        ops := o;
      }
      var m := MissCount(num, line);
      if m.Some? {
        misses := m;
      }
    }
    assert lines[..|lines|] == lines;
  }

  // ----- parse_full_run -----

  /**
   * The (percentile, value) pair a FULL_RUN line gives: none for a blank line, a
   * `#` comment, a line with fewer than two fields or one whose first two fields do
   * not both parse.
   */
  function FullRunEntry(num: string -> Option<real>, line: string): Option<(real, real)> {
    var s := Strip(line);
    if s == [] || StartsWith(s, "#") then None
    else
      var parts := ReSplit(s);
      if |parts| < 2 then None
      else
        match (num(parts[0]), num(parts[1]))
        case (Some(p), Some(v)) => Some((p, v))
        case _ => None
  }

  /** The value a FULL_RUN line gives for percentile `pct`. */
  function PctValue(num: string -> Option<real>, pct: int, line: string): Option<real> {
    match FullRunEntry(num, line)
    case Some((p, v)) => if p == pct as real then Some(v) else None
    case None => None
  }

  function PctValueOf(num: string -> Option<real>, pct: int): string -> Option<real> {
    (line: string) => PctValue(num, pct, line)
  }

  /** One line of `parse_full_run`: the percentile it names, when it is one of `PCTS`, takes its value. */
  lemma FullRunStep(num: string -> Option<real>, lines: seq<string>, i: nat, vals: PctMap, vals': PctMap)
    requires i < |lines| && IsPctMap(vals)
    requires forall p :: p in Pcts ==> vals[p] == LastBy(lines[..i], PctValueOf(num, p))
    requires var e := FullRunEntry(num, lines[i]);
      vals' == if e.Some? && e.value.0.Floor as real == e.value.0 && e.value.0.Floor in vals
        then vals[e.value.0.Floor := Some(e.value.1)] else vals
    ensures IsPctMap(vals')
    ensures forall p :: p in Pcts ==> vals'[p] == LastBy(lines[..i + 1], PctValueOf(num, p))
  {
    assert lines[..i + 1][..i] == lines[..i];
    forall p | p in Pcts ensures vals'[p] == LastBy(lines[..i + 1], PctValueOf(num, p)) {
      assert lines[..i + 1][i] == lines[i];
    }
  }

  /**
   * `parse_full_run`: for each of `PCTS`, the value of the last line naming that
   * percentile, or `None`.
   */
  method ParseFullRun(lines: seq<string>, num: string -> Option<real>) returns (vals: PctMap)
    ensures IsPctMap(vals)
    ensures forall p :: p in Pcts ==> vals[p] == LastBy(lines, PctValueOf(num, p))
  {
    vals := NoPcts();
    for i := 0 to |lines|
      invariant IsPctMap(vals)
      invariant forall p :: p in Pcts ==> vals[p] == LastBy(lines[..i], PctValueOf(num, p))
    {
      var e := FullRunEntry(num, lines[i]);
      ghost var before := vals;
      if e.Some? {
        var (p, v) := e.value;
        var k := p.Floor;
        if k as real == p && k in vals {
          vals := vals[k := Some(v)];
        }
      }
      FullRunStep(num, lines, i, before, vals);
    }
    assert lines[..|lines|] == lines;
  }

  // ----- one qps_* directory -----

  /**
   * The files read for one client log: the log's lines, the lines of its
   * `<base>_FULL_RUN.txt` when that file exists, and the texts of its
   * `<base>_FULL_RUN_*.txt` histogram exports.
   */
  datatype ClientLog = ClientLog(log: seq<string>, fullRun: Option<seq<string>>, hdrs: seq<string>)

  /** The report row of one `qps_*` directory (latencies before the output scaling). */
  datatype GroupRow = GroupRow(rate: string, qps: Option<real>, pcts: PctMap, misses: Option<real>)

  /** `x if x else None`. */
  function NonZero(x: real): (r: Option<real>)
    ensures r.None? <==> x == 0.0
    ensures r.Some? ==> r.value == x
  {
    if x == 0.0 then None else Some(x)
  }

  function OpsSum(logs: seq<ClientLog>, num: string -> Option<real>): real
    decreases |logs|
  {
    if logs == [] then 0.0
    else OpsSum(logs[..|logs| - 1], num) + LastBy(logs[|logs| - 1].log, OpsOf(num)).GetOr(0.0)
  }

  function MissesSum(logs: seq<ClientLog>, num: string -> Option<real>): real
    decreases |logs|
  {
    if logs == [] then 0.0
    else MissesSum(logs[..|logs| - 1], num) + LastBy(logs[|logs| - 1].log, MissesOf(num)).GetOr(0.0)
  }

  /** The table of each histogram export, in the order given. */
  function HdrTables(hdrs: seq<string>, num: string -> Option<real>): (ts: seq<Table>)
    ensures |ts| == |hdrs|
  {
    seq(|hdrs|, k requires 0 <= k < |hdrs| => TableOf(Rows(Words(hdrs[k]), num)))
  }

  /** The tables of every export of every client log of the directory, in order. */
  function GroupTables(logs: seq<ClientLog>, num: string -> Option<real>): seq<Table>
    decreases |logs|
  {
    if logs == [] then []
    else GroupTables(logs[..|logs| - 1], num) + HdrTables(logs[|logs| - 1].hdrs, num)
  }

  /** The percentile `p` of one client's FULL_RUN file, `None` when it has none. */
  function FullRunPct(c: ClientLog, num: string -> Option<real>, p: int): Option<real> {
    match c.fullRun
    case None => None
    case Some(lines) => LastBy(lines, PctValueOf(num, p))
  }

  /** The update of `pct_max[p]` by a file's value: taken when there was none or it is larger. */
  function MaxOpt(acc: Option<real>, x: Option<real>): Option<real> {
    match x
    case None => acc
    case Some(v) => if acc.None? || v > acc.value then x else acc
  }

  /** `pct_max[p]` after the given client logs. */
  function PctMaxOf(logs: seq<ClientLog>, num: string -> Option<real>, p: int): Option<real>
    decreases |logs|
  {
    if logs == [] then None
    else MaxOpt(PctMaxOf(logs[..|logs| - 1], num, p), FullRunPct(logs[|logs| - 1], num, p))
  }

  /** One update keeps the larger of the two values and is `None` only when both are. */
  lemma MaxOptBounds(acc: Option<real>, x: Option<real>)
    ensures MaxOpt(acc, x).None? <==> acc.None? && x.None?
    ensures MaxOpt(acc, x).Some? ==> MaxOpt(acc, x) == acc || MaxOpt(acc, x) == x
    ensures acc.Some? ==> acc.value <= MaxOpt(acc, x).value
    ensures x.Some? ==> x.value <= MaxOpt(acc, x).value
  {
  }

  /** The running maximum of a list of optional values, as `pct_max[p]` is folded. */
  function MaxAll(vs: seq<Option<real>>): Option<real>
    decreases |vs|
  {
    if vs == [] then None else MaxOpt(MaxAll(vs[..|vs| - 1]), vs[|vs| - 1])
  }

  /** The folded maximum is one of the values and bounds every value; `None` when all are. */
  lemma {:induction false} MaxAllIsMax(vs: seq<Option<real>>)
    ensures MaxAll(vs).None? <==> forall i :: 0 <= i < |vs| ==> vs[i].None?
    ensures MaxAll(vs).Some? ==>
      (exists i :: 0 <= i < |vs| && vs[i] == MaxAll(vs)) &&
      forall i :: 0 <= i < |vs| && vs[i].Some? ==> vs[i].value <= MaxAll(vs).value
    decreases |vs|
  {
    if vs != [] {
      var n := |vs| - 1;
      var init := vs[..n];
      MaxAllIsMax(init);
      var acc, x := MaxAll(init), vs[n];
      MaxOptBounds(acc, x);
      assert forall i :: 0 <= i < n ==> init[i] == vs[i];
      if MaxAll(vs).Some? && MaxAll(vs) != x {
        var i :| 0 <= i < n && init[i] == acc;
        assert vs[i] == MaxAll(vs);
      }
    }
  }

  /** The percentile-`p` values of the files, one per client log. */
  function FullRunPcts(logs: seq<ClientLog>, num: string -> Option<real>, p: int): (vs: seq<Option<real>>)
    ensures |vs| == |logs| && forall i :: 0 <= i < |logs| ==> vs[i] == FullRunPct(logs[i], num, p)
  {
    seq(|logs|, i requires 0 <= i < |logs| => FullRunPct(logs[i], num, p))
  }

  /** `pct_max[p]` is the fold of the files' values in directory order. */
  lemma {:induction false} PctMaxIsMaxAll(logs: seq<ClientLog>, num: string -> Option<real>, p: int)
    ensures PctMaxOf(logs, num, p) == MaxAll(FullRunPcts(logs, num, p))
    decreases |logs|
  {
    if logs != [] {
      var n := |logs| - 1;
      PctMaxIsMaxAll(logs[..n], num, p);
      assert FullRunPcts(logs, num, p)[..n] == FullRunPcts(logs[..n], num, p);
    }
  }

  /** `pct_max[p]` is the largest percentile-`p` value over the files, `None` when no file has one. */
  lemma PctMaxIsMax(logs: seq<ClientLog>, num: string -> Option<real>, p: int)
    ensures PctMaxOf(logs, num, p).None? <==>
      forall i :: 0 <= i < |logs| ==> FullRunPct(logs[i], num, p).None?
    ensures PctMaxOf(logs, num, p).Some? ==>
      (exists i :: 0 <= i < |logs| && FullRunPct(logs[i], num, p) == PctMaxOf(logs, num, p)) &&
      forall i :: 0 <= i < |logs| && FullRunPct(logs[i], num, p).Some? ==>
        FullRunPct(logs[i], num, p).value <= PctMaxOf(logs, num, p).value
  {
    var vs := FullRunPcts(logs, num, p);
    PctMaxIsMaxAll(logs, num, p);
    MaxAllIsMax(vs);
    if PctMaxOf(logs, num, p).Some? {
      var i :| 0 <= i < |vs| && vs[i] == MaxAll(vs);
      assert FullRunPct(logs[i], num, p) == PctMaxOf(logs, num, p);
    }
  }

  /** `for v, c in counts.items(): merged_counts[v] += c`. */
  method MergeInto(acc: Table, t: Table) returns (r: Table)
    ensures r == Merge(acc, t)
  {
    r := acc;
    var rest := t.Keys;
    while rest != {}
      invariant rest <= t.Keys
      invariant forall k :: k in t.Keys - rest ==> Count(r, k) == Count(acc, k) + Count(t, k)
      invariant forall k :: k !in t.Keys - rest ==> Count(r, k) == Count(acc, k)
      invariant r.Keys == acc.Keys + (t.Keys - rest)
      decreases rest
    {
      Sorting.NonEmptyReals(rest);
      var v :| v in rest;
      r := AddCount(r, v, t[v]);
      rest := rest - {v};
    }
    var m := Merge(acc, t);
    assert r.Keys == m.Keys;
    forall k | k in r ensures r[k] == m[k] {
      assert Count(r, k) == Count(m, k);
    }
  }

  /** The histogram exports of one client log are parsed and merged in turn. */
  method MergeHdrs(acc: Table, hdrs: seq<string>, num: string -> Option<real>) returns (r: Table)
    ensures r == Merge(acc, MergeAll(HdrTables(hdrs, num)))
  {
    r := acc;
    MergeEmpty(acc);
    for h := 0 to |hdrs|
      invariant r == Merge(acc, MergeAll(HdrTables(hdrs[..h], num)))
    {
      var counts, _ := ParseHdr(hdrs[h], num);
      ghost var prev := MergeAll(HdrTables(hdrs[..h], num));
      assert HdrTables(hdrs[..h + 1], num) == HdrTables(hdrs[..h], num) + [counts];
      MergeAssociates(acc, prev, counts);
      r := MergeInto(r, counts);
    }
    assert hdrs[..|hdrs|] == hdrs;
  }

  /** One FULL_RUN file raises each `pct_max[p]` to its own value where that is larger. */
  method UpdatePctMax(pctMax: PctMap, pctFr: PctMap) returns (r: PctMap)
    requires IsPctMap(pctMax) && IsPctMap(pctFr)
    ensures IsPctMap(r)
    ensures forall p :: p in Pcts ==> r[p] == MaxOpt(pctMax[p], pctFr[p])
  {
    r := pctMax;
    for j := 0 to |Pcts|
      invariant IsPctMap(r)
      invariant forall k :: 0 <= k < |Pcts| ==>
        r[Pcts[k]] == if k < j then MaxOpt(pctMax[Pcts[k]], pctFr[Pcts[k]]) else pctMax[Pcts[k]]
    {
      var p := Pcts[j];
      if pctFr[p].Some? {
        if r[p].None? || pctFr[p].value > r[p].value {
          r := r[p := pctFr[p]];
        }
      }
    }
  }

  /**
   * The loop over the client logs of one directory: the summed ops and misses,
   * the merge of every histogram export, and the FULL_RUN percentile maxima.
   */
  method AccumulateGroup(logs: seq<ClientLog>, num: string -> Option<real>)
    returns (totalOps: real, totalMisses: real, merged: Table, pctMax: PctMap)
    ensures totalOps == OpsSum(logs, num)
    ensures totalMisses == MissesSum(logs, num)
    ensures merged == MergeAll(GroupTables(logs, num))
    ensures IsPctMap(pctMax)
    ensures forall p :: p in Pcts ==> pctMax[p] == PctMaxOf(logs, num, p)
  {
    totalOps, totalMisses := 0.0, 0.0;
    merged := map[];
    pctMax := NoPcts();
    for i := 0 to |logs|
      invariant totalOps == OpsSum(logs[..i], num)
      invariant totalMisses == MissesSum(logs[..i], num)
      invariant merged == MergeAll(GroupTables(logs[..i], num))
      invariant IsPctMap(pctMax)
      invariant forall p :: p in Pcts ==> pctMax[p] == PctMaxOf(logs[..i], num, p)
    {
      var c := logs[i];
      assert logs[..i + 1][..i] == logs[..i];
      var ops, misses := ParseLogOps(c.log, num);
      if ops.Some? {
        totalOps := totalOps + ops.value;
      }
      if misses.Some? {
        totalMisses := totalMisses + misses.value;
      }
      if c.fullRun.Some? {
        var pctFr := ParseFullRun(c.fullRun.value, num);
        pctMax := UpdatePctMax(pctMax, pctFr);
      }
      MergeAllAppend(GroupTables(logs[..i], num), HdrTables(c.hdrs, num));
      merged := MergeHdrs(merged, c.hdrs, num);
    }
    assert logs[..|logs|] == logs;
  }

  /** `pct_ms * 1000.0 if pct_ms is not None else None`: milliseconds to microseconds. */
  function ScaleMs(x: Option<real>): Option<real> {
    match x
    case None => None
    case Some(v) => Some(v * 1000.0)
  }

  /**
   * The reported percentile `p`: read from the merged histogram when it holds any
   * value, otherwise the FULL_RUN maximum converted to microseconds.
   */
  ghost function ReportPct(merged: Table, pctMax: Option<real>, p: int): Option<real> {
    if merged != map[] then QuantileOf(merged, p as real / 100.0) else ScaleMs(pctMax)
  }

  /** The choice between the merged histogram and the FULL_RUN fallback, for each of `PCTS`. */
  method PctReport(merged: Table, pctMax: PctMap) returns (vals: PctMap)
    requires IsPctMap(pctMax)
    ensures IsPctMap(vals)
    ensures forall p :: p in Pcts ==> vals[p] == ReportPct(merged, pctMax[p], p)
  {
    vals := NoPcts();
    for j := 0 to |Pcts|
      invariant IsPctMap(vals)
      invariant forall k :: 0 <= k < j ==> vals[Pcts[k]] == ReportPct(merged, pctMax[Pcts[k]], Pcts[k])
    {
      var p := Pcts[j];
      if merged != map[] {
        var qv := Quantile(merged, p as real / 100.0);
        vals := vals[p := qv];
      } else {
        vals := vals[p := ScaleMs(pctMax[p])];
      }
    }
  }

  /** `qdir.name.split('_', 1)[-1]`: the directory name after its first `_`, or all of it. */
  function RateLabel(name: string): string {
    match FirstIndex(name, '_')
    case None => name
    case Some(i) => name[i + 1..]
  }

  /** The rate label of a `qps_<r>` directory is `<r>`, whatever `<r>` holds. */
  lemma RateLabelOfQpsDir(r: string)
    ensures RateLabel("qps_" + r) == r
  {
    var name := "qps_" + r;
    assert name[3] == '_' && '_' !in name[..3];
    assert name[4..] == r;
  }

  /**
   * One iteration of the directory loop of `main`: no row for a directory without
   * client logs, otherwise the rate label, the summed ops and misses (`None` when
   * they add up to 0) and the reported percentiles.
   */
  method AggregateGroup(dirName: string, logs: seq<ClientLog>, num: string -> Option<real>)
    returns (row: Option<GroupRow>)
    ensures row.None? <==> logs == []
    ensures row.Some? ==>
      row.value.rate == RateLabel(dirName) &&
      row.value.qps == NonZero(OpsSum(logs, num)) &&
      row.value.misses == NonZero(MissesSum(logs, num)) &&
      IsPctMap(row.value.pcts) &&
      forall p :: p in Pcts ==>
        row.value.pcts[p] == ReportPct(MergeAll(GroupTables(logs, num)), PctMaxOf(logs, num, p), p)
  {
    if logs == [] {
      return None;
    }
    var totalOps, totalMisses, merged, pctMax := AccumulateGroup(logs, num);
    var pcts := PctReport(merged, pctMax);
    return Some(GroupRow(RateLabel(dirName), NonZero(totalOps), pcts, NonZero(totalMisses)));
  }

  // ----- properties of the merged report -----

  /** Every table read from the exports has non-negative counts, and so has their merge. */
  lemma {:induction false} GroupTablesNonNegative(logs: seq<ClientLog>, num: string -> Option<real>)
    ensures forall i :: 0 <= i < |GroupTables(logs, num)| ==> NonNegative(GroupTables(logs, num)[i])
    ensures NonNegative(MergeAll(GroupTables(logs, num)))
    decreases |logs|
  {
    if logs != [] {
      var n := |logs| - 1;
      GroupTablesNonNegative(logs[..n], num);
      var hs := HdrTables(logs[n].hdrs, num);
      forall i | 0 <= i < |hs| ensures NonNegative(hs[i]) {
        TableNonNegative(Rows(Words(logs[n].hdrs[i]), num));
      }
    }
    MergeAllNonNegative(GroupTables(logs, num));
  }

  /** Two reported percentiles `p1 <= p2` of a non-negative table with a positive total are ordered. */
  lemma ReportStep(m: Table, p1: int, p2: int)
    requires NonNegative(m) && m != map[] && Total(m) != 0 && p1 <= p2
    ensures ReportPct(m, None, p1).Some? && ReportPct(m, None, p2).Some?
    ensures ReportPct(m, None, p1).value <= ReportPct(m, None, p2).value
  {
    assert p1 as real / 100.0 <= p2 as real / 100.0;
    QuantileMonotone(m, p1 as real / 100.0, p2 as real / 100.0);
  }

  /**
   * Read from a merged histogram with a positive total, the reported percentiles
   * are ordered: p50 <= p90 <= p95 <= p99.
   */
  lemma ReportOrdered(logs: seq<ClientLog>, num: string -> Option<real>)
    requires var m := MergeAll(GroupTables(logs, num)); m != map[] && Total(m) != 0
    ensures var m := MergeAll(GroupTables(logs, num));
      ReportPct(m, None, 50).Some? && ReportPct(m, None, 99).Some? &&
      ReportPct(m, None, 50).value <= ReportPct(m, None, 90).value <= ReportPct(m, None, 95).value <= ReportPct(m, None, 99).value
  {
    var m := MergeAll(GroupTables(logs, num));
    GroupTablesNonNegative(logs, num);
    ReportStep(m, 50, 90);
    ReportStep(m, 90, 95);
    ReportStep(m, 95, 99);
  }

  lemma HdrTablesConcat(a: seq<string>, b: seq<string>, num: string -> Option<real>)
    ensures HdrTables(a + b, num) == HdrTables(a, num) + HdrTables(b, num)
  {
  }

  /** Taking the export at `j` out of the list and merging it last gives the same table. */
  lemma HdrTablesPick(ys: seq<string>, j: int, num: string -> Option<real>)
    requires 0 <= j < |ys|
    ensures MergeAll(HdrTables(ys, num)) ==
      Merge(MergeAll(HdrTables(ys[..j] + ys[j + 1..], num)), TableOf(Rows(Words(ys[j]), num)))
  {
    var before, after := ys[..j], ys[j + 1..];
    var tx := TableOf(Rows(Words(ys[j]), num));
    assert HdrTables([ys[j]], num) == [tx];
    var hb, ha := HdrTables(before, num), HdrTables(after, num);
    HdrTablesConcat(before, after, num);
    HdrTablesConcat(before, [ys[j]], num);
    HdrTablesConcat(before + [ys[j]], after, num);
    assert ys == before + [ys[j]] + after;
    MergeAllMoveLast(hb, tx, ha);
  }

  /**
   * The histogram exports of a log are found by an unsorted glob: whatever order
   * they come in, the merged table is the same.
   */
  lemma {:induction false} HdrOrderIndependent(xs: seq<string>, ys: seq<string>, num: string -> Option<real>)
    requires multiset(xs) == multiset(ys)
    ensures MergeAll(HdrTables(xs, num)) == MergeAll(HdrTables(ys, num))
    decreases |xs|
  {
    if xs == [] {
      assert |ys| == |multiset(ys)| == 0;
    } else {
      var n := |xs| - 1;
      var x := xs[n];
      MultisetRemoveAt(xs, n);
      assert xs[..n] + xs[n + 1..] == xs[..n];
      assert x in multiset(ys);
      var j :| 0 <= j < |ys| && ys[j] == x;
      MultisetRemoveAt(ys, j);
      HdrOrderIndependent(xs[..n], ys[..j] + ys[j + 1..], num);
      HdrTablesPick(ys, j, num);
      HdrTablesPick(xs, n, num);
    }
  }
}
