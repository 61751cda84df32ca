/**
 * Reading a `powerstat` report: the data window that starts at line 21 and ends
 * before the first later line starting with `-`, the projection of each data line
 * to its utilisation and power fields, and the memtier aggregator's conversion of
 * those fields to samples.
 */
module Powerstat {
  import opened Wrappers
  import opened Text

  /** `start_index`: the report's data starts on its 21st line. */
  const StartIndex: nat := 20

  /** The first index from `i` on whose line starts with `-`, or the number of lines. */
  function DashFrom(lines: seq<string>, i: nat): (e: nat)
    requires i <= |lines|
    ensures i <= e <= |lines|
    ensures forall j :: i <= j < e ==> !StartsWith(lines[j], "-")
    ensures e < |lines| ==> StartsWith(lines[e], "-")
    decreases |lines| - i
  {
    if i == |lines| || StartsWith(lines[i], "-") then i else DashFrom(lines, i + 1)
  }

  /**
   * `lines[start_index:end_index]`: the lines from index 20 up to, not including,
   * the first later line starting with `-`, or to the end; none for a report of at
   * most 20 lines.
   */
  function Window(lines: seq<string>): (w: seq<string>)
    ensures |lines| <= StartIndex ==> w == []
    ensures |lines| > StartIndex ==>
      exists e :: StartIndex <= e <= |lines| && w == lines[StartIndex..e] &&
        (forall j :: StartIndex <= j < e ==> !StartsWith(lines[j], "-")) &&
        (e < |lines| ==> StartsWith(lines[e], "-"))
  {
    if |lines| <= StartIndex then []
    else
      var e := DashFrom(lines, StartIndex);
      lines[StartIndex..e]
  }

  /** The fields of a window line, when it is not blank and has more than 12 of them. */
  function DataFields(line: string): Option<seq<string>> {
    var s := Strip(line);
    var w := Words(s);
    if s != [] && |w| > 12 then Some(w) else None
  }

  /** `[[line[4], line[12]] for ...]`: the 5th and 13th fields of every kept line, in order. */
  function Columns(lines: seq<string>): (cols: seq<(string, string)>)
    ensures |cols| <= |lines|
    decreases |lines|
  {
    if lines == [] then []
    else
      var rest := Columns(lines[1..]);
      match DataFields(lines[0])
      case Some(w) => [(w[4], w[12])] + rest
      case None => rest
  }

  /** The pair one line contributes: none, or its 5th and 13th fields. */
  function LineColumns(line: string): seq<(string, string)> {
    match DataFields(line)
    case Some(w) => [(w[4], w[12])]
    case None => []
  }

  lemma ColumnsUnfold(lines: seq<string>)
    requires lines != []
    ensures Columns(lines) == LineColumns(lines[0]) + Columns(lines[1..])
  {
  }

  /** The projection works line by line: the columns of two blocks of lines are concatenated. */
  lemma {:induction false} ColumnsAppend(a: seq<string>, b: seq<string>)
    ensures Columns(a + b) == Columns(a) + Columns(b)
    decreases |a|
  {
    if a != [] {
      var ab := a + b;
      assert ab[0] == a[0] && ab[1..] == a[1..] + b;
      ColumnsUnfold(ab);
      ColumnsUnfold(a);
      ColumnsAppend(a[1..], b);
      PairsAssoc(LineColumns(a[0]), Columns(a[1..]), Columns(b));
    } else {
      assert a + b == b;
    }
  }

  lemma PairsAssoc(x: seq<(string, string)>, y: seq<(string, string)>, z: seq<(string, string)>)
    ensures x + (y + z) == (x + y) + z
  {
  }

  /** `line` is kept and projects to `pair`. */
  predicate Gives(line: string, pair: (string, string)) {
    DataFields(line).Some? && pair == (DataFields(line).value[4], DataFields(line).value[12])
  }

  /** The columns of a non-empty block: the first line's pair, when it is kept, then the rest. */
  lemma ColumnsCons(lines: seq<string>)
    requires lines != []
    ensures var skip := if DataFields(lines[0]).Some? then 1 else 0;
      |Columns(lines)| == skip + |Columns(lines[1..])| &&
      Columns(lines)[skip..] == Columns(lines[1..]) &&
      (skip == 1 ==> Gives(lines[0], Columns(lines)[0]))
  {
  }

  /** The line the pair at `k` comes from. */
  lemma {:induction false} ColumnSource(lines: seq<string>, k: nat) returns (j: nat)
    requires k < |Columns(lines)|
    ensures j < |lines| && Gives(lines[j], Columns(lines)[k])
    decreases |lines|
  {
    var tail := lines[1..];
    ColumnsCons(lines);
    var skip := if DataFields(lines[0]).Some? then 1 else 0;
    if k < skip {
      j := 0;
    } else {
      ShiftedIndex(Columns(lines), skip, k, Columns(tail));
      var i := ColumnSource(tail, k - skip);
      assert lines[i + 1] == tail[i];
      j := i + 1;
    }
  }

  lemma ShiftedIndex<T>(xs: seq<T>, d: nat, k: nat, ys: seq<T>)
    requires d <= k < |xs| && xs[d..] == ys
    ensures k - d < |ys| && xs[k] == ys[k - d]
  {
  }

  /** Every pair comes from a kept line, as its 5th and 13th fields. */
  lemma {:induction false} ColumnsSound(lines: seq<string>)
    ensures forall k :: 0 <= k < |Columns(lines)| ==>
      exists j :: 0 <= j < |lines| && Gives(lines[j], Columns(lines)[k])
  {
    forall k | 0 <= k < |Columns(lines)|
      ensures exists j :: 0 <= j < |lines| && Gives(lines[j], Columns(lines)[k])
    {
      var j := ColumnSource(lines, k);
      assert 0 <= j < |lines| && Gives(lines[j], Columns(lines)[k]);
    }
    assert forall k :: 0 <= k < |Columns(lines)| ==>
      exists j :: 0 <= j < |lines| && Gives(lines[j], Columns(lines)[k]);
  }

  /** Every line with more than 12 fields gives its pair of fields. */
  lemma {:induction false} ColumnsComplete(lines: seq<string>)
    ensures forall j :: 0 <= j < |lines| && DataFields(lines[j]).Some? ==>
      (DataFields(lines[j]).value[4], DataFields(lines[j]).value[12]) in Columns(lines)
    decreases |lines|
  {
    if lines != [] {
      var tail := lines[1..];
      ColumnsComplete(tail);
      ColumnsCons(lines);
      var cols := Columns(lines);
      var skip := if DataFields(lines[0]).Some? then 1 else 0;
      forall j | 0 <= j < |lines| && DataFields(lines[j]).Some?
        ensures (DataFields(lines[j]).value[4], DataFields(lines[j]).value[12]) in cols
      {
        if j > 0 {
          assert lines[j] == tail[j - 1];
          var x := (DataFields(lines[j]).value[4], DataFields(lines[j]).value[12]);
          assert x in cols[skip..];
        } else {
          assert cols[0] == (DataFields(lines[0]).value[4], DataFields(lines[0]).value[12]);
        }
      }
    }
  }

  // ----- parse_memtier_results.parse_powerstat_file -----

  /**
   * The sample loop as written: the utilisation is appended as soon as it parses,
   * before the power is parsed, so a row whose power does not parse still leaves
   * its utilisation behind.
   */
  function SamplesAsWritten(cols: seq<(string, string)>, num: string -> Option<real>): (seq<real>, seq<real>)
    decreases |cols|
  {
    if cols == [] then ([], [])
    else
      var (utils, powers) := SamplesAsWritten(cols[..|cols| - 1], num);
      var (u, p) := cols[|cols| - 1];
      match num(u)
      case None => (utils, powers)
      case Some(uv) =>
        match num(p)
        case None => (utils + [uv], powers)
        case Some(pv) => (utils + [uv], powers + [pv])
  }

  /**
   * The two lists of the loop as written drift apart: a row with utilisation 1 and
   * an unparsable power, then a full row, give two utilisations for one power.
   */
  lemma SamplesAsWrittenMisaligned(num: string -> Option<real>)
    requires num("1") == Some(1.0) && num("2") == Some(2.0) && num("3") == Some(3.0) && num("bad").None?
    ensures SamplesAsWritten([("1", "bad"), ("2", "3")], num) == ([1.0, 2.0], [3.0])
  {
    var first := [("1", "bad")];
    var cols := [("1", "bad"), ("2", "3")];
    var none: seq<real> := [];
    assert first[..0] == [];
    assert none + [1.0] == [1.0];
    assert SamplesAsWritten(first, num) == (none + [1.0], none);
    assert cols[..1] == first;
    assert [1.0] + [2.0] == [1.0, 2.0] && none + [3.0] == [3.0];
    assert SamplesAsWritten(cols, num) == ([1.0] + [2.0], none + [3.0]);
  }

  /** The samples as evidently intended: a row counts only when both of its fields parse. */
  function PairedSamples(cols: seq<(string, string)>, num: string -> Option<real>): (seq<real>, seq<real>)
    decreases |cols|
  {
    if cols == [] then ([], [])
    else
      var (utils, powers) := PairedSamples(cols[..|cols| - 1], num);
      var (u, p) := cols[|cols| - 1];
      match (num(u), num(p))
      case (Some(uv), Some(pv)) => (utils + [uv], powers + [pv])
      case _ => (utils, powers)
  }

  /**
   * The paired samples line up: the `i`-th utilisation and the `i`-th power are
   * the two fields of one and the same row.
   */
  lemma {:induction false} PairedSamplesAligned(cols: seq<(string, string)>, num: string -> Option<real>)
    ensures |PairedSamples(cols, num).0| == |PairedSamples(cols, num).1| <= |cols|
    ensures forall i :: 0 <= i < |PairedSamples(cols, num).0| ==>
      exists j :: 0 <= j < |cols| &&
        num(cols[j].0) == Some(PairedSamples(cols, num).0[i]) &&
        num(cols[j].1) == Some(PairedSamples(cols, num).1[i])
    decreases |cols|
  {
    if cols != [] {
      var n := |cols| - 1;
      var init := cols[..n];
      PairedSamplesAligned(init, num);
      var (us, ps) := PairedSamples(init, num);
      var (us', ps') := PairedSamples(cols, num);
      forall i | 0 <= i < |us'|
        ensures exists j :: 0 <= j < |cols| && num(cols[j].0) == Some(us'[i]) && num(cols[j].1) == Some(ps'[i])
      {
        if i < |us| {
          var j :| 0 <= j < |init| && num(init[j].0) == Some(us[i]) && num(init[j].1) == Some(ps[i]);
          assert cols[j] == init[j];
        } else {
          assert num(cols[n].0) == Some(us'[i]);
        }
      }
    }
  }

  /** The powers are the same either way: as written, a power is kept only when its utilisation parsed too. */
  lemma {:induction false} SamplesAsWrittenPowers(cols: seq<(string, string)>, num: string -> Option<real>)
    ensures SamplesAsWritten(cols, num).1 == PairedSamples(cols, num).1
    decreases |cols|
  {
    if cols != [] {
      SamplesAsWrittenPowers(cols[..|cols| - 1], num);
    }
  }

  /**
   * The utilisations differ only through rows whose utilisation parses and whose
   * power does not: without such rows the loop as written gives the paired samples.
   */
  lemma {:induction false} SamplesAgree(cols: seq<(string, string)>, num: string -> Option<real>)
    requires forall j :: 0 <= j < |cols| && num(cols[j].0).Some? ==> num(cols[j].1).Some?
    ensures SamplesAsWritten(cols, num) == PairedSamples(cols, num)
    decreases |cols|
  {
    if cols != [] {
      var init := cols[..|cols| - 1];
      assert forall j :: 0 <= j < |init| ==> init[j] == cols[j];
      SamplesAgree(init, num);
    }
  }

  /** Utilisation u and power p sit at one index of the two sample lists. */
  predicate PairAt(utils: seq<real>, powers: seq<real>, u: real, p: real)
  {
    exists i :: 0 <= i < |utils| && i < |powers| && utils[i] == u && powers[i] == p
  }

  lemma PairAtExtend(utils: seq<real>, powers: seq<real>, u: real, p: real, u': real, p': real)
    requires PairAt(utils, powers, u, p)
    ensures PairAt(utils + [u'], powers + [p'], u, p)
  {
    var i :| 0 <= i < |utils| && i < |powers| && utils[i] == u && powers[i] == p;
    assert (utils + [u'])[i] == u && (powers + [p'])[i] == p;
  }

  lemma PairAtLast(utils: seq<real>, powers: seq<real>, u: real, p: real)
    requires |utils| == |powers|
    ensures PairAt(utils + [u], powers + [p], u, p)
  {
    assert (utils + [u])[|utils|] == u && (powers + [p])[|utils|] == p;
  }

  /** Every row whose two fields both parse is kept, as its utilisation and power at one and the same index. */
  lemma {:induction false} PairedSamplesComplete(cols: seq<(string, string)>, num: string -> Option<real>)
    ensures forall j :: 0 <= j < |cols| && num(cols[j].0).Some? && num(cols[j].1).Some? ==>
      PairAt(PairedSamples(cols, num).0, PairedSamples(cols, num).1, num(cols[j].0).value, num(cols[j].1).value)
    decreases |cols|
  {
    if cols != [] {
      var n := |cols| - 1;
      var init := cols[..n];
      PairedSamplesComplete(init, num);
      PairedSamplesAligned(init, num);
      var (us, ps) := PairedSamples(init, num);
      var (u, p) := cols[n];
      forall j | 0 <= j < |cols| && num(cols[j].0).Some? && num(cols[j].1).Some?
        ensures PairAt(PairedSamples(cols, num).0, PairedSamples(cols, num).1, num(cols[j].0).value, num(cols[j].1).value)
      {
        if j < n {
          assert init[j] == cols[j];
          if num(u).Some? && num(p).Some? {
            PairAtExtend(us, ps, num(cols[j].0).value, num(cols[j].1).value, num(u).value, num(p).value);
          }
        } else {
          PairAtLast(us, ps, num(u).value, num(p).value);
        }
      }
    }
  }

  /**
   * Every paired sample comes from one kept line: the `i`-th utilisation and the
   * `i`-th power are the 5th and 13th fields of the same line with more than 12 fields.
   */
  lemma SamplesFromLines(lines: seq<string>, num: string -> Option<real>)
    ensures var s := PairedSamples(Columns(lines), num);
      |s.0| == |s.1| &&
      forall i :: 0 <= i < |s.0| ==> exists j :: (0 <= j < |lines| && DataFields(lines[j]).Some? &&
        num(DataFields(lines[j]).value[4]) == Some(s.0[i]) && num(DataFields(lines[j]).value[12]) == Some(s.1[i]))
  {
    var cols := Columns(lines);
    var s := PairedSamples(cols, num);
    PairedSamplesAligned(cols, num);
    forall i | 0 <= i < |s.0|
      ensures exists j :: (0 <= j < |lines| && DataFields(lines[j]).Some? &&
        num(DataFields(lines[j]).value[4]) == Some(s.0[i]) && num(DataFields(lines[j]).value[12]) == Some(s.1[i]))
    {
      var k :| 0 <= k < |cols| && num(cols[k].0) == Some(s.0[i]) && num(cols[k].1) == Some(s.1[i]);
      var j := ColumnSource(lines, k);
      assert Gives(lines[j], cols[k]);
    }
  }

  /** The corrected sample loop: both fields are parsed before either list grows. */
  method PowerSamples(cols: seq<(string, string)>, num: string -> Option<real>)
    returns (utils: seq<real>, powers: seq<real>)
    ensures (utils, powers) == PairedSamples(cols, num)
    ensures |utils| == |powers|
  {
    utils, powers := [], [];
    for i := 0 to |cols|
      invariant (utils, powers) == PairedSamples(cols[..i], num)
    {
      assert cols[..i + 1][..i] == cols[..i];
      var (u, p) := cols[i];
      var uv := num(u);
      var pv := num(p);
      if uv.Some? && pv.Some? {
        utils := utils + [uv.value];
        powers := powers + [pv.value];
      }
    }
    assert cols[..|cols|] == cols;
    PairedSamplesAligned(cols, num);
  }

  /**
   * `parse_powerstat_file` of the memtier aggregator up to its statistics: no
   * result for a report shorter than 25 lines or without a usable row, otherwise
   * the utilisation and power samples of the data window.
   */
  method MemtierPowerSamples(lines: seq<string>, num: string -> Option<real>)
    returns (r: Option<(seq<real>, seq<real>)>)
    ensures r.None? <==> |lines| < 25 || SamplesAsWritten(Columns(Window(lines)), num).1 == []
    ensures r.Some? ==> r.value == PairedSamples(Columns(Window(lines)), num) && |r.value.0| == |r.value.1| > 0
    ensures r.Some? ==> r.value.1 == SamplesAsWritten(Columns(Window(lines)), num).1
  {
    if |lines| >= 25 {
      SamplesAsWrittenPowers(Columns(Window(lines)), num);
    }
    if |lines| < 25 {
      return None;
    }
    var utils, powers := PowerSamples(Columns(Window(lines)), num);
    if powers == [] {
      return None;
    }
    return Some((utils, powers));
  }
}
