/**
 * `parse_hdr_txt`: reading an HdrHistogram percentile-distribution text export
 * ("Value Percentile TotalCount 1/(1-Percentile)" rows) into a frequency table by
 * differencing its cumulative TotalCount column.
 */
module HdrHistogram {
  import opened Wrappers
  import opened Text
  import opened Numbers
  import opened Tables

  /** One data row as the parser uses it: the value and its cumulative count. */
  datatype Row = Row(value: real, cum: int)

  /**
   * The rows read from `tokens` starting at index `i`, four tokens per row: the
   * first token is the value, the third the cumulative count. Reading stops when
   * fewer than four tokens remain or when either of those two tokens does not parse.
   */
  function RowsFrom(tokens: seq<string>, num: string -> Option<real>, i: nat): seq<Row>
    decreases |tokens| - i
  {
    if i + 3 < |tokens| then
      match (num(tokens[i]), num(tokens[i + 2]))
      case (Some(v), Some(c)) => [Row(v, Trunc(c))] + RowsFrom(tokens, num, i + 4)
      case _ => []
    else []
  }

  /**
   * Row `k` comes from tokens `i + 4k` and `i + 4k + 2`, both of which parse, and
   * reading stopped at the first group of four that is incomplete or does not parse.
   */
  lemma RowsFromSpec(tokens: seq<string>, num: string -> Option<real>, i: nat)
    ensures var rows := RowsFrom(tokens, num, i);
      (rows != [] ==> i + 4 * |rows| <= |tokens|) &&
      (forall k :: 0 <= k < |rows| ==>
        num(tokens[i + 4 * k]) == Some(rows[k].value) &&
        num(tokens[i + 4 * k + 2]).Some? &&
        rows[k].cum == Trunc(num(tokens[i + 4 * k + 2]).value)) &&
      var j := i + 4 * |rows|;
      j + 3 >= |tokens| || num(tokens[j]).None? || num(tokens[j + 2]).None?
  {
    RowsFromFields(tokens, num, i);
    RowsFromStop(tokens, num, i);
  }

  /** Row `k` comes from tokens `i + 4k` and `i + 4k + 2`, both of which parse. */
  lemma RowsFromFields(tokens: seq<string>, num: string -> Option<real>, i: nat)
    ensures var rows := RowsFrom(tokens, num, i);
      (rows != [] ==> i + 4 * |rows| <= |tokens|) &&
      forall k :: 0 <= k < |rows| ==>
        num(tokens[i + 4 * k]) == Some(rows[k].value) &&
        num(tokens[i + 4 * k + 2]).Some? &&
        rows[k].cum == Trunc(num(tokens[i + 4 * k + 2]).value)
  {
    var rows := RowsFrom(tokens, num, i);
    if rows != [] {
      RowAt(tokens, num, i, |rows| - 1);
    }
    forall k | 0 <= k < |rows|
      ensures num(tokens[i + 4 * k]) == Some(rows[k].value)
      ensures num(tokens[i + 4 * k + 2]).Some?
      ensures rows[k].cum == Trunc(num(tokens[i + 4 * k + 2]).value)
    {
      RowAt(tokens, num, i, k);
    }
  }

  /** Row `k` read from index `i` lies at tokens `i + 4k` to `i + 4k + 3`, and its value and count parse. */
  lemma {:induction false} RowAt(tokens: seq<string>, num: string -> Option<real>, i: nat, k: nat)
    requires k < |RowsFrom(tokens, num, i)|
    ensures i + 4 * k + 3 < |tokens|
    ensures num(tokens[i + 4 * k]) == Some(RowsFrom(tokens, num, i)[k].value)
    ensures num(tokens[i + 4 * k + 2]).Some?
    ensures RowsFrom(tokens, num, i)[k].cum == Trunc(num(tokens[i + 4 * k + 2]).value)
    decreases k
  {
    if k > 0 {
      RowAt(tokens, num, i + 4, k - 1);
      assert RowsFrom(tokens, num, i)[k] == RowsFrom(tokens, num, i + 4)[k - 1];
      assert i + 4 * k == (i + 4) + 4 * (k - 1);
    }
  }

  /** Reading stops at the first group of four that is incomplete or does not parse. */
  lemma {:induction false} RowsFromStop(tokens: seq<string>, num: string -> Option<real>, i: nat)
    ensures var j := i + 4 * |RowsFrom(tokens, num, i)|;
      j + 3 >= |tokens| || num(tokens[j]).None? || num(tokens[j + 2]).None?
    decreases |tokens| - i
  {
    if i + 3 < |tokens| && num(tokens[i]).Some? && num(tokens[i + 2]).Some? {
      RowsFromStop(tokens, num, i + 4);
      assert |RowsFrom(tokens, num, i)| == 1 + |RowsFrom(tokens, num, i + 4)|;
    }
  }

  /** The data rows of an export: those after the first `Value` header token, or none without one. */
  function Rows(tokens: seq<string>, num: string -> Option<real>): seq<Row> {
    match FirstIndex(tokens, "Value")
    case None => []
    case Some(h) => RowsFrom(tokens, num, h + 4)
  }

  /** The cumulative count of the last row read, 0 before any row. */
  function LastCum(rows: seq<Row>): int {
    if rows == [] then 0 else rows[|rows| - 1].cum
  }

  /** A negative difference of cumulative counts is taken as 0. */
  function Clamp(delta: int): nat {
    if delta < 0 then 0 else delta
  }

  /** The frequency table the rows give: each row adds its clamped count increase at its value. */
  function TableOf(rows: seq<Row>): Table
    decreases |rows|
  {
    if rows == [] then map[]
    else
      var init := rows[..|rows| - 1];
      var last := rows[|rows| - 1];
      AddCount(TableOf(init), last.value, Clamp(last.cum - LastCum(init)))
  }

  /** The cumulative counts never decrease and start at a non-negative value. */
  ghost predicate Cumulative(rows: seq<Row>) {
    (rows != [] ==> rows[0].cum >= 0) &&
    forall i, j :: 0 <= i < j < |rows| ==> rows[i].cum <= rows[j].cum
  }

  /** Every reconstructed count is non-negative. */
  lemma {:induction false} TableNonNegative(rows: seq<Row>)
    ensures NonNegative(TableOf(rows))
    decreases |rows|
  {
    if rows != [] {
      TableNonNegative(rows[..|rows| - 1]);
    }
  }

  /** The table holds exactly the values of the rows read. */
  lemma {:induction false} TableKeys(rows: seq<Row>)
    ensures forall v :: v in TableOf(rows) <==> exists k :: 0 <= k < |rows| && rows[k].value == v
    decreases |rows|
  {
    if rows != [] {
      var init := rows[..|rows| - 1];
      TableKeys(init);
      assert forall k :: 0 <= k < |init| ==> init[k] == rows[k];
    }
  }

  /**
   * Clamping only ever adds: the table holds at least the last cumulative count,
   * and exactly that many when the cumulative counts never decrease.
   */
  lemma {:induction false} TableTotal(rows: seq<Row>)
    ensures Total(TableOf(rows)) >= LastCum(rows)
    ensures Cumulative(rows) ==> Total(TableOf(rows)) == LastCum(rows)
    decreases |rows|
  {
    if rows == [] {
      assert TableOf(rows) == map[];
      assert Total(map[]) == 0;
    } else {
      var init := rows[..|rows| - 1];
      var last := rows[|rows| - 1];
      TableTotal(init);
      TotalAddCount(TableOf(init), last.value, Clamp(last.cum - LastCum(init)));
      if Cumulative(rows) {
        assert Cumulative(init);
        if init != [] {
          assert LastCum(init) == rows[|rows| - 2].cum <= last.cum;
        }
      }
    }
  }

  /** One step of the parsing loop: the row at `i` is read and added to the table. */
  lemma ReadRow(tokens: seq<string>, num: string -> Option<real>, i: nat, rows: seq<Row>)
    requires i + 3 < |tokens| && num(tokens[i]).Some? && num(tokens[i + 2]).Some?
    ensures var row := Row(num(tokens[i]).value, Trunc(num(tokens[i + 2]).value));
      RowsFrom(tokens, num, i) == [row] + RowsFrom(tokens, num, i + 4) &&
      TableOf(rows + [row]) == AddCount(TableOf(rows), row.value, Clamp(row.cum - LastCum(rows))) &&
      LastCum(rows + [row]) == row.cum
  {
    var row := Row(num(tokens[i]).value, Trunc(num(tokens[i + 2]).value));
    assert (rows + [row])[..|rows|] == rows;
  }

  /**
   * The reading loop of `parse_hdr_txt` from the first data token on: the table
   * of per-value counts and the last cumulative count read.
   */
  method ReadRows(tokens: seq<string>, num: string -> Option<real>, start: nat) returns (counts: Table, prev: int)
    ensures counts == TableOf(RowsFrom(tokens, num, start))
    ensures prev == LastCum(RowsFrom(tokens, num, start))
  {
    var i := start;
    counts := map[];
    prev := 0;
    ghost var rows: seq<Row> := [];
    while i + 3 < |tokens|
      invariant start <= i
      invariant RowsFrom(tokens, num, start) == rows + RowsFrom(tokens, num, i)
      invariant counts == TableOf(rows) && prev == LastCum(rows)
      decreases |tokens| - i
    {
      var v := num(tokens[i]);
      var tc := num(tokens[i + 2]);
      if v.None? || tc.None? {
        assert RowsFrom(tokens, num, i) == [];
        break;
      }
      var c := Trunc(tc.value);
      var delta := c - prev;
      if delta < 0 {
        delta := 0;
      }
      ghost var row := Row(v.value, c);
      ReadRow(tokens, num, i, rows);
      assert rows + RowsFrom(tokens, num, i) == (rows + [row]) + RowsFrom(tokens, num, i + 4);
      counts := AddCount(counts, v.value, delta);
      prev := c;
      rows := rows + [row];
      i := i + 4;
    }
    assert rows + RowsFrom(tokens, num, i) == rows;
  }

  /**
   * `parse_hdr_txt` on the text of one export: the table of per-value counts and
   * the last cumulative count read.
   */
  method ParseHdr(text: string, num: string -> Option<real>) returns (counts: Table, total: int)
    ensures counts == TableOf(Rows(Words(text), num))
    ensures total == LastCum(Rows(Words(text), num))
    ensures NonNegative(counts)
  {
    var tokens := Words(text);
    var h := FirstIndex(tokens, "Value");
    if h.None? {
      assert Rows(tokens, num) == [];
      TableNonNegative([]);
      return map[], 0;
    }
    counts, total := ReadRows(tokens, num, h.value + 4);
    TableNonNegative(Rows(tokens, num));
  }

  /** Without a `Value` token the export yields an empty table and a total of 0. */
  lemma NoHeaderEmpty(tokens: seq<string>, num: string -> Option<real>)
    requires "Value" !in tokens
    ensures TableOf(Rows(tokens, num)) == map[] && LastCum(Rows(tokens, num)) == 0
  {
  }
}
