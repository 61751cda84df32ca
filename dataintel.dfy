/**
 * The data-intel aggregator: reading a mutilate master log (the `read` latency
 * line and the `Total QPS` line) and its optional `.lat` raw-sample file, reading
 * a powerstat report, walking run directories for matching log pairs, and sorting
 * the collected rows by rate.
 */
module DataIntel {
  import opened Wrappers
  import opened Text
  import opened Sorting
  import opened Powerstat
  import opened FileNames

  /**
   * What the aggregator takes from outside: the file system (`None` for a file
   * that does not exist), Python's `float` and `int` on a token (`None` for
   * ValueError), and the floating-point statistics: the mean and the 90th and
   * 99th percentiles of the raw latency samples, and the mean power, its
   * standard deviation and the mean utilisation of the filtered powerstat rows.
   */
  datatype Env = Env(
    read: string -> Option<seq<string>>,
    num: string -> Option<real>,
    toInt: string -> Option<int>,
    latStats: seq<real> -> (real, real, real),
    powerStats: (seq<real>, seq<real>) -> (real, real, real))

  // ----- generic filter-map -----

  /** The values `f` yields on the elements of `xs` that it accepts, in order. */
  function FilterMap<A, B>(xs: seq<A>, f: A -> Option<B>): (ys: seq<B>)
    ensures |ys| <= |xs|
    decreases |xs|
  {
    if xs == [] then []
    else
      var init := FilterMap(xs[..|xs| - 1], f);
      match f(xs[|xs| - 1])
      case Some(y) => init + [y]
      case None => init
  }

  /** Every value comes from an element, and every accepted element gives its value. */
  lemma {:induction false} FilterMapSpec<A, B>(xs: seq<A>, f: A -> Option<B>)
    ensures forall y :: y in FilterMap(xs, f) ==> exists j :: 0 <= j < |xs| && f(xs[j]) == Some(y)
    ensures forall j :: 0 <= j < |xs| && f(xs[j]).Some? ==> f(xs[j]).value in FilterMap(xs, f)
    decreases |xs|
  {
    if xs != [] {
      var init := xs[..|xs| - 1];
      FilterMapSpec(init, f);
      assert forall j :: 0 <= j < |init| ==> init[j] == xs[j];
    }
  }

  // ----- parse_mutilate_file: the `read` line -----

  /** The three latencies of the log; each is unset until a `read` line sets it. */
  datatype Lat = Lat(avg: Option<real>, p90: Option<real>, p99: Option<real>)

  /** The variables of the log loop: the latencies and the total QPS. */
  datatype LogState = LogState(lat: Lat, qps: Option<real>)

  const Unset := LogState(Lat(None, None, None), None)

  /** Fields 1, 6 and 8 of `re.split(r'\s+', line)`, when all three exist and parse. */
  function ReadFields(line: string, num: string -> Option<real>): Option<(real, real, real)> {
    var parts := ReSplit(line);
    if |parts| > 8 && num(parts[1]).Some? && num(parts[6]).Some? && num(parts[8]).Some? then
      Some((num(parts[1]).value, num(parts[6]).value, num(parts[8]).value))
    else None
  }

  function LatOf(t: (real, real, real)): Lat {
    Lat(Some(t.0), Some(t.1), Some(t.2))
  }

  /**
   * The `read` line handling as written: each assignment happens as soon as its
   * field converts, so a line whose field 6 or 8 is missing or does not convert
   * has already overwritten the average. The flag says whether the line got
   * through (and so goes on to the QPS check).
   */
  function ReadStepAsWritten(lat: Lat, parts: seq<string>, num: string -> Option<real>): (Lat, bool) {
    if |parts| <= 1 || num(parts[1]).None? then (lat, false)
    else
      var l1 := lat.(avg := num(parts[1]));
      if |parts| <= 6 || num(parts[6]).None? then (l1, false)
      else
        var l2 := l1.(p90 := num(parts[6]));
        if |parts| <= 8 || num(parts[8]).None? then (l2, false)
        else (l2.(p99 := num(parts[8])), true)
  }

  /** `re.split(r'\s+', "read 9")` */
  lemma SplitReadNine()
    ensures ReSplit("read 9") == ["read", "9"]
  {
    var s := "read 9";
    assert s[4..][1..] == s[5..] == "9";
    assert WordEnd(s[4..]) == 0;
    assert s[3..][1..] == s[4..];
    assert WordEnd(s[3..]) == 1;
    assert s[2..][1..] == s[3..];
    assert WordEnd(s[2..]) == 2;
    assert s[1..][1..] == s[2..];
    assert WordEnd(s[1..]) == 3;
    assert WordEnd(s) == 4;
    assert SpaceEnd(s[4..]) == 1;
    assert s[..4] == "read";
    assert WordEnd("9") == 1;
    assert ReSplit("9") == ["9"];
  }

  /**
   * The line `read 9`, whose percentile fields are missing, overwrites the
   * average of an earlier well-formed line and keeps that line's percentiles.
   */
  lemma ReadLineAsWrittenMixes(num: string -> Option<real>)
    requires num("9") == Some(9.0)
    ensures LineStepAsWritten(LogState(Lat(Some(1.0), Some(2.0), Some(3.0)), None), "read 9", num) ==
      Ok(LogState(Lat(Some(9.0), Some(2.0), Some(3.0)), None))
  {
    SplitReadNine();
    assert StartsWith("read 9", "read");
  }

  /** The same line leaves all three latencies alone when the line is read all or nothing. */
  lemma ReadLineKeepsLatencies(num: string -> Option<real>)
    requires num("9") == Some(9.0)
    ensures LineStep(LogState(Lat(Some(1.0), Some(2.0), Some(3.0)), None), "read 9", num) ==
      Ok(LogState(Lat(Some(1.0), Some(2.0), Some(3.0)), None))
  {
    SplitReadNine();
    assert StartsWith("read 9", "read");
  }

  /**
   * A `read` line sets the three latencies together or not at all: one that does
   * not read whole leaves the loop's variables as they were, one that does sets
   * all three from its own fields before the QPS check.
   */
  lemma ReadLineAllOrNothing(st: LogState, line: string, num: string -> Option<real>)
    requires StartsWith(line, "read")
    ensures ReadFields(line, num).None? ==> LineStep(st, line, num) == Ok(st)
    ensures ReadFields(line, num).Some? ==>
      LineStep(st, line, num) == QpsStep(st.(lat := LatOf(ReadFields(line, num).value)), line, num)
  {
  }

  // ----- parse_mutilate_file: the `Total QPS` line -----

  const QpsGate := "Total QPS ="
  const QpsPattern := "Total QPS = "

  predicate IsNumChar(c: char) {
    IsDigit(c) || c == '.'
  }

  /** Length of the longest prefix of `s` made of digits and dots: the `[\d.]+` run. */
  function NumRunEnd(s: string): (n: nat)
    ensures n <= |s|
    ensures forall i :: 0 <= i < n ==> IsNumChar(s[i])
    ensures n < |s| ==> !IsNumChar(s[n])
  {
    if s == [] || !IsNumChar(s[0]) then 0 else 1 + NumRunEnd(s[1..])
  }

  /** `Total QPS = ([\d.]+)` matches at the start of `t`. */
  predicate MatchesAt(t: string) {
    StartsWith(t, QpsPattern) && NumRunEnd(t[|QpsPattern|..]) > 0
  }

  /** The group of a match at the start of `t`: the whole run of digits and dots. */
  function Group(t: string): (g: string)
    requires MatchesAt(t)
    ensures g != [] && forall i :: 0 <= i < |g| ==> IsNumChar(g[i])
  {
    var rest := t[|QpsPattern|..];
    rest[..NumRunEnd(rest)]
  }

  /** The leftmost position from `k` on where the pattern matches. */
  function SearchFrom(s: string, k: nat): (r: Option<nat>)
    requires k <= |s|
    ensures r.None? ==> forall j :: k <= j <= |s| ==> !MatchesAt(s[j..])
    ensures r.Some? ==> (k <= r.value < |s| && MatchesAt(s[r.value..]) &&
      forall j :: k <= j < r.value ==> !MatchesAt(s[j..]))
    decreases |s| - k
  {
    if k == |s| then None
    else if MatchesAt(s[k..]) then Some(k)
    else SearchFrom(s, k + 1)
  }

  /** `re.search(r'Total QPS = ([\d.]+)', line).group(1)`, `None` where there is no match. */
  function QpsSearch(line: string): Option<string> {
    match SearchFrom(line, 0)
    case None => None
    case Some(i) => Some(Group(line[i..]))
  }

  /**
   * The figure of a QPS line is read back whole: after the pattern, the longest
   * run of digits and dots.
   */
  lemma QpsSearchOf(v: string, rest: string)
    requires v != [] && forall i :: 0 <= i < |v| ==> IsNumChar(v[i])
    requires rest == [] || !IsNumChar(rest[0])
    ensures QpsSearch(QpsPattern + v + rest) == Some(v)
  {
    var s := QpsPattern + v + rest;
    assert s[0..] == s;
    assert s[|QpsPattern|..] == v + rest;
    NumRunEndOf(v, rest);
    assert MatchesAt(s);
    assert SearchFrom(s, 0) == Some(0);
  }

  lemma {:induction false} NumRunEndOf(v: string, rest: string)
    requires forall i :: 0 <= i < |v| ==> IsNumChar(v[i])
    requires rest == [] || !IsNumChar(rest[0])
    ensures NumRunEnd(v + rest) == |v|
    decreases |v|
  {
    if v != [] {
      assert (v + rest)[1..] == v[1..] + rest;
      NumRunEndOf(v[1..], rest);
    } else {
      assert v + rest == rest;
    }
  }

  // ----- parse_mutilate_file: the log loop -----

  /** The `read` line a log line contributes, when it is one and gets through. */
  function ReadOf(num: string -> Option<real>): string -> Option<(real, real, real)> {
    line => if StartsWith(line, "read") then ReadFields(line, num) else None
  }

  /** A `read` line that does not get through skips the rest of the loop body. */
  predicate Skipped(line: string, num: string -> Option<real>) {
    StartsWith(line, "read") && ReadFields(line, num).None?
  }

  /** The total QPS a log line contributes, when it reaches the QPS check and the figure converts. */
  function QpsOf(num: string -> Option<real>): string -> Option<real> {
    line =>
      if Skipped(line, num) || !Contains(line, QpsGate) then None
      else match QpsSearch(line)
        case None => None
        case Some(g) => num(g)
  }

  /** A log line whose QPS figure matches but does not convert: `float` raises ValueError. */
  predicate QpsFails(line: string, num: string -> Option<real>) {
    !Skipped(line, num) && Contains(line, QpsGate) &&
    QpsSearch(line).Some? && num(QpsSearch(line).value).None?
  }

  /** One pass of the loop body on one line (the `read` line read all or nothing). */
  function LineStep(st: LogState, line: string, num: string -> Option<real>): Result<LogState> {
    if Skipped(line, num) then Ok(st)
    else if StartsWith(line, "read") then QpsStep(st.(lat := LatOf(ReadFields(line, num).value)), line, num)
    else QpsStep(st, line, num)
  }

  /** The QPS check of the loop body: a matched figure that does not convert raises ValueError. */
  function QpsStep(st: LogState, line: string, num: string -> Option<real>): Result<LogState> {
    if !Contains(line, QpsGate) then Ok(st)
    else match QpsSearch(line)
      case None => Ok(st)
      case Some(g) =>
        match num(g)
        case None => Err(ValueError("could not convert string to float"))
        case Some(v) => Ok(st.(qps := Some(v)))
  }

  /** One pass of the loop body as written, with the partial `read` update. */
  function LineStepAsWritten(st: LogState, line: string, num: string -> Option<real>): (r: Result<LogState>)
    ensures r.Err? <==> QpsFails(line, num)
  {
    var (lat, through) := if StartsWith(line, "read") then ReadStepAsWritten(st.lat, ReSplit(line), num) else (st.lat, true);
    if !through then Ok(st.(lat := lat)) else QpsStep(st.(lat := lat), line, num)
  }

  /** The loop over the log's lines from a given state; the first ValueError ends it. */
  function LogFrom(st: LogState, lines: seq<string>, num: string -> Option<real>): Result<LogState>
    decreases |lines|
  {
    if lines == [] then Ok(st)
    else
      match LineStep(st, lines[0], num)
      case Err(e) => Err(e)
      case Ok(st1) => LogFrom(st1, lines[1..], num)
  }

  /** The value of the last accepting element is the one of the first element, unless a later one accepts. */
  lemma {:induction false} LastByCons<A, T>(x: A, xs: seq<A>, f: A -> Option<T>)
    ensures LastBy([x] + xs, f) == if LastBy(xs, f).Some? then LastBy(xs, f) else f(x)
    decreases |xs|
  {
    var ys := [x] + xs;
    if xs != [] {
      assert ys[..|ys| - 1] == [x] + xs[..|xs| - 1];
      LastByCons(x, xs[..|xs| - 1], f);
    } else {
      assert ys[..0] == [];
    }
  }

  function LatAfter(lat: Lat, last: Option<(real, real, real)>): Lat {
    match last
    case None => lat
    case Some(t) => LatOf(t)
  }

  function QpsAfter(qps: Option<real>, last: Option<real>): Option<real> {
    if last.Some? then last else qps
  }

  /** One line fails exactly when its QPS figure does not convert, and otherwise takes what it contributes. */
  lemma LineStepSpec(st: LogState, line: string, num: string -> Option<real>)
    ensures LineStep(st, line, num).Err? <==> QpsFails(line, num)
    ensures LineStep(st, line, num).Ok? ==> (LineStep(st, line, num).value ==
      LogState(LatAfter(st.lat, ReadOf(num)(line)), QpsAfter(st.qps, QpsOf(num)(line))))
  {
  }

  /**
   * The log loop fails exactly when some line's QPS figure does not convert;
   * otherwise the latencies are those of the last `read` line that gets through
   * and the total QPS is that of the last line whose figure is reached and
   * converts, each left as it was when there is none.
   */
  lemma {:induction false} LogFromSpec(st: LogState, lines: seq<string>, num: string -> Option<real>)
    ensures LogFrom(st, lines, num).Ok? <==> forall j :: 0 <= j < |lines| ==> !QpsFails(lines[j], num)
    ensures LogFrom(st, lines, num).Ok? ==> (LogFrom(st, lines, num).value ==
      LogState(LatAfter(st.lat, LastBy(lines, ReadOf(num))), QpsAfter(st.qps, LastBy(lines, QpsOf(num)))))
    decreases |lines|
  {
    if lines != [] {
      var line := lines[0];
      var tail := lines[1..];
      assert lines == [line] + tail;
      assert forall j :: 0 < j < |lines| ==> lines[j] == tail[j - 1];
      LineStepSpec(st, line, num);
      if LineStep(st, line, num).Ok? {
        LastByCons(line, tail, ReadOf(num));
        LastByCons(line, tail, QpsOf(num));
        LogFromSpec(LineStep(st, line, num).value, tail, num);
      }
    }
  }

  // ----- parse_mutilate_file: the `.lat` raw samples -----

  /** The latency of one `.lat` line: the second field of a non-blank line, when it converts. */
  function LatSample(num: string -> Option<real>): string -> Option<real> {
    ln =>
      var s := Strip(ln);
      var parts := Words(s);
      if s == [] || |parts| < 2 then None else num(parts[1])
  }

  /** The sample loop over a `.lat` file. */
  method ReadSamples(lines: seq<string>, num: string -> Option<real>) returns (samples: seq<real>)
    ensures samples == FilterMap(lines, LatSample(num))
  {
    samples := [];
    for i := 0 to |lines|
      invariant samples == FilterMap(lines[..i], LatSample(num))
    {
      assert lines[..i + 1][..i] == lines[..i];
      var ln := Strip(lines[i]);
      if ln == [] {
        continue;
      }
      var parts := Words(ln);
      if |parts| < 2 {
        continue;
      }
      var val := num(parts[1]);
      if val.Some? {
        samples := samples + [val.value];
      }
    }
    assert lines[..|lines|] == lines;
  }

  /** What `parse_mutilate_file` returns. */
  datatype Mutilate = Mutilate(qps: real, avg: real, p90: real, p99: real)

  /** The latencies after the `.lat` file: recomputed from its samples when it exists and has some. */
  function LatWithSamples(lat: Lat, path: string, env: Env): Lat {
    match env.read(LatPath(path))
    case None => lat
    case Some(lines) =>
      var samples := FilterMap(lines, LatSample(env.num));
      if samples == [] then lat
      else
        var (a, p90, p99) := env.latStats(samples);
        Lat(Some(a), Some(p90), Some(p99))
  }

  /** `parse_mutilate_file(path)`. */
  function MutilateOf(path: string, env: Env): Result<Mutilate> {
    match env.read(path)
    case None => Err(FileNotFoundError(path))
    case Some(lines) => MutilateAfterLog(path, env, LogFrom(Unset, lines, env.num))
  }

  /** What follows the log loop: the `.lat` samples, then the check that every figure is set. */
  function MutilateAfterLog(path: string, env: Env, log: Result<LogState>): Result<Mutilate> {
    match log
    case Err(e) => Err(e)
    case Ok(st) =>
      var lat := LatWithSamples(st.lat, path, env);
      if lat.avg.None? || lat.p90.None? || lat.p99.None? || st.qps.None? then
        Err(ValueError("Could not parse mutilate data in " + path))
      else Ok(Mutilate(st.qps.value, lat.avg.value, lat.p90.value, lat.p99.value))
  }

  // ----- the loop as written against the corrected loop -----

  /**
   * A `read` line whose average converts but which cannot be read whole: the one
   * kind of line on which the loop as written and the corrected loop part ways.
   */
  predicate PartialRead(line: string, num: string -> Option<real>) {
    Skipped(line, num) && |ReSplit(line)| > 1 && num(ReSplit(line)[1]).Some?
  }

  /** The loop over the log's lines as written, with the partial `read` update. */
  function LogFromAsWritten(st: LogState, lines: seq<string>, num: string -> Option<real>): (r: Result<LogState>)
    ensures r.Err? <==> exists j :: 0 <= j < |lines| && QpsFails(lines[j], num)
    decreases |lines|
  {
    if lines == [] then Ok(st)
    else
      match LineStepAsWritten(st, lines[0], num)
      case Err(e) => Err(e)
      case Ok(st1) => LogFromAsWritten(st1, lines[1..], num)
  }

  /** `parse_mutilate_file(path)` as written. */
  function MutilateAsWritten(path: string, env: Env): (r: Result<Mutilate>)
    ensures env.read(path).None? ==> r == Err(FileNotFoundError(path))
    ensures r.Ok? ==> env.read(path).Some?
    ensures r.Ok? && env.read(path).Some? ==>
      forall j :: 0 <= j < |env.read(path).value| ==> !QpsFails(env.read(path).value[j], env.num)
  {
    match env.read(path)
    case None => Err(FileNotFoundError(path))
    case Some(lines) => MutilateAfterLog(path, env, LogFromAsWritten(Unset, lines, env.num))
  }

  /** As written, a partial `read` line sets the average from its token 1 and skips the QPS check. */
  lemma PartialReadOverwrites(st: LogState, line: string, num: string -> Option<real>)
    requires PartialRead(line, num)
    ensures LineStepAsWritten(st, line, num).Ok?
    ensures LineStepAsWritten(st, line, num).value.lat.avg == num(ReSplit(line)[1])
    ensures LineStepAsWritten(st, line, num).value.qps == st.qps
  {
  }

  /** On a line that is not a partial `read` line, one pass as written is the corrected pass. */
  lemma LineStepAgrees(st: LogState, line: string, num: string -> Option<real>)
    requires !PartialRead(line, num)
    ensures LineStepAsWritten(st, line, num) == LineStep(st, line, num)
  {
    if StartsWith(line, "read") && ReadFields(line, num).Some? {
      assert ReadStepAsWritten(st.lat, ReSplit(line), num) == (LatOf(ReadFields(line, num).value), true);
    }
  }

  /** On a log without partial `read` lines, the loop as written is the corrected loop. */
  lemma {:induction false} LogFromAgrees(st: LogState, lines: seq<string>, num: string -> Option<real>)
    requires forall j :: 0 <= j < |lines| ==> !PartialRead(lines[j], num)
    ensures LogFromAsWritten(st, lines, num) == LogFrom(st, lines, num)
    decreases |lines|
  {
    if lines != [] {
      LineStepAgrees(st, lines[0], num);
      match LineStep(st, lines[0], num)
      case Err(_) =>
      case Ok(st1) =>
        assert forall j :: 0 <= j < |lines[1..]| ==> lines[1..][j] == lines[j + 1];
        LogFromAgrees(st1, lines[1..], num);
    }
  }

  /**
   * `parse_mutilate_file` as written and as corrected give the same result, error
   * or figures, on every log without partial `read` lines.
   */
  lemma MutilateAgrees(path: string, env: Env)
    requires env.read(path).Some? ==> forall j :: 0 <= j < |env.read(path).value| ==> !PartialRead(env.read(path).value[j], env.num)
    ensures MutilateAsWritten(path, env) == MutilateOf(path, env)
  {
    if env.read(path).Some? {
      LogFromAgrees(Unset, env.read(path).value, env.num);
    }
  }

  /** A pass of the loop body that does not raise moves the loop on by one line. */
  lemma LogAdvance(st: LogState, st1: LogState, lines: seq<string>, i: nat, num: string -> Option<real>)
    requires i < |lines| && LineStep(st, lines[i], num) == Ok(st1)
    ensures LogFrom(st, lines[i..], num) == LogFrom(st1, lines[i + 1..], num)
  {
    assert lines[i..][0] == lines[i] && lines[i..][1..] == lines[i + 1..];
  }

  /** A pass of the loop body that raises ends the loop with that error. */
  lemma LogStops(st: LogState, lines: seq<string>, i: nat, num: string -> Option<real>)
    requires i < |lines| && LineStep(st, lines[i], num).Err?
    ensures LogFrom(st, lines[i..], num) == LineStep(st, lines[i], num)
  {
    assert lines[i..][0] == lines[i];
  }

  /** The loop body on one line: the `read` update, then the QPS check. */
  method ReadLine(st: LogState, line: string, num: string -> Option<real>) returns (r: Result<LogState>)
    ensures r == LineStep(st, line, num)
  {
    var next := st;
    if StartsWith(line, "read") {
      var f := ReadFields(line, num);
      if f.None? {
        return Ok(st);
      }
      next := next.(lat := LatOf(f.value));
    }
    assert LineStep(st, line, num) == QpsStep(next, line, num);
    r := CheckQps(next, line, num);
  }

  /** The QPS check of the loop body. */
  method CheckQps(st: LogState, line: string, num: string -> Option<real>) returns (r: Result<LogState>)
    ensures r == QpsStep(st, line, num)
  {
    if Contains(line, QpsGate) {
      var g := QpsSearch(line);
      if g.Some? {
        var v := num(g.value);
        if v.None? {
          return Err(ValueError("could not convert string to float"));
        }
        return Ok(st.(qps := v));
      }
    }
    return Ok(st);
  }

  /** The loop over the log's lines, from unset variables; a ValueError ends it. */
  method ReadLog(lines: seq<string>, num: string -> Option<real>) returns (r: Result<LogState>)
    ensures r == LogFrom(Unset, lines, num)
  {
    var st := Unset;
    var i := 0;
    assert lines[0..] == lines;
    while i < |lines|
      invariant i <= |lines|
      invariant LogFrom(Unset, lines, num) == LogFrom(st, lines[i..], num)
    {
      var step := ReadLine(st, lines[i], num);
      if step.Err? {
        LogStops(st, lines, i, num);
        return step;
      }
      LogAdvance(st, step.value, lines, i, num);
      st := step.value;
      i := i + 1;
    }
    return Ok(st);
  }

  /** `parse_mutilate_file`: the log loop, the `.lat` override and the final check. */
  method ParseMutilateFile(path: string, env: Env) returns (r: Result<Mutilate>)
    ensures r == MutilateOf(path, env)
  {
    var log := env.read(path);
    if log.None? {
      return Err(FileNotFoundError(path));
    }
    var res := ReadLog(log.value, env.num);
    if res.Err? {
      return Err(res.error);
    }
    var st := res.value;
    var lat := st.lat;
    var latLines := env.read(LatPath(path));
    if latLines.Some? {
      var samples := ReadSamples(latLines.value, env.num);
      if samples != [] {
        var (a, p90, p99) := env.latStats(samples);
        lat := Lat(Some(a), Some(p90), Some(p99));
      }
    }
    assert lat == LatWithSamples(st.lat, path, env);
    if lat.avg.None? || lat.p90.None? || lat.p99.None? || st.qps.None? {
      return Err(ValueError("Could not parse mutilate data in " + path));
    }
    return Ok(Mutilate(st.qps.value, lat.avg.value, lat.p90.value, lat.p99.value));
  }

  /**
   * `parse_mutilate_file` succeeds exactly when the log exists, no QPS figure
   * fails to convert, some QPS figure converts, and the latencies come either
   * from raw samples or from a `read` line that gets through; the total QPS is
   * then the last figure read.
   */
  lemma MutilateOkIff(path: string, env: Env)
    ensures MutilateOf(path, env).Ok? <==>
      env.read(path).Some? &&
      (forall j :: 0 <= j < |env.read(path).value| ==> !QpsFails(env.read(path).value[j], env.num)) &&
      LastBy(env.read(path).value, QpsOf(env.num)).Some? &&
      (LatWithSamples(Lat(None, None, None), path, env) != Lat(None, None, None) ||
       LastBy(env.read(path).value, ReadOf(env.num)).Some?)
    ensures MutilateOf(path, env).Ok? ==>
      Some(MutilateOf(path, env).value.qps) == LastBy(env.read(path).value, QpsOf(env.num))
  {
    if env.read(path).Some? {
      LogFromSpec(Unset, env.read(path).value, env.num);
    }
  }

  // ----- parse_powerstat_file -----

  /** What `parse_powerstat_file` returns: mean power, its deviation, and `100 - mean utilisation`. */
  datatype Power = Power(watts: real, stddev: real, idle: real)

  /**
   * `parse_powerstat_file(path)`: the data window's utilisation and power columns,
   * rows where either does not convert dropped, handed to the statistics.
   */
  function PowerOf(path: string, env: Env): (r: Result<Power>)
    ensures r.Ok? <==> env.read(path).Some?
    ensures r.Err? ==> r.error == FileNotFoundError(path)
    ensures r.Ok? ==>
      var (utils, powers) := PairedSamples(Columns(Window(env.read(path).value)), env.num);
      var (w, sd, u) := env.powerStats(utils, powers);
      |utils| == |powers| && r.value == Power(w, sd, 100.0 - u)
  {
    match env.read(path)
    case None => Err(FileNotFoundError(path))
    case Some(lines) =>
      var (utils, powers) := PairedSamples(Columns(Window(lines)), env.num);
      PairedSamplesAligned(Columns(Window(lines)), env.num);
      var (w, sd, u) := env.powerStats(utils, powers);
      Ok(Power(w, sd, 100.0 - u))
  }

  // ----- collect_logs_from_directory -----

  /** One output row: rate, total QPS, the three latencies, power, deviation and idle share. */
  datatype Record = Record(rate: int, qps: real, avgLat: real, p90Lat: real, p99Lat: real,
                           watts: real, stddev: real, idle: real)

  predicate IsMasterLog(f: string) {
    StartsWith(f, MasterPrefix) && EndsWith(f, ".log")
  }

  predicate IsPowerReport(f: string) {
    StartsWith(f, PowerPrefix)
  }

  /** `[f for f in files if keep(f)]` */
  function Select(files: seq<string>, keep: string -> bool): (r: seq<string>)
    ensures forall f :: f in r <==> f in files && keep(f)
    decreases |files|
  {
    if files == [] then []
    else
      var rest := Select(files[1..], keep);
      assert forall f :: f in files[1..] ==> f in files;
      if keep(files[0]) then [files[0]] + rest else rest
  }

  /** The rates of a list of names in order, or the ValueError of the first name that has none. */
  function RatesOf(names: seq<string>, toInt: string -> Option<int>): Result<seq<int>>
    decreases |names|
  {
    if names == [] then Ok([])
    else
      match RateOf(names[0], toInt)
      case Err(e) => Err(e)
      case Ok(n) =>
        match RatesOf(names[1..], toInt)
        case Err(e) => Err(e)
        case Ok(rest) => Ok([n] + rest)
  }

  /** `Ok(rows + v)` for a later `Ok(v)`, the error itself for a later error. */
  function Prefixed<T>(rows: seq<T>, r: Result<seq<T>>): Result<seq<T>> {
    match r
    case Ok(v) => Ok(rows + v)
    case Err(e) => Err(e)
  }

  /** The rates are read name by name: all of them, or a ValueError when one name has none. */
  lemma {:induction false} RatesOfSpec(names: seq<string>, toInt: string -> Option<int>)
    ensures RatesOf(names, toInt).Err? <==> exists k :: 0 <= k < |names| && RateOf(names[k], toInt).Err?
    ensures RatesOf(names, toInt).Ok? ==>
      |RatesOf(names, toInt).value| == |names| &&
      forall k :: 0 <= k < |names| ==> RateOf(names[k], toInt) == Ok(RatesOf(names, toInt).value[k])
    decreases |names|
  {
    if names != [] {
      var rest := names[1..];
      RatesOfSpec(rest, toInt);
      assert forall k :: 0 < k < |names| ==> names[k] == rest[k - 1];
      match RateOf(names[0], toInt)
      case Err(_) =>
      case Ok(n) =>
        if RatesOf(rest, toInt).Err? {
          var k :| 0 <= k < |rest| && RateOf(rest[k], toInt).Err?;
          assert RateOf(names[k + 1], toInt).Err?;
        } else {
          var v := RatesOf(rest, toInt).value;
          assert RatesOf(names, toInt).value == [n] + v;
          forall k | 0 <= k < |names| ensures RateOf(names[k], toInt) == Ok(([n] + v)[k]) {
            if k > 0 {
              assert RateOf(rest[k - 1], toInt) == Ok(v[k - 1]);
            }
          }
        }
    }
  }

  /** `int(f.split("_")[-1].split(".")[0])` for each name, in a loop that stops at the first ValueError. */
  method ExtractRates(names: seq<string>, toInt: string -> Option<int>) returns (r: Result<seq<int>>)
    ensures r == RatesOf(names, toInt)
  {
    var rates: seq<int> := [];
    assert names[0..] == names;
    PrefixedNothing(RatesOf(names, toInt));
    for i := 0 to |names|
      invariant RatesOf(names, toInt) == Prefixed(rates, RatesOf(names[i..], toInt))
    {
      assert names[i..][0] == names[i] && names[i..][1..] == names[i + 1..];
      var rate := RateOf(names[i], toInt);
      if rate.Err? {
        return Err(rate.error);
      }
      assert RatesOf(names[i..], toInt) == Prefixed([rate.value], RatesOf(names[i + 1..], toInt));
      PrefixedTwice(rates, [rate.value], RatesOf(names[i + 1..], toInt));
      rates := rates + [rate.value];
    }
    assert names[|names|..] == [];
    assert rates + [] == rates;
    return Ok(rates);
  }

  /** The row of each rate of a directory. */
  function RowFor(root: string, env: Env): int -> Option<Record> {
    rate => RowOf(root, rate, env)
  }

  /** The row for one rate of a directory, when both of its files parse. */
  function RowOf(root: string, rate: int, env: Env): Option<Record> {
    match MutilateOf(Join(root, MasterName(rate)), env)
    case Err(_) => None
    case Ok(m) =>
      match PowerOf(Join(root, PowerName(rate)), env)
      case Err(_) => None
      case Ok(p) => Some(Record(rate, m.qps, m.avg, m.p90, m.p99, p.watts, p.stddev, p.idle))
  }

  /** The rows of one directory: a row per distinct mutilate rate, in ascending order, where both files parse. */
  function DirRows(root: string, files: seq<string>, env: Env): Result<seq<Record>> {
    match RatesOf(Select(files, IsMasterLog), env.toInt)
    case Err(e) => Err(e)
    case Ok(rates) =>
      match RatesOf(Select(files, IsPowerReport), env.toInt)
      case Err(e) => Err(e)
      case Ok(_) => Ok(FilterMap(SortedInts(set x | x in rates), RowFor(root, env)))
  }

  /** The rows of all directories in walking order; a rate that is no integer ends the walk. */
  function CollectOf(dirs: seq<(string, seq<string>)>, env: Env): Result<seq<Record>>
    decreases |dirs|
  {
    if dirs == [] then Ok([])
    else
      match DirRows(dirs[0].0, dirs[0].1, env)
      case Err(e) => Err(e)
      case Ok(rows) => Prefixed(rows, CollectOf(dirs[1..], env))
  }

  lemma PrefixedNothing<T>(r: Result<seq<T>>)
    ensures Prefixed([], r) == r
  {
    if r.Ok? {
      assert [] + r.value == r.value;
    }
  }

  lemma PrefixedTwice<T>(a: seq<T>, b: seq<T>, r: Result<seq<T>>)
    ensures Prefixed(a, Prefixed(b, r)) == Prefixed(a + b, r)
  {
    if r.Ok? {
      assert a + (b + r.value) == a + b + r.value;
    }
  }

  /** The rows of a directory's sorted rates: a row for each rate whose two files parse. */
  method RowsForRates(root: string, rates: seq<int>, env: Env) returns (rows: seq<Record>)
    ensures rows == FilterMap(rates, RowFor(root, env))
  {
    rows := [];
    for k := 0 to |rates|
      invariant rows == FilterMap(rates[..k], RowFor(root, env))
    {
      assert rates[..k + 1][..k] == rates[..k];
      var m := ParseMutilateFile(Join(root, MasterName(rates[k])), env);
      if m.Ok? {
        var p := PowerOf(Join(root, PowerName(rates[k])), env);
        if p.Ok? {
          rows := rows + [Record(rates[k], m.value.qps, m.value.avg, m.value.p90, m.value.p99,
                                 p.value.watts, p.value.stddev, p.value.idle)];
        }
      }
    }
    assert rates[..|rates|] == rates;
  }

  /** The rows of one directory: its rates first (a ValueError ends everything), then a row per rate. */
  method DirectoryRows(root: string, files: seq<string>, env: Env) returns (r: Result<seq<Record>>)
    ensures r == DirRows(root, files, env)
  {
    var mutilateRates := ExtractRates(Select(files, IsMasterLog), env.toInt);
    if mutilateRates.Err? {
      return Err(mutilateRates.error);
    }
    var powerstatRates := ExtractRates(Select(files, IsPowerReport), env.toInt);
    if powerstatRates.Err? {
      return Err(powerstatRates.error);
    }
    var rates := SortedInts(set x | x in mutilateRates.value);
    var rows := RowsForRates(root, rates, env);
    return Ok(rows);
  }

  /** `collect_logs_from_directory`: the walk over the directories and their rates. */
  method CollectLogs(dirs: seq<(string, seq<string>)>, env: Env) returns (r: Result<seq<Record>>)
    ensures r == CollectOf(dirs, env)
  {
    var results: seq<Record> := [];
    assert dirs[0..] == dirs;
    PrefixedNothing(CollectOf(dirs, env));
    for d := 0 to |dirs|
      invariant CollectOf(dirs, env) == Prefixed(results, CollectOf(dirs[d..], env))
    {
      assert dirs[d..][0] == dirs[d] && dirs[d..][1..] == dirs[d + 1..];
      var rows := DirectoryRows(dirs[d].0, dirs[d].1, env);
      if rows.Err? {
        return Err(rows.error);
      }
      assert CollectOf(dirs[d..], env) == Prefixed(rows.value, CollectOf(dirs[d + 1..], env));
      PrefixedTwice(results, rows.value, CollectOf(dirs[d + 1..], env));
      results := results + rows.value;
    }
    assert dirs[|dirs|..] == [];
    assert results + [] == results;
    return Ok(results);
  }

  /** A row carries the rate it was made for. */
  lemma RowForKeepsRate(root: string, env: Env)
    ensures forall rate :: RowFor(root, env)(rate).Some? ==> RowFor(root, env)(rate).value.rate == rate
  {
  }

  /** A directory's rows, when its rates read: a row per distinct mutilate rate, ascending. */
  lemma DirRowsValue(root: string, files: seq<string>, env: Env)
    requires DirRows(root, files, env).Ok?
    ensures RatesOf(Select(files, IsMasterLog), env.toInt).Ok?
    ensures DirRows(root, files, env).value ==
      FilterMap(SortedInts(set x | x in RatesOf(Select(files, IsMasterLog), env.toInt).value), RowFor(root, env))
  {
  }

  /** Every rate read from the mutilate log names comes from one such name. */
  lemma RateHasLog(files: seq<string>, env: Env, rate: int)
    requires RatesOf(Select(files, IsMasterLog), env.toInt).Ok?
    requires rate in RatesOf(Select(files, IsMasterLog), env.toInt).value
    ensures exists f :: f in files && IsMasterLog(f) && RateOf(f, env.toInt) == Ok(rate)
  {
    var names := Select(files, IsMasterLog);
    var rates := RatesOf(names, env.toInt).value;
    var k :| 0 <= k < |rates| && rates[k] == rate;
    RatesOfSpec(names, env.toInt);
    assert names[k] in names;
    assert RateOf(names[k], env.toInt) == Ok(rate);
  }

  /**
   * The rows of a directory come in strictly ascending rate order, one per rate
   * at most, and each row carries a rate read from one of its mutilate log names.
   */
  lemma DirRowsOrdered(root: string, files: seq<string>, env: Env)
    requires DirRows(root, files, env).Ok?
    ensures var rows := DirRows(root, files, env).value;
      (forall i, j :: 0 <= i < j < |rows| ==> rows[i].rate < rows[j].rate) &&
      forall i :: 0 <= i < |rows| ==>
        exists f :: f in files && IsMasterLog(f) && RateOf(f, env.toInt) == Ok(rows[i].rate)
  {
    DirRowsValue(root, files, env);
    var rates := RatesOf(Select(files, IsMasterLog), env.toInt).value;
    var sorted := SortedInts(set x | x in rates);
    var rows := DirRows(root, files, env).value;
    RowForKeepsRate(root, env);
    RowsKeepRates(sorted, RowFor(root, env));
    forall i | 0 <= i < |rows|
      ensures exists g :: g in files && IsMasterLog(g) && RateOf(g, env.toInt) == Ok(rows[i].rate)
    {
      assert rows[i].rate in sorted;
      RateHasLog(files, env, rows[i].rate);
    }
  }

  /** Filtering rows out of an ascending list of rates keeps them ascending and drawn from the list. */
  lemma {:induction false} RowsKeepRates(rates: seq<int>, f: int -> Option<Record>)
    requires StrictlyIncreasingInts(rates)
    requires forall rate :: f(rate).Some? ==> f(rate).value.rate == rate
    ensures forall i, j :: 0 <= i < j < |FilterMap(rates, f)| ==> FilterMap(rates, f)[i].rate < FilterMap(rates, f)[j].rate
    ensures forall i :: 0 <= i < |FilterMap(rates, f)| ==> FilterMap(rates, f)[i].rate in rates
    decreases |rates|
  {
    if rates != [] {
      var init := rates[..|rates| - 1];
      var last := rates[|rates| - 1];
      assert StrictlyIncreasingInts(init);
      RowsKeepRates(init, f);
      var before := FilterMap(init, f);
      forall i | 0 <= i < |before|
        ensures before[i].rate in rates && before[i].rate < last
      {
        assert before[i].rate in init;
        var k :| 0 <= k < |init| && init[k] == before[i].rate;
        assert rates[k] == init[k];
      }
      match f(last)
      case None =>
        assert FilterMap(rates, f) == before;
      case Some(row) =>
        assert FilterMap(rates, f) == before + [row];
    }
  }

  /** A rate of a mutilate log in the directory whose two files parse does get its row. */
  lemma DirRowsComplete(root: string, files: seq<string>, env: Env, name: string)
    requires DirRows(root, files, env).Ok?
    requires name in files && IsMasterLog(name) && RateOf(name, env.toInt).Ok?
    requires RowOf(root, RateOf(name, env.toInt).value, env).Some?
    ensures RowOf(root, RateOf(name, env.toInt).value, env).value in DirRows(root, files, env).value
  {
    DirRowsValue(root, files, env);
    var names := Select(files, IsMasterLog);
    var rates := RatesOf(names, env.toInt).value;
    var rate := RateOf(name, env.toInt).value;
    assert rate in rates by {
      RatesOfSpec(names, env.toInt);
      var k :| 0 <= k < |names| && names[k] == name;
      assert rates[k] == rate;
    }
    var sorted := SortedInts(set x | x in rates);
    assert rate in sorted;
    var j :| 0 <= j < |sorted| && sorted[j] == rate;
    assert RowFor(root, env)(sorted[j]) == RowOf(root, rate, env);
    FilterMapSpec(sorted, RowFor(root, env));
  }

  // ----- sorting the rows by rate -----

  predicate ByRate(rows: seq<Record>) {
    forall i, j :: 0 <= i < j < |rows| ==> rows[i].rate <= rows[j].rate
  }

  /** Inserts a row before the first row of a greater or equal rate, as a stable sort places an earlier row. */
  function Insert(row: Record, rows: seq<Record>): seq<Record>
    decreases |rows|
  {
    if rows == [] then [row]
    else if row.rate <= rows[0].rate then [row] + rows
    else [rows[0]] + Insert(row, rows[1..])
  }

  /** Inserting adds exactly that row. */
  lemma {:induction false} InsertPermutes(row: Record, rows: seq<Record>)
    ensures multiset(Insert(row, rows)) == multiset(rows) + multiset{row}
    decreases |rows|
  {
    if rows != [] && row.rate > rows[0].rate {
      InsertPermutes(row, rows[1..]);
      assert rows == [rows[0]] + rows[1..];
    }
  }

  /** A lower bound of the row and of every row it is inserted into bounds the result. */
  lemma {:induction false} InsertBound(row: Record, rows: seq<Record>, b: int)
    requires b <= row.rate && forall i :: 0 <= i < |rows| ==> b <= rows[i].rate
    ensures forall i :: 0 <= i < |Insert(row, rows)| ==> b <= Insert(row, rows)[i].rate
    decreases |rows|
  {
    if rows != [] && row.rate > rows[0].rate {
      InsertBound(row, rows[1..], b);
    }
  }

  /** Inserting into rows ordered by rate keeps them ordered. */
  lemma {:induction false} InsertOrdered(row: Record, rows: seq<Record>)
    requires ByRate(rows)
    ensures ByRate(Insert(row, rows))
    decreases |rows|
  {
    if rows != [] && row.rate > rows[0].rate {
      var rest := Insert(row, rows[1..]);
      InsertOrdered(row, rows[1..]);
      InsertBound(row, rows[1..], rows[0].rate);
      assert Insert(row, rows) == [rows[0]] + rest;
    }
  }

  /** `results.sort(key=lambda x: int(x[0]))`: the rows by ascending rate. */
  function SortByRate(rows: seq<Record>): (r: seq<Record>)
    ensures ByRate(r) && multiset(r) == multiset(rows)
    decreases |rows|
  {
    if rows == [] then []
    else
      var sorted := SortByRate(rows[1..]);
      assert rows == [rows[0]] + rows[1..];
      InsertOrdered(rows[0], sorted);
      InsertPermutes(rows[0], sorted);
      Insert(rows[0], sorted)
  }

  /** The aggregated rows: all collected rows, sorted by rate; none when the walk fails. */
  function Aggregate(dirs: seq<(string, seq<string>)>, env: Env): (r: Result<seq<Record>>)
    ensures r.Ok? <==> CollectOf(dirs, env).Ok?
    ensures r.Ok? ==> ByRate(r.value) && multiset(r.value) == multiset(CollectOf(dirs, env).value)
  {
    match CollectOf(dirs, env)
    case Err(e) => Err(e)
    case Ok(rows) => Ok(SortByRate(rows))
  }
}
