/**
 * The string operations the scripts use on log lines and file names:
 * `str.split()`, `re.split(r'\s+', ...)`, `str.split(c)`, `str.startswith`,
 * `str.endswith`, `in`, `str.replace`, `list.index`, `str.rfind` and `str(n)`.
 * Whitespace is that of Python's `str.isspace`, which `str.split()`, `str.strip()`
 * and the `\s` of `re` share: the ASCII controls tab to carriage return and the
 * separators 0x1C to 0x1F, the space, and the Unicode spaces and line separators.
 */
module Text {
  import opened Wrappers

  predicate IsSpace(c: char) {
    c == ' ' || ('\t' <= c <= '\r') || ('\U{1C}' <= c <= '\U{1F}') ||
    c == '\U{85}' || c == '\U{A0}' || c == '\U{1680}' || ('\U{2000}' <= c <= '\U{200A}') ||
    c == '\U{2028}' || c == '\U{2029}' || c == '\U{202F}' || c == '\U{205F}' || c == '\U{3000}'
  }

  predicate NoSpace(w: string) {
    forall i :: 0 <= i < |w| ==> !IsSpace(w[i])
  }

  /** Length of the longest prefix of `s` without whitespace. */
  function WordEnd(s: string): (n: nat)
    ensures n <= |s|
    ensures forall i :: 0 <= i < n ==> !IsSpace(s[i])
    ensures n < |s| ==> IsSpace(s[n])
  {
    if s == [] || IsSpace(s[0]) then 0 else 1 + WordEnd(s[1..])
  }

  /** Length of the longest prefix of `s` made of whitespace. */
  function SpaceEnd(s: string): (n: nat)
    ensures n <= |s|
    ensures forall i :: 0 <= i < n ==> IsSpace(s[i])
    ensures n < |s| ==> !IsSpace(s[n])
  {
    if s == [] || !IsSpace(s[0]) then 0 else 1 + SpaceEnd(s[1..])
  }

  /** `s.rstrip()`: `s` without its trailing whitespace. */
  function TrimEnd(s: string): (r: string)
    ensures |r| <= |s| && r == s[..|r|]
    ensures r == [] || !IsSpace(r[|r| - 1])
    ensures forall i :: |r| <= i < |s| ==> IsSpace(s[i])
    decreases |s|
  {
    if s != [] && IsSpace(s[|s| - 1]) then
      var r := TrimEnd(s[..|s| - 1]);
      assert s[..|s| - 1][..|r|] == s[..|r|];
      r
    else s
  }

  /** `s.strip()`: `s` without its leading and trailing whitespace. */
  function Strip(s: string): (r: string)
    ensures r == [] || (!IsSpace(r[0]) && !IsSpace(r[|r| - 1]))
    ensures r == [] <==> forall i :: 0 <= i < |s| ==> IsSpace(s[i])
  {
    var n := SpaceEnd(s);
    var r := TrimEnd(s[n..]);
    assert r != [] ==> r[0] == s[n];
    r
  }

  /**
   * What `s.strip()` keeps: the slice of `s` that starts after the leading
   * whitespace run, with nothing but whitespace after it.
   */
  lemma StripSlice(s: string)
    ensures var n, r := SpaceEnd(s), Strip(s);
      n + |r| <= |s| && r == s[n..n + |r|] && forall i :: n + |r| <= i < |s| ==> IsSpace(s[i])
  {
    TrimSlice(s, SpaceEnd(s), s[SpaceEnd(s)..], Strip(s));
  }

  lemma TrimSlice(s: string, n: nat, t: string, r: string)
    requires n <= |s| && t == s[n..] && r == TrimEnd(t)
    ensures n + |r| <= |s| && r == s[n..n + |r|]
    ensures forall i :: n + |r| <= i < |s| ==> IsSpace(s[i])
  {
    assert r == t[..|r|];
    assert forall i :: n + |r| <= i < |s| ==> s[i] == t[i - n];
  }

  /** Python's `s.split()`: the maximal runs of non-whitespace characters, in order. */
  function Words(s: string): (ws: seq<string>)
    ensures forall k :: 0 <= k < |ws| ==> ws[k] != [] && NoSpace(ws[k])
    decreases |s|
  {
    if s == [] then []
    else if IsSpace(s[0]) then Words(s[1..])
    else
      var n := WordEnd(s);
      [s[..n]] + Words(s[n..])
  }

  /** The words joined by single spaces. */
  function Unwords(ws: seq<string>): string {
    if ws == [] then []
    else if |ws| == 1 then ws[0]
    else ws[0] + " " + Unwords(ws[1..])
  }

  lemma {:induction false} WordsSkipSpace(s: string)
    requires s != [] && IsSpace(s[0])
    ensures Words(s) == Words(s[1..])
  {
  }

  /** A word followed by a space, or by nothing, is split off as the first word. */
  lemma {:induction false} WordsOfWordThen(w: string, rest: string)
    requires w != [] && NoSpace(w)
    requires rest == [] || IsSpace(rest[0])
    ensures Words(w + rest) == [w] + Words(rest)
  {
    var s := w + rest;
    WordEndOfWordThen(w, rest);
    assert s[..WordEnd(s)] == w;
    assert s[WordEnd(s)..] == rest;
  }

  lemma {:induction false} WordEndOfWordThen(w: string, rest: string)
    requires NoSpace(w)
    requires rest == [] || IsSpace(rest[0])
    ensures WordEnd(w + rest) == |w|
    decreases |w|
  {
    if w != [] {
      assert (w + rest)[1..] == w[1..] + rest;
      WordEndOfWordThen(w[1..], rest);
    } else {
      assert w + rest == rest;
    }
  }

  /** `split()` undoes joining with single spaces: the tokens of a file written out are read back. */
  lemma {:induction false} WordsOfUnwords(ws: seq<string>)
    requires forall k :: 0 <= k < |ws| ==> ws[k] != [] && NoSpace(ws[k])
    ensures Words(Unwords(ws)) == ws
    decreases |ws|
  {
    if ws == [] {
    } else if |ws| == 1 {
      WordsOfWordThen(ws[0], []);
      assert ws[0] + [] == ws[0];
    } else {
      var tail := Unwords(ws[1..]);
      assert ws[0] + " " + tail == ws[0] + (" " + tail);
      WordsOfWordThen(ws[0], " " + tail);
      WordsSkipSpace(" " + tail);
      assert (" " + tail)[1..] == tail;
      WordsOfUnwords(ws[1..]);
      assert ws == [ws[0]] + ws[1..];
    }
  }

  /**
   * Python's `re.split(r'\s+', s)`: the fields between maximal whitespace runs,
   * including an empty first field when `s` starts with whitespace and an empty
   * last field when it ends with whitespace.
   */
  function ReSplit(s: string): (parts: seq<string>)
    ensures |parts| >= 1
    ensures parts[0] == s[..WordEnd(s)]
    decreases |s|
  {
    var n := WordEnd(s);
    if n == |s| then [s]
    else
      var m := SpaceEnd(s[n..]);
      [s[..n]] + ReSplit(s[n + m..])
  }

  /** The whitespace runs between the fields of `re.split(r'\s+', s)`, in order. */
  function Gaps(s: string): seq<string>
    decreases |s|
  {
    var n := WordEnd(s);
    if n == |s| then []
    else
      var m := SpaceEnd(s[n..]);
      [s[n..][..m]] + Gaps(s[n + m..])
  }

  /** The fields with the runs put back between them. */
  function Weave(parts: seq<string>, gaps: seq<string>): string
    requires |parts| == |gaps| + 1
    decreases |gaps|
  {
    if gaps == [] then parts[0] else parts[0] + gaps[0] + Weave(parts[1..], gaps[1..])
  }

  /** No field of `re.split(r'\s+', s)` holds whitespace. */
  lemma {:induction false} ReSplitNoSpace(s: string)
    ensures forall k :: 0 <= k < |ReSplit(s)| ==> NoSpace(ReSplit(s)[k])
    decreases |s|
  {
    var n := WordEnd(s);
    if n < |s| {
      var m := SpaceEnd(s[n..]);
      ReSplitUnfold(s, n, m);
      ReSplitNoSpace(s[n + m..]);
    }
  }

  /** There is one run of whitespace between any two fields. */
  lemma {:induction false} GapsCount(s: string)
    ensures |ReSplit(s)| == |Gaps(s)| + 1
    decreases |s|
  {
    var n := WordEnd(s);
    if n < |s| {
      var m := SpaceEnd(s[n..]);
      ReSplitUnfold(s, n, m);
      GapsUnfold(s, n, m);
      GapsCount(s[n + m..]);
    }
  }

  /** A nonempty run of whitespace. */
  predicate SpaceRun(g: string) {
    g != [] && forall i :: 0 <= i < |g| ==> IsSpace(g[i])
  }

  /** Every run between two fields is nonempty and all whitespace. */
  lemma {:induction false} GapsSpaces(s: string)
    ensures forall k :: 0 <= k < |Gaps(s)| ==> SpaceRun(Gaps(s)[k])
    decreases |s|
  {
    var n := WordEnd(s);
    if n < |s| {
      var m := SpaceEnd(s[n..]);
      var t := s[n..];
      GapsUnfold(s, n, m);
      PrefixRun(t, m);
      GapsSpaces(s[n + m..]);
      RunsCons(t[..m], Gaps(s[n + m..]), Gaps(s));
    }
  }

  lemma RunsCons(g: string, gs: seq<string>, all: seq<string>)
    requires all == [g] + gs && SpaceRun(g) && forall k :: 0 <= k < |gs| ==> SpaceRun(gs[k])
    ensures forall k :: 0 <= k < |all| ==> SpaceRun(all[k])
  {
    assert forall k :: 0 < k < |all| ==> all[k] == gs[k - 1];
  }

  lemma PrefixRun(t: string, m: nat)
    requires t != [] && IsSpace(t[0]) && m == SpaceEnd(t)
    ensures SpaceRun(t[..m])
  {
  }

  /** `re.split(r'\s+', s)` loses nothing: weaving the runs back between the fields gives `s`. */
  lemma {:induction false} ReSplitWeave(s: string)
    ensures |ReSplit(s)| == |Gaps(s)| + 1 && Weave(ReSplit(s), Gaps(s)) == s
    decreases |s|
  {
    GapsCount(s);
    var n := WordEnd(s);
    if n < |s| {
      var m := SpaceEnd(s[n..]);
      var t := s[n + m..];
      ReSplitUnfold(s, n, m);
      GapsUnfold(s, n, m);
      ReSplitWeave(t);
      WeaveStep(s[..n], s[n..][..m], ReSplit(t), Gaps(t), t);
      Concat3(s, n, m);
    } else {
      assert s[..n] == s;
    }
  }

  lemma WeaveStep(a: string, g: string, ps: seq<string>, gs: seq<string>, t: string)
    requires |ps| == |gs| + 1 && Weave(ps, gs) == t
    ensures Weave([a] + ps, [g] + gs) == a + g + t
  {
    assert ([a] + ps)[1..] == ps && ([g] + gs)[1..] == gs;
  }

  lemma Concat3(s: string, n: nat, m: nat)
    requires n + m <= |s|
    ensures s[..n] + s[n..][..m] + s[n + m..] == s
  {
    assert s[n..][..m] == s[n..n + m];
  }

  lemma GapsUnfold(s: string, n: nat, m: nat)
    requires n == WordEnd(s) < |s| && m == SpaceEnd(s[n..])
    ensures Gaps(s) == [s[n..][..m]] + Gaps(s[n + m..])
  {
  }

  lemma ReSplitUnfold(s: string, n: nat, m: nat)
    requires n == WordEnd(s) < |s| && m == SpaceEnd(s[n..])
    ensures ReSplit(s) == [s[..n]] + ReSplit(s[n + m..])
  {
  }

  /** `list.index(x)`, with `None` where Python raises ValueError. */
  function FirstIndex<T(==)>(s: seq<T>, x: T): (r: Option<nat>)
    ensures r.None? <==> x !in s
    ensures r.Some? ==> r.value < |s| && s[r.value] == x && forall j :: 0 <= j < r.value ==> s[j] != x
  {
    if s == [] then None
    else if s[0] == x then Some(0)
    else
      match FirstIndex(s[1..], x)
      case None => None
      case Some(i) =>
        assert forall j :: 1 <= j < i + 1 ==> s[j] == s[1..][j - 1];
        Some(i + 1)
  }

  /** `str.rfind(c)`, with `None` for Python's -1. */
  function LastIndex<T(==)>(s: seq<T>, x: T): (r: Option<nat>)
    ensures r.None? <==> x !in s
    ensures r.Some? ==> r.value < |s| && s[r.value] == x && x !in s[r.value + 1..]
  {
    if s == [] then None
    else if s[|s| - 1] == x then Some(|s| - 1)
    else
      var r := LastIndex(s[..|s| - 1], x);
      if r.Some? then
        assert s[r.value + 1..] == s[..|s| - 1][r.value + 1..] + [s[|s| - 1]];
        r
      else
        assert s == s[..|s| - 1] + [s[|s| - 1]];
        r
  }

  /** Python's `s.split(c)` for a one-character separator. */
  function SplitChar(s: string, c: char): (parts: seq<string>)
    ensures |parts| >= 1
    decreases |s|
  {
    match FirstIndex(s, c)
    case None => [s]
    case Some(i) => [s[..i]] + SplitChar(s[i + 1..], c)
  }

  /** The first occurrence is at `i` when `s[i]` is one and nothing before it is. */
  lemma FirstIndexAt<T>(s: seq<T>, x: T, i: nat)
    requires i < |s| && s[i] == x && forall j :: 0 <= j < i ==> s[j] != x
    ensures FirstIndex(s, x) == Some(i)
  {
  }

  /** A split has a single part exactly when the separator does not occur. */
  lemma SplitCharSingle(s: string, c: char)
    ensures |SplitChar(s, c)| == 1 <==> c !in s
  {
    match FirstIndex(s, c)
    case None =>
    case Some(i) =>
      assert |SplitChar(s, c)| == 1 + |SplitChar(s[i + 1..], c)|;
  }

  /** No part of a split holds the separator. */
  lemma {:induction false} SplitCharParts(s: string, c: char)
    ensures forall k :: 0 <= k < |SplitChar(s, c)| ==> c !in SplitChar(s, c)[k]
    decreases |s|
  {
    match FirstIndex(s, c)
    case None =>
    case Some(i) =>
      SplitCharParts(s[i + 1..], c);
      assert SplitChar(s, c) == [s[..i]] + SplitChar(s[i + 1..], c);
  }

  /** A split after the first separator is its first part followed by the split of the rest. */
  lemma SplitCharUnfold(s: string, c: char, i: nat)
    requires FirstIndex(s, c) == Some(i)
    ensures SplitChar(s, c) == [s[..i]] + SplitChar(s[i + 1..], c)
  {
  }

  /** Python's `c.join(parts)`. */
  function JoinChar(parts: seq<string>, c: char): string
    requires |parts| >= 1
  {
    if |parts| == 1 then parts[0] else parts[0] + [c] + JoinChar(parts[1..], c)
  }

  lemma {:induction false} JoinSplit(s: string, c: char)
    ensures JoinChar(SplitChar(s, c), c) == s
    decreases |s|
  {
    match FirstIndex(s, c)
    case None =>
    case Some(i) =>
      var parts := SplitChar(s, c);
      var rest := SplitChar(s[i + 1..], c);
      assert parts == [s[..i]] + rest;
      assert parts[0] == s[..i] && parts[1..] == rest;
      assert JoinChar(parts, c) == s[..i] + [c] + JoinChar(rest, c);
      JoinSplit(s[i + 1..], c);
      SplitAt(s, i);
  }

  lemma SplitAt<T>(s: seq<T>, i: nat)
    requires i < |s|
    ensures s == s[..i] + [s[i]] + s[i + 1..]
  {
  }

  lemma {:induction false} SplitJoin(parts: seq<string>, c: char)
    requires |parts| >= 1
    requires forall k :: 0 <= k < |parts| ==> c !in parts[k]
    ensures SplitChar(JoinChar(parts, c), c) == parts
    decreases |parts|
  {
    if |parts| > 1 {
      var s := JoinChar(parts, c);
      var tail := JoinChar(parts[1..], c);
      assert s == parts[0] + [c] + tail;
      assert s[|parts[0]|] == c;
      assert s[..|parts[0]|] == parts[0];
      assert FirstIndex(s, c) == Some(|parts[0]|);
      assert s[|parts[0]| + 1..] == tail;
      SplitJoin(parts[1..], c);
      assert parts == [parts[0]] + parts[1..];
    }
  }

  predicate StartsWith(s: string, prefix: string) {
    |prefix| <= |s| && s[..|prefix|] == prefix
  }

  predicate EndsWith(s: string, suffix: string) {
    |suffix| <= |s| && s[|s| - |suffix|..] == suffix
  }

  /** Python's `sub in s`. */
  predicate Contains(s: string, sub: string)
    decreases |s|
  {
    StartsWith(s, sub) || (s != [] && Contains(s[1..], sub))
  }

  /** Python's `s.replace(pat, rep)`: every non-overlapping occurrence, left to right. */
  function Replace(s: string, pat: string, rep: string): string
    requires pat != []
    decreases |s|
  {
    if s == [] then []
    else if StartsWith(s, pat) then rep + Replace(s[|pat|..], pat, rep)
    else [s[0]] + Replace(s[1..], pat, rep)
  }

  lemma {:induction false} ReplaceAbsent(s: string, pat: string, rep: string)
    requires pat != [] && !Contains(s, pat)
    ensures Replace(s, pat, rep) == s
    decreases |s|
  {
    if s != [] {
      ReplaceAbsent(s[1..], pat, rep);
      assert s == [s[0]] + s[1..];
    }
  }

  /** An occurrence of `pat` at the front is replaced, and the scan resumes after it. */
  lemma {:induction false} ReplaceFront(pat: string, rep: string, rest: string)
    requires pat != []
    ensures Replace(pat + rest, pat, rep) == rep + Replace(rest, pat, rep)
  {
    assert (pat + rest)[..|pat|] == pat;
    assert (pat + rest)[|pat|..] == rest;
  }

  /** A prefix that holds no occurrence of `pat` and cannot start one is kept as it is. */
  lemma {:induction false} ReplaceKeepPrefix(a: string, b: string, pat: string, rep: string)
    requires pat != []
    requires forall i :: 0 <= i < |a| ==> !StartsWith((a + b)[i..], pat)
    ensures Replace(a + b, pat, rep) == a + Replace(b, pat, rep)
    decreases |a|
  {
    if a != [] {
      var s := a + b;
      assert s[0..] == s;
      assert s[1..] == a[1..] + b;
      forall i | 0 <= i < |a[1..]|
        ensures !StartsWith((a[1..] + b)[i..], pat)
      {
        assert (a[1..] + b)[i..] == s[i + 1..];
      }
      ReplaceKeepPrefix(a[1..], b, pat, rep);
      assert a == [a[0]] + a[1..];
    } else {
      assert a + b == b;
    }
  }

  predicate IsDigit(c: char) {
    '0' <= c <= '9'
  }

  predicate AllDigits(s: string) {
    forall i :: 0 <= i < |s| ==> IsDigit(s[i])
  }

  function DigitChar(d: nat): (c: char)
    requires d < 10
    ensures IsDigit(c) && c as int - '0' as int == d
  {
    ('0' as int + d) as char
  }

  /** Python's `str(n)` for a non-negative integer. */
  function DecimalString(n: nat): (s: string)
    ensures s != [] && AllDigits(s)
    decreases n
  {
    if n < 10 then [DigitChar(n)] else DecimalString(n / 10) + [DigitChar(n % 10)]
  }

  /** The number a string of decimal digits denotes. */
  function DigitsValue(s: string): nat
    requires AllDigits(s)
  {
    if s == [] then 0
    else DigitsValue(s[..|s| - 1]) * 10 + (s[|s| - 1] as int - '0' as int)
  }

  lemma {:induction false} DecimalStringRoundTrip(n: nat)
    ensures DigitsValue(DecimalString(n)) == n
    decreases n
  {
    if n >= 10 {
      var s := DecimalString(n);
      assert s[..|s| - 1] == DecimalString(n / 10);
      DecimalStringRoundTrip(n / 10);
    }
  }

  lemma DecimalStringInjective(m: nat, n: nat)
    requires DecimalString(m) == DecimalString(n)
    ensures m == n
  {
    DecimalStringRoundTrip(m);
    DecimalStringRoundTrip(n);
  }

  /** Python's `str(i)` for any integer. */
  function IntString(i: int): string {
    if i < 0 then "-" + DecimalString(-i) else DecimalString(i)
  }

  /**
   * The value of the last element of `xs` on which `f` yields one: the shape of a
   * loop that overwrites a variable whenever a line parses and leaves it otherwise.
   */
  function LastBy<A, T>(xs: seq<A>, f: A -> Option<T>): Option<T>
    decreases |xs|
  {
    if xs == [] then None
    else
      match f(xs[|xs| - 1])
      case Some(v) => Some(v)
      case None => LastBy(xs[..|xs| - 1], f)
  }

  lemma {:induction false} LastByIsLast<A, T>(xs: seq<A>, f: A -> Option<T>)
    ensures LastBy(xs, f).None? <==> forall j :: 0 <= j < |xs| ==> f(xs[j]).None?
    ensures LastBy(xs, f).Some? ==>
      exists j :: 0 <= j < |xs| && f(xs[j]) == LastBy(xs, f) &&
        forall j' :: j < j' < |xs| ==> f(xs[j']).None?
    decreases |xs|
  {
    if xs != [] {
      var init := xs[..|xs| - 1];
      LastByIsLast(init, f);
      assert forall j :: 0 <= j < |init| ==> init[j] == xs[j];
      match f(xs[|xs| - 1])
      case Some(v) =>
      case None =>
        if LastBy(init, f).Some? {
          var j :| 0 <= j < |init| && f(init[j]) == LastBy(init, f) &&
            forall j' :: j < j' < |init| ==> f(init[j']).None?;
          assert f(xs[j]) == LastBy(xs, f);
        }
    }
  }
}
