/**
 * The file-name arithmetic of the data-intel aggregator: `os.path.splitext`,
 * `os.path.join`, the `.lat` companion of a mutilate log, the rate encoded in a
 * log's name, and the machine name taken from the run directory.
 */
module FileNames {
  import opened Wrappers
  import opened Text

  const MasterPrefix := "mutilate_master_qps_"
  const LatPrefix := "mutilate_lat_qps_"
  const PowerPrefix := "powerstat_rate_"

  /** Where the last path component starts: just after the last `/`, or at 0. */
  function BaseStart(p: string): (i: nat)
    ensures i <= |p| && '/' !in p[i..]
    ensures i > 0 ==> p[i - 1] == '/'
  {
    match LastIndex(p, '/')
    case None => 0
    case Some(s) => s + 1
  }

  /**
   * `os.path.splitext(p)[0]`: `p` without the extension of its last component.
   * The extension starts at the last dot of that component, and only when a
   * character other than a dot comes before it there.
   */
  function SplitExtRoot(p: string): (root: string)
    ensures root == p ||
      (|root| < |p| && root == p[..|root|] && p[|root|] == '.' &&
       '.' !in p[|root| + 1..] && '/' !in p[|root|..])
  {
    var start := BaseStart(p);
    match LastIndex(p, '.')
    case None => p
    case Some(d) =>
      if start <= d && exists i :: start <= i < d && p[i] != '.' then
        assert p[d..] == p[start..][d - start..];
        p[..d]
      else p
  }

  /**
   * `p` has an extension: the last dot of `p` lies in its last component, after
   * a character of that component which is not a dot.
   */
  predicate HasExt(p: string) {
    exists d, i :: BaseStart(p) <= i < d < |p| && p[d] == '.' && '.' !in p[d + 1..] && p[i] != '.'
  }

  /** `os.path.splitext` cuts something off exactly when there is an extension. */
  lemma SplitExtRootIff(p: string)
    ensures SplitExtRoot(p) != p <==> HasExt(p)
  {
    var start := BaseStart(p);
    if SplitExtRoot(p) != p {
      var d := LastIndex(p, '.').value;
      var i :| start <= i < d && p[i] != '.';
      assert start <= i < d < |p| && p[d] == '.' && '.' !in p[d + 1..] && p[i] != '.';
    }
    if HasExt(p) {
      var d, i :| start <= i < d < |p| && p[d] == '.' && '.' !in p[d + 1..] && p[i] != '.';
      LastIndexAt(p, '.', d);
      assert SplitExtRoot(p) == p[..d];
      assert |SplitExtRoot(p)| < |p|;
    }
  }

  /** A name `<base><ext>`, whose base does not end in `/` or `.`, with an extension `.e`, has root `base`. */
  lemma SplitExtRootOf(base: string, ext: string)
    requires base != [] && base[|base| - 1] != '/' && base[|base| - 1] != '.'
    requires ext != [] && ext[0] == '.' && '.' !in ext[1..] && '/' !in ext
    ensures SplitExtRoot(base + ext) == base
  {
    var p := base + ext;
    var n := |base|;
    assert p[n + 1..] == ext[1..];
    LastIndexAt(p, '.', n);
    assert p[n..] == ext;
    BaseStartBefore(p, n - 1);
    assert p[n - 1] != '.';
    assert p[..n] == base;
  }

  /** The last occurrence is the one after which the element does not occur. */
  lemma LastIndexAt(p: string, x: char, n: nat)
    requires n < |p| && p[n] == x && x !in p[n + 1..]
    ensures LastIndex(p, x) == Some(n)
  {
    var d := LastIndex(p, x).value;
    if d < n {
      assert false;
    } else if d > n {
      assert false;
    }
  }

  /** The last component starts at or before any position from which on there is no `/`. */
  lemma BaseStartBefore(p: string, k: nat)
    requires k < |p| && '/' !in p[k..]
    ensures BaseStart(p) <= k
  {
    var start := BaseStart(p);
    if start > k {
      assert false;
    }
  }

  /** `os.path.join(root, name)` for a relative `name`. */
  function Join(root: string, name: string): string {
    if root == [] || EndsWith(root, "/") then root + name else root + "/" + name
  }

  /** `base.replace("mutilate_master_qps_", "mutilate_lat_qps_") + ".lat"` of the log's root. */
  function LatPath(path: string): string {
    Replace(SplitExtRoot(path), MasterPrefix, LatPrefix) + ".lat"
  }

  /** An occurrence at position `i` is an occurrence. */
  lemma {:induction false} ContainsAt(s: string, sub: string, i: nat)
    requires i <= |s| && StartsWith(s[i..], sub)
    ensures Contains(s, sub)
    decreases i
  {
    if i > 0 {
      assert s[1..][i - 1..] == s[i..];
      ContainsAt(s[1..], sub, i - 1);
    } else {
      assert s[0..] == s;
    }
  }

  /** A string of digits holds no text that starts with a non-digit. */
  lemma {:induction false} DigitsContainNothing(s: string, sub: string)
    requires AllDigits(s) && sub != [] && !IsDigit(sub[0])
    ensures !Contains(s, sub)
    decreases |s|
  {
    if s != [] {
      DigitsContainNothing(s[1..], sub);
    }
  }

  /**
   * In a directory prefix that ends with `/` and does not contain `pat`, no
   * occurrence of a `pat` without `/` can start.
   */
  lemma NothingStartsIn(dir: string, rest: string, pat: string)
    requires dir == [] || dir[|dir| - 1] == '/'
    requires '/' !in pat && !Contains(dir, pat)
    ensures forall i :: 0 <= i < |dir| ==> !StartsWith((dir + rest)[i..], pat)
  {
    forall i | 0 <= i < |dir|
      ensures !StartsWith((dir + rest)[i..], pat)
    {
      var w := (dir + rest)[i..];
      var m := |pat|;
      if i + m <= |dir| {
        if StartsWith(w, pat) {
          assert dir[i..][..m] == w[..m];
          ContainsAt(dir, pat, i);
        }
      } else if m <= |w| {
        assert w[..m][|dir| - 1 - i] == '/';
      }
    }
  }

  /**
   * Replacing a pattern that starts with a non-digit and holds no `/` in
   * `<dir><pat><digits>` touches only the occurrence at the front of the last
   * component.
   */
  lemma ReplaceInLastComponent(dir: string, pat: string, rep: string, digits: string)
    requires pat != [] && !IsDigit(pat[0]) && '/' !in pat
    requires dir == [] || dir[|dir| - 1] == '/'
    requires !Contains(dir, pat) && AllDigits(digits)
    ensures Replace(dir + pat + digits, pat, rep) == dir + rep + digits
  {
    NothingStartsIn(dir, pat + digits, pat);
    assert dir + pat + digits == dir + (pat + digits);
    ReplaceKeepPrefix(dir, pat + digits, pat, rep);
    ReplaceFront(pat, rep, digits);
    DigitsContainNothing(digits, pat);
    ReplaceAbsent(digits, pat, rep);
  }

  /**
   * The `.lat` companion of the log `mutilate_master_qps_<rate>.log` in a
   * directory is `mutilate_lat_qps_<rate>.lat` in the same directory.
   */
  lemma LatPathOfLog(dir: string, rate: nat)
    requires dir == [] || dir[|dir| - 1] == '/'
    requires !Contains(dir, MasterPrefix)
    ensures LatPath(dir + MasterPrefix + DecimalString(rate) + ".log") ==
      dir + LatPrefix + DecimalString(rate) + ".lat"
  {
    var digits := DecimalString(rate);
    var base := dir + MasterPrefix + digits;
    assert base[|base| - 1] == digits[|digits| - 1];
    SplitExtRootOf(base, ".log");
    MasterPrefixShape();
    ReplaceInLastComponent(dir, MasterPrefix, LatPrefix, digits);
  }

  /** The pattern the `.lat` path replaces starts with a letter and holds no `/`. */
  lemma MasterPrefixShape()
    ensures '/' !in MasterPrefix && !IsDigit(MasterPrefix[0])
  {
  }

  /** The last part of `s.split(c)` after a separator is everything behind the last separator. */
  lemma {:induction false} SplitCharLast(a: string, b: string, c: char, parts: seq<string>)
    requires c !in b && parts == SplitChar(a + [c] + b, c)
    ensures parts[|parts| - 1] == b
    decreases |a|
  {
    var s := a + [c] + b;
    var i := if c in a then FirstIndex(a, c).value else |a|;
    forall j | 0 <= j < i ensures s[j] != c {
      assert s[j] == a[j];
    }
    assert s[i] == c;
    FirstIndexAt(s, c, i);
    var rest := SplitChar(s[i + 1..], c);
    SplitCharUnfold(s, c, i);
    if c in a {
      assert s[i + 1..] == a[i + 1..] + [c] + b;
      SplitCharLast(a[i + 1..], b, c, rest);
    } else {
      assert s[i + 1..] == b;
      assert rest == [b];
    }
    assert parts == [s[..i]] + rest;
  }

  /** The first part of `s.split(c)` is everything before the first separator. */
  lemma SplitCharFirst(a: string, b: string, c: char)
    requires c !in a
    ensures SplitChar(a + [c] + b, c)[0] == a
  {
    var s := a + [c] + b;
    assert s[|a|] == c;
    assert FirstIndex(s, c) == Some(|a|);
    assert s[..|a|] == a;
  }

  /** The text a rate is read from: after the last `_`, before the next `.`. */
  function RateField(name: string): (f: string)
    ensures '_' !in f && '.' !in f
  {
    var parts := SplitChar(name, '_');
    var last := parts[|parts| - 1];
    var fields := SplitChar(last, '.');
    SplitCharParts(name, '_');
    SplitCharParts(last, '.');
    fields[0]
  }

  /** `int(name.split("_")[-1].split(".")[0])`, with ValueError when that text is not an integer. */
  function RateOf(name: string, toInt: string -> Option<int>): Result<int> {
    match toInt(RateField(name))
    case None => Err(ValueError("invalid literal for int()"))
    case Some(n) => Ok(n)
  }

  /** `str(n)` holds neither `_` nor `.`. */
  lemma IntStringPlain(n: int)
    ensures '_' !in IntString(n) && '.' !in IntString(n)
  {
    var d := DecimalString(if n < 0 then -n else n);
    assert forall i :: 0 <= i < |d| ==> IsDigit(d[i]);
    if n < 0 {
      assert IntString(n) == "-" + d;
      assert forall i :: 1 <= i < |IntString(n)| ==> IntString(n)[i] == d[i - 1];
    }
  }

  /**
   * The rate text of `<prefix><field><ext>`, for a prefix ending in `_`, a field
   * without `_` or `.`, and an extension that starts with `.` and holds no `_`, is
   * the field.
   */
  lemma RateFieldOf(prefix: string, field: string, ext: string)
    requires prefix != [] && prefix[|prefix| - 1] == '_'
    requires '_' !in field && '.' !in field
    requires ext != [] && ext[0] == '.' && '_' !in ext
    ensures RateField(prefix + field + ext) == field
  {
    var name := prefix + field + ext;
    var tail := field + ext;
    LastUnderscorePart(prefix, tail, name);
    FirstDotPart(field, ext, tail);
  }

  /** Behind the last `_` of `<prefix><tail>`, for a prefix ending in `_` and a tail without `_`, is the tail. */
  lemma LastUnderscorePart(prefix: string, tail: string, name: string)
    requires prefix != [] && prefix[|prefix| - 1] == '_' && '_' !in tail && name == prefix + tail
    ensures SplitChar(name, '_')[|SplitChar(name, '_')| - 1] == tail
  {
    var head := prefix[..|prefix| - 1];
    assert name == head + ['_'] + tail by {
      assert prefix == head + ['_'];
    }
    SplitCharLast(head, tail, '_', SplitChar(name, '_'));
  }

  /** Before the first `.` of `<field><ext>`, for a field without `.` and an extension starting with `.`, is the field. */
  lemma FirstDotPart(field: string, ext: string, tail: string)
    requires '.' !in field && ext != [] && ext[0] == '.' && tail == field + ext
    ensures SplitChar(tail, '.')[0] == field
  {
    assert tail == field + ['.'] + ext[1..] by {
      assert ext == ['.'] + ext[1..];
    }
    SplitCharFirst(field, ext[1..], '.');
  }

  /**
   * A name `<prefix><str(rate)><ext>`, with a prefix ending in `_` and an
   * extension that starts with `.` and holds no `_`, gives back its rate,
   * whenever `int` reads `str(rate)` back as `rate`.
   */
  lemma RateOfName(prefix: string, rate: int, ext: string, toInt: string -> Option<int>)
    requires prefix != [] && prefix[|prefix| - 1] == '_'
    requires ext != [] && ext[0] == '.' && '_' !in ext
    requires toInt(IntString(rate)) == Some(rate)
    ensures RateOf(prefix + IntString(rate) + ext, toInt) == Ok(rate)
  {
    IntStringPlain(rate);
    RateFieldOf(prefix, IntString(rate), ext);
  }

  /** `f"mutilate_master_qps_{rate}.log"` */
  function MasterName(rate: int): string {
    MasterPrefix + IntString(rate) + ".log"
  }

  /** `f"powerstat_rate_{rate}.txt"` */
  function PowerName(rate: int): string {
    PowerPrefix + IntString(rate) + ".txt"
  }

  /** The names the aggregator builds from a rate give that rate back. */
  lemma RateOfBuiltNames(rate: int, toInt: string -> Option<int>)
    requires toInt(IntString(rate)) == Some(rate)
    ensures RateOf(MasterName(rate), toInt) == Ok(rate)
    ensures RateOf(PowerName(rate), toInt) == Ok(rate)
  {
    assert MasterPrefix[|MasterPrefix| - 1] == '_' && '_' !in ".log";
    RateOfName(MasterPrefix, rate, ".log", toInt);
    assert PowerPrefix[|PowerPrefix| - 1] == '_' && '_' !in ".txt";
    RateOfName(PowerPrefix, rate, ".txt", toInt);
  }

  /** `run_directory.split("/")[0].split("_")[2]`, with `None` where Python raises IndexError. */
  function MachineName(runDir: string): Option<string> {
    var parts := SplitChar(SplitChar(runDir, '/')[0], '_');
    if |parts| > 2 then Some(parts[2]) else None
  }

  /** Joining parts that hold no `/` gives a string without `/`. */
  lemma {:induction false} JoinNoChar(parts: seq<string>, c: char, x: char)
    requires |parts| >= 1 && x != c
    requires forall k :: 0 <= k < |parts| ==> x !in parts[k]
    ensures x !in JoinChar(parts, c)
    decreases |parts|
  {
    if |parts| > 1 {
      JoinNoChar(parts[1..], c, x);
    }
  }

  /**
   * For a run directory `<p0>_<p1>_<p2>_…/<rest>` whose first component's parts
   * hold neither `_` nor `/`, the machine name is `p2`.
   */
  lemma MachineNameOf(parts: seq<string>, rest: string)
    requires |parts| > 2
    requires forall k :: 0 <= k < |parts| ==> '_' !in parts[k] && '/' !in parts[k]
    ensures MachineName(JoinChar(parts, '_') + "/" + rest) == Some(parts[2])
  {
    var first := JoinChar(parts, '_');
    JoinNoChar(parts, '_', '/');
    assert first + "/" + rest == first + ['/'] + rest;
    SplitCharFirst(first, rest, '/');
    SplitJoin(parts, '_');
  }
}
