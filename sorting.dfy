/**
 * `sorted(...)` on a set of distinct values: the histogram values before the
 * quantile walk, and the rates taken from log file names.
 */
module Sorting {

  predicate StrictlyIncreasing(ks: seq<real>) {
    forall i, j :: 0 <= i < j < |ks| ==> ks[i] < ks[j]
  }

  predicate StrictlyIncreasingInts(ks: seq<int>) {
    forall i, j :: 0 <= i < j < |ks| ==> ks[i] < ks[j]
  }

  // The histogram keys are reals and the rates are ints. Dafny has no type
  // parameter constrained to an ordering, and a generic lemma about `set<T>`
  // speaks of boxed values that a `:|` over reals does not pick up, so the
  // helpers below come once for `real` and once for `int`.

  lemma NonEmptyReals(s: set<real>)
    requires s != {}
    ensures exists x :: x in s
  {
    if forall x :: x !in s {
      assert false;
    }
  }

  lemma NonEmptyInts(s: set<int>)
    requires s != {}
    ensures exists x :: x in s
  {
    if forall x :: x !in s {
      assert false;
    }
  }

  lemma {:induction false} MinRealExists(s: set<real>)
    requires s != {}
    ensures exists m :: m in s && forall x :: x in s ==> m <= x
    decreases s
  {
    NonEmptyReals(s);
    var y :| y in s;
    var rest := s - {y};
    if rest == {} {
      assert s == {y};
      assert forall x :: x in s ==> y <= x;
    } else {
      MinRealExists(rest);
      var m :| m in rest && forall x :: x in rest ==> m <= x;
      var c := if y < m then y else m;
      forall x | x in s ensures c <= x {
        if x != y {
          assert x in rest;
        }
      }
      assert c in s;
    }
  }

  lemma {:induction false} MaxRealExists(s: set<real>)
    requires s != {}
    ensures exists m :: m in s && forall x :: x in s ==> x <= m
    decreases s
  {
    NonEmptyReals(s);
    var y :| y in s;
    var rest := s - {y};
    if rest == {} {
      assert s == {y};
      assert forall x :: x in s ==> x <= y;
    } else {
      MaxRealExists(rest);
      var m :| m in rest && forall x :: x in rest ==> x <= m;
      var c := if m < y then y else m;
      forall x | x in s ensures x <= c {
        if x != y {
          assert x in rest;
        }
      }
      assert c in s;
    }
  }

  lemma {:induction false} MinIntExists(s: set<int>)
    requires s != {}
    ensures exists m :: m in s && forall x :: x in s ==> m <= x
    decreases s
  {
    NonEmptyInts(s);
    var y :| y in s;
    var rest := s - {y};
    if rest == {} {
      assert s == {y};
      assert forall x :: x in s ==> y <= x;
    } else {
      MinIntExists(rest);
      var m :| m in rest && forall x :: x in rest ==> m <= x;
      var c := if y < m then y else m;
      forall x | x in s ensures c <= x {
        if x != y {
          assert x in rest;
        }
      }
      assert c in s;
    }
  }

  function MinReal(s: set<real>): (m: real)
    requires s != {}
    ensures m in s && forall x :: x in s ==> m <= x
  {
    MinRealExists(s);
    var m :| m in s && (forall x :: x in s ==> m <= x); m
  }

  function MaxReal(s: set<real>): (m: real)
    requires s != {}
    ensures m in s && forall x :: x in s ==> x <= m
  {
    MaxRealExists(s);
    var m :| m in s && (forall x :: x in s ==> x <= m); m
  }

  function MinInt(s: set<int>): (m: int)
    requires s != {}
    ensures m in s && forall x :: x in s ==> m <= x
  {
    MinIntExists(s);
    var m :| m in s && (forall x :: x in s ==> m <= x); m
  }

  /** `sorted(s)` for a set of reals: its elements, each once, in ascending order. */
  function SortedReals(s: set<real>): (ks: seq<real>)
    ensures StrictlyIncreasing(ks)
    ensures forall k :: k in ks <==> k in s
    ensures |ks| == |s|
    decreases |s|
  {
    if s == {} then []
    else
      var m := MinReal(s);
      var rest := SortedReals(s - {m});
      assert forall i :: 0 <= i < |rest| ==> rest[i] in s - {m};
      [m] + rest
  }

  /** `sorted(set(xs))` for a list of integers: its distinct elements in ascending order. */
  function SortedInts(s: set<int>): (ks: seq<int>)
    ensures StrictlyIncreasingInts(ks)
    ensures forall k :: k in ks <==> k in s
    ensures |ks| == |s|
    decreases |s|
  {
    if s == {} then []
    else
      var m := MinInt(s);
      var rest := SortedInts(s - {m});
      assert forall i :: 0 <= i < |rest| ==> rest[i] in s - {m};
      [m] + rest
  }
}
