/** `Iterator::max_by_key` and `min_by_key` over an integer key.  Rust's
    `max_by_key` returns the last of several maximal elements and
    `min_by_key` the first of several minimal ones; when the iteration order
    is a `HashMap`'s, that choice is arbitrary, so the day modules state
    their answers as "some maximiser" and use the positions only as one
    particular order. */
module Maxima {

  /** Index of the last element with the greatest key. */
  function LastMax<T>(xs: seq<T>, key: T -> int): (i: nat)
    requires |xs| > 0
    ensures i < |xs|
    ensures forall j :: 0 <= j < |xs| ==> key(xs[j]) <= key(xs[i])
    ensures forall j :: i < j < |xs| ==> key(xs[j]) < key(xs[i])
  {
    if |xs| == 1 then 0
    else
      var i := LastMax(xs[..|xs| - 1], key);
      assert forall j :: 0 <= j < |xs| - 1 ==> xs[..|xs| - 1][j] == xs[j];
      if key(xs[|xs| - 1]) >= key(xs[i]) then |xs| - 1 else i
  }

  /** Index of the first element with the least key. */
  function FirstMin<T>(xs: seq<T>, key: T -> int): (i: nat)
    requires |xs| > 0
    ensures i < |xs|
    ensures forall j :: 0 <= j < |xs| ==> key(xs[i]) <= key(xs[j])
    ensures forall j :: 0 <= j < i ==> key(xs[i]) < key(xs[j])
  {
    if |xs| == 1 then 0
    else
      var i := FirstMin(xs[..|xs| - 1], key);
      assert forall j :: 0 <= j < |xs| - 1 ==> xs[..|xs| - 1][j] == xs[j];
      if key(xs[|xs| - 1]) < key(xs[i]) then |xs| - 1 else i
  }

  /** `lo..hi` as a sequence. */
  function Range(lo: int, hi: int): (r: seq<int>)
    ensures |r| == if lo <= hi then hi - lo else 0
    ensures forall i :: 0 <= i < |r| ==> r[i] == lo + i
    decreases hi - lo
  {
    if lo >= hi then [] else [lo] + Range(lo + 1, hi)
  }

  predicate IsLeast(m: int, s: set<int>) {
    m in s && forall x :: x in s ==> m <= x
  }

  predicate IsGreatest(m: int, s: set<int>) {
    m in s && forall x :: x in s ==> x <= m
  }

  lemma {:induction false} ExtremesExist(s: set<int>)
    requires s != {}
    ensures exists m :: IsLeast(m, s)
    ensures exists m :: IsGreatest(m, s)
    decreases |s|
  {
    assert (forall y: int :: y !in s) ==> s == {};
    var x :| x in s;
    if s != {x} {
      ExtremesExist(s - {x});
      var m :| IsLeast(m, s - {x});
      var n :| IsGreatest(n, s - {x});
      assert forall y :: y in s ==> y == x || y in s - {x};
      if x < m {
        assert IsLeast(x, s);
      } else {
        assert IsLeast(m, s);
      }
      if x > n {
        assert IsGreatest(x, s);
      } else {
        assert IsGreatest(n, s);
      }
    } else {
      assert IsLeast(x, s) && IsGreatest(x, s);
    }
  }

  /** The least element of a non-empty finite set (`min().unwrap()`). */
  function Least(s: set<int>): (m: int)
    requires s != {}
    ensures IsLeast(m, s)
  {
    ExtremesExist(s);
    var m :| IsLeast(m, s); m
  }

  /** The greatest element of a non-empty finite set (`max().unwrap()`). */
  function Greatest(s: set<int>): (m: int)
    requires s != {}
    ensures IsGreatest(m, s)
  {
    ExtremesExist(s);
    var m :| IsGreatest(m, s); m
  }

  /** The smaller of two integers (`min`). */
  function Min(a: int, b: int): (m: int)
    ensures m <= a && m <= b && (m == a || m == b)
  {
    if a <= b then a else b
  }

  /** The larger of two integers (`max`). */
  function Max(a: int, b: int): (m: int)
    ensures m >= a && m >= b && (m == a || m == b)
  {
    if a >= b then a else b
  }
}
