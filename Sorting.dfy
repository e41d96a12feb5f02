/** `slice::sort_by_key` with a tuple key, as an insertion sort over a key
    function into integer tuples (`seq<int>`) compared lexicographically,
    which is how Rust orders tuples.  The sort is stable: among elements
    with equal keys it keeps the input order (`SortByStable`). */
module Sorting {

  /** Rust's `<` on tuples: the first differing field decides (a proper
      prefix comes first, which never arises between keys of one arity). */
  predicate LexLess(a: seq<int>, b: seq<int>)
    decreases |a|
  {
    |b| > 0 && (|a| == 0 || a[0] < b[0] || (a[0] == b[0] && LexLess(a[1..], b[1..])))
  }

  /** `LexLess` is a strict total order. */
  lemma LexLessIsStrictOrder(a: seq<int>, b: seq<int>, c: seq<int>)
    ensures !LexLess(a, a)
    ensures LexLess(a, b) ==> !LexLess(b, a)
    ensures LexLess(a, b) && LexLess(b, c) ==> LexLess(a, c)
    ensures a != b ==> LexLess(a, b) || LexLess(b, a)
  {
    LexLessIrreflexive(a);
    LexLessTransitive(a, b, a);
    LexLessTransitive(a, b, c);
    LexLessTotal(a, b);
  }

  lemma {:induction false} LexLessIrreflexive(a: seq<int>)
    ensures !LexLess(a, a)
    decreases |a|
  {
    if |a| > 0 {
      LexLessIrreflexive(a[1..]);
    }
  }

  lemma {:induction false} LexLessTransitive(a: seq<int>, b: seq<int>, c: seq<int>)
    ensures LexLess(a, b) && LexLess(b, c) ==> LexLess(a, c)
    decreases |a|
  {
    if |a| > 0 && |b| > 0 && |c| > 0 {
      LexLessTransitive(a[1..], b[1..], c[1..]);
    }
  }

  lemma {:induction false} LexLessTotal(a: seq<int>, b: seq<int>)
    ensures a != b ==> LexLess(a, b) || LexLess(b, a)
    decreases |a|
  {
    if |a| > 0 && |b| > 0 {
      LexLessTotal(a[1..], b[1..]);
      if a[0] == b[0] && a[1..] == b[1..] {
        assert a == [a[0]] + a[1..] && b == [b[0]] + b[1..];
      }
    }
  }

  /** `!Later(a, b)`: `a` may stay before `b`. */
  predicate Later<T>(key: T -> seq<int>, a: T, b: T) {
    LexLess(key(b), key(a))
  }

  predicate SortedBy<T>(xs: seq<T>, key: T -> seq<int>) {
    forall i, j :: 0 <= i < j < |xs| ==> !Later(key, xs[i], xs[j])
  }

  /** Inserts `x` after every element whose key is not greater. */
  function InsertBy<T>(x: T, sorted: seq<T>, key: T -> seq<int>): (r: seq<T>)
    requires SortedBy(sorted, key)
    ensures SortedBy(r, key)
    ensures multiset(r) == multiset(sorted) + multiset{x}
    ensures |r| == |sorted| + 1
  {
    if sorted == [] then [x]
    else if !Later(key, sorted[0], x) then
      var rest := InsertBy(x, sorted[1..], key);
      assert sorted == [sorted[0]] + sorted[1..];
      InsertedNotBefore(x, sorted, rest, key);
      [sorted[0]] + rest
    else
      forall k | 0 <= k < |sorted| ensures !Later(key, x, sorted[k]) {
        LexLessIsStrictOrder(key(sorted[k]), key(x), key(sorted[0]));
        LexLessIsStrictOrder(key(x), key(sorted[0]), key(sorted[k]));
      }
      [x] + sorted
  }

  lemma InsertedNotBefore<T>(x: T, sorted: seq<T>, rest: seq<T>, key: T -> seq<int>)
    requires SortedBy(sorted, key) && |sorted| > 0
    requires !Later(key, sorted[0], x)
    requires multiset(rest) == multiset(sorted[1..]) + multiset{x}
    ensures forall k :: 0 <= k < |rest| ==> !Later(key, sorted[0], rest[k])
  {
    forall k | 0 <= k < |rest| ensures !Later(key, sorted[0], rest[k]) {
      assert rest[k] in multiset(rest);
      if rest[k] != x {
        assert rest[k] in multiset(sorted[1..]);
        var m :| 0 <= m < |sorted[1..]| && sorted[1..][m] == rest[k];
        assert sorted[1..][m] == sorted[m + 1];
      }
    }
  }

  /** The stable sort of `xs` by `key`. */
  function SortBy<T>(xs: seq<T>, key: T -> seq<int>): (r: seq<T>)
    ensures SortedBy(r, key)
    ensures multiset(r) == multiset(xs)
    ensures |r| == |xs|
  {
    if xs == [] then []
    else
      var prefix := xs[..|xs| - 1];
      assert xs == prefix + [xs[|xs| - 1]];
      InsertBy(xs[|xs| - 1], SortBy(prefix, key), key)
  }

  // ---------------------------------------------------------------------
  // stability

  /** The elements with key `k`, in the order they come in `xs`. */
  function WithKey<T>(xs: seq<T>, key: T -> seq<int>, k: seq<int>): seq<T> {
    if xs == [] then []
    else (if key(xs[0]) == k then [xs[0]] else []) + WithKey(xs[1..], key, k)
  }

  lemma {:induction false} WithKeyConcat<T>(a: seq<T>, b: seq<T>, key: T -> seq<int>, k: seq<int>)
    ensures WithKey(a + b, key, k) == WithKey(a, key, k) + WithKey(b, key, k)
    decreases |a|
  {
    if a == [] {
      assert a + b == b;
    } else {
      var h, t := a[0], a[1..];
      assert a == [h] + t;
      assert a + b == [h] + (t + b);
      WithKeyConcat(t, b, key, k);
      WithKeyCons(h, t + b, key, k);
      WithKeyCons(h, t, key, k);
    }
  }

  /** A sequence in which no element has key `k` has none to keep. */
  lemma {:induction false} WithKeyNone<T>(xs: seq<T>, key: T -> seq<int>, k: seq<int>)
    requires forall j :: 0 <= j < |xs| ==> key(xs[j]) != k
    ensures WithKey(xs, key, k) == []
    decreases |xs|
  {
    if xs != [] {
      assert forall j :: 0 <= j < |xs[1..]| ==> xs[1..][j] == xs[j + 1];
      WithKeyNone(xs[1..], key, k);
    }
  }

  lemma WithKeyCons<T>(h: T, t: seq<T>, key: T -> seq<int>, k: seq<int>)
    ensures WithKey([h] + t, key, k) == (if key(h) == k then [h] else []) + WithKey(t, key, k)
  {
    assert ([h] + t)[1..] == t;
  }

  /** One step of `InsertBy` on a non-empty sequence. */
  lemma InsertByCons<T>(x: T, sorted: seq<T>, key: T -> seq<int>)
    requires SortedBy(sorted, key) && sorted != []
    ensures SortedBy(sorted[1..], key)
    ensures InsertBy(x, sorted, key)
         == if !Later(key, sorted[0], x) then [sorted[0]] + InsertBy(x, sorted[1..], key) else [x] + sorted
  {
  }

  /** Inserting `x` puts it after every element of its own key. */
  lemma {:induction false} InsertByStable<T>(x: T, sorted: seq<T>, key: T -> seq<int>, k: seq<int>)
    requires SortedBy(sorted, key)
    ensures WithKey(InsertBy(x, sorted, key), key, k)
         == WithKey(sorted, key, k) + (if key(x) == k then [x] else [])
    decreases |sorted|
  {
    if sorted == [] {
      WithKeyCons(x, [], key, k);
    } else {
      InsertByCons(x, sorted, key);
      var h, t := sorted[0], sorted[1..];
      assert sorted == [h] + t;
      if !Later(key, h, x) {
        InsertByStable(x, t, key, k);
        KeepHead(h, t, InsertBy(x, t, key), key, k, if key(x) == k then [x] else []);
      } else {
        PutFirst(x, sorted, key, k);
      }
    }
  }

  /** Putting `h` in front of two sequences whose kept elements differ by
      a suffix keeps that difference. */
  lemma KeepHead<T>(h: T, t: seq<T>, rest: seq<T>, key: T -> seq<int>, k: seq<int>, extra: seq<T>)
    requires WithKey(rest, key, k) == WithKey(t, key, k) + extra
    ensures WithKey([h] + rest, key, k) == WithKey([h] + t, key, k) + extra
  {
    WithKeyCons(h, rest, key, k);
    WithKeyCons(h, t, key, k);
  }

  /** An element that goes in front of a sorted sequence comes after every
      element of its key, as there is none. */
  lemma PutFirst<T>(x: T, sorted: seq<T>, key: T -> seq<int>, k: seq<int>)
    requires SortedBy(sorted, key) && sorted != [] && Later(key, sorted[0], x)
    ensures WithKey([x] + sorted, key, k) == WithKey(sorted, key, k) + (if key(x) == k then [x] else [])
  {
    WithKeyCons(x, sorted, key, k);
    if key(x) == k {
      LaterNotKey(x, sorted, key, k);
    }
  }

  /** No element of a sorted sequence whose head comes after `x` shares
      `x`'s key. */
  lemma LaterNotKey<T>(x: T, sorted: seq<T>, key: T -> seq<int>, k: seq<int>)
    requires SortedBy(sorted, key) && sorted != [] && Later(key, sorted[0], x) && key(x) == k
    ensures WithKey(sorted, key, k) == []
  {
    forall j | 0 <= j < |sorted| ensures !Later(key, sorted[0], sorted[j]) {
      if j == 0 {
        LexLessIrreflexive(key(sorted[0]));
      }
    }
    WithKeyNone(sorted, key, k);
  }

  /** `SortBy` is stable: for every key, the elements with that key come
      out in the order they went in. */
  lemma {:induction false} SortByStable<T>(xs: seq<T>, key: T -> seq<int>, k: seq<int>)
    ensures WithKey(SortBy(xs, key), key, k) == WithKey(xs, key, k)
    decreases |xs|
  {
    if xs != [] {
      var prefix := xs[..|xs| - 1];
      var last := xs[|xs| - 1];
      assert xs == prefix + [last];
      SortByStable(prefix, key, k);
      SortBySnoc(xs, key);
      StableStep(prefix, last, SortBy(prefix, key), key, k);
    }
  }

  /** Inserting the last element into a stably sorted front gives a stably
      sorted whole. */
  lemma StableStep<T>(prefix: seq<T>, last: T, sp: seq<T>, key: T -> seq<int>, k: seq<int>)
    requires SortedBy(sp, key) && WithKey(sp, key, k) == WithKey(prefix, key, k)
    ensures WithKey(InsertBy(last, sp, key), key, k) == WithKey(prefix + [last], key, k)
  {
    InsertByStable(last, sp, key, k);
    WithKeyConcat(prefix, [last], key, k);
    WithKeyCons(last, [], key, k);
  }

  /** One step of `SortBy` on a non-empty sequence. */
  lemma SortBySnoc<T>(xs: seq<T>, key: T -> seq<int>)
    requires xs != []
    ensures SortBy(xs, key) == InsertBy(xs[|xs| - 1], SortBy(xs[..|xs| - 1], key), key)
  {
  }

  /** Index of the first element with the least key. */
  function FirstLeast<T>(xs: seq<T>, key: T -> seq<int>): (i: nat)
    requires |xs| > 0
    ensures i < |xs|
    ensures forall j :: 0 <= j < |xs| ==> !Later(key, xs[i], xs[j])
    ensures forall j :: 0 <= j < i ==> Later(key, xs[j], xs[i])
  {
    if |xs| == 1 then
      LexLessIrreflexive(key(xs[0]));
      0
    else
      var i := FirstLeast(xs[..|xs| - 1], key);
      var last := xs[|xs| - 1];
      if Later(key, xs[i], last) then
        forall j | 0 <= j < |xs| - 1 ensures Later(key, xs[j], last) {
          assert xs[..|xs| - 1][j] == xs[j];
          LexLessTotal(key(xs[i]), key(xs[j]));
          LexLessIsStrictOrder(key(last), key(xs[i]), key(xs[j]));
        }
        forall j | 0 <= j < |xs| ensures !Later(key, last, xs[j]) {
          LexLessIsStrictOrder(key(last), key(xs[j]), key(last));
        }
        |xs| - 1
      else
        forall j | 0 <= j < |xs| ensures !Later(key, xs[i], xs[j]) {
          if j < |xs| - 1 {
            assert xs[..|xs| - 1][j] == xs[j];
          }
        }
        i
  }

  /** Stability at the head: the sort starts with the first element of the
      least key. */
  lemma {:induction false} SortByHead<T>(xs: seq<T>, key: T -> seq<int>)
    requires |xs| > 0
    ensures SortBy(xs, key)[0] == xs[FirstLeast(xs, key)]
  {
    if |xs| > 1 {
      var prefix := xs[..|xs| - 1];
      var last := xs[|xs| - 1];
      SortByHead(prefix, key);
      var sp := SortBy(prefix, key);
      var i := FirstLeast(prefix, key);
      assert sp[0] == prefix[i] == xs[i];
      if !Later(key, sp[0], last) {
        assert sp == [sp[0]] + sp[1..];
      }
    }
  }

  /** An element no earlier element is later than goes at the end. */
  lemma {:induction false} InsertByAtEnd<T>(x: T, sorted: seq<T>, key: T -> seq<int>)
    requires SortedBy(sorted, key)
    requires forall k :: 0 <= k < |sorted| ==> !Later(key, sorted[k], x)
    ensures InsertBy(x, sorted, key) == sorted + [x]
  {
    if sorted != [] {
      InsertByAtEnd(x, sorted[1..], key);
      assert sorted == [sorted[0]] + sorted[1..];
    }
  }

  /** Sorting input that is already in order changes nothing, so sorting
      is idempotent. */
  lemma {:induction false} SortBySorted<T>(xs: seq<T>, key: T -> seq<int>)
    requires SortedBy(xs, key)
    ensures SortBy(xs, key) == xs
  {
    if xs != [] {
      var n := |xs| - 1;
      var prefix := xs[..n];
      var last := xs[n];
      SortedSplit(prefix, last, key);
      SortBySorted(prefix, key);
      assert xs == prefix + [last];
      InsertByAtEnd(last, prefix, key);
    }
  }

  /** A sorted sequence is its sorted front followed by an element no
      element of the front comes after. */
  lemma SortedSplit<T>(prefix: seq<T>, last: T, key: T -> seq<int>)
    requires SortedBy(prefix + [last], key)
    ensures SortedBy(prefix, key)
    ensures forall k :: 0 <= k < |prefix| ==> !Later(key, prefix[k], last)
  {
    var xs := prefix + [last];
    forall i, j | 0 <= i < j < |prefix| ensures !Later(key, prefix[i], prefix[j]) {
      assert prefix[i] == xs[i] && prefix[j] == xs[j];
    }
    forall k | 0 <= k < |prefix| ensures !Later(key, prefix[k], last) {
      assert prefix[k] == xs[k] && last == xs[|prefix|];
    }
  }

  // ---------------------------------------------------------------------
  // the first two places of a stable sort

  /** How many elements have key `k`. */
  function CountKey<T>(xs: seq<T>, key: T -> seq<int>, k: seq<int>): nat {
    if xs == [] then 0
    else CountKey(xs[..|xs| - 1], key, k) + (if key(xs[|xs| - 1]) == k then 1 else 0)
  }

  lemma {:induction false} CountKeyConcat<T>(a: seq<T>, b: seq<T>, key: T -> seq<int>, k: seq<int>)
    ensures CountKey(a + b, key, k) == CountKey(a, key, k) + CountKey(b, key, k)
    decreases |b|
  {
    if b == [] {
      assert a + b == a;
    } else {
      var b' := b[..|b| - 1];
      CountKeyConcat(a, b', key, k);
      assert (a + b)[..|a + b| - 1] == a + b';
      assert (a + b)[|a + b| - 1] == b[|b| - 1];
    }
  }

  /** Counting does not depend on the order. */
  lemma {:induction false} CountKeyPerm<T>(a: seq<T>, b: seq<T>, key: T -> seq<int>, k: seq<int>)
    requires multiset(a) == multiset(b)
    ensures CountKey(a, key, k) == CountKey(b, key, k)
    decreases |a|
  {
    if a != [] {
      var a' := a[..|a| - 1];
      var x := a[|a| - 1];
      assert a == a' + [x];
      assert x in multiset(b);
      var m :| 0 <= m < |b| && b[m] == x;
      var b' := b[..m] + b[m + 1..];
      assert b == b[..m] + [x] + b[m + 1..];
      assert multiset(b') == multiset(b) - multiset{x};
      CountKeyPerm(a', b', key, k);
      CountKeyConcat(b[..m], b[m + 1..], key, k);
      CountKeyConcat(b[..m] + [x], b[m + 1..], key, k);
      CountKeyConcat(b[..m], [x], key, k);
      assert CountKey([x], key, k) == (if key(x) == k then 1 else 0) by {
        assert [x][..0] == [];
      }
    }
  }

  /** Some element has key `k` iff the count is positive. */
  lemma {:induction false} CountKeyPositive<T>(xs: seq<T>, key: T -> seq<int>, k: seq<int>)
    ensures CountKey(xs, key, k) > 0 <==> exists i :: 0 <= i < |xs| && key(xs[i]) == k
  {
    if xs != [] {
      var init := xs[..|xs| - 1];
      CountKeyPositive(init, key, k);
      assert forall i :: 0 <= i < |init| ==> init[i] == xs[i];
    }
  }

  /** Two elements with key `k` at distinct places count at least twice. */
  lemma CountKeyTwo<T>(xs: seq<T>, key: T -> seq<int>, k: seq<int>, i: int, j: int)
    requires 0 <= i < j < |xs| && key(xs[i]) == k && key(xs[j]) == k
    ensures CountKey(xs, key, k) >= 2
  {
    assert xs == xs[..j] + xs[j..];
    CountKeyConcat(xs[..j], xs[j..], key, k);
    CountKeyPositive(xs[..j], key, k);
    CountKeyPositive(xs[j..], key, k);
    assert xs[..j][i] == xs[i];
    assert xs[j..][0] == xs[j];
  }

  /** A count of two means some other place carries the key as well. */
  lemma CountKeyOther<T>(xs: seq<T>, key: T -> seq<int>, k: seq<int>, i: int)
    requires 0 <= i < |xs| && key(xs[i]) == k && CountKey(xs, key, k) >= 2
    ensures exists j :: 0 <= j < |xs| && j != i && key(xs[j]) == k
  {
    assert xs == xs[..i] + [xs[i]] + xs[i + 1..];
    CountKeyConcat(xs[..i] + [xs[i]], xs[i + 1..], key, k);
    CountKeyConcat(xs[..i], [xs[i]], key, k);
    assert CountKey([xs[i]], key, k) == 1 by {
      assert [xs[i]][..0] == [];
    }
    CountKeyPositive(xs[..i], key, k);
    CountKeyPositive(xs[i + 1..], key, k);
    if CountKey(xs[..i], key, k) > 0 {
      var j :| 0 <= j < |xs[..i]| && key(xs[..i][j]) == k;
      assert xs[j] == xs[..i][j];
    } else {
      var j :| 0 <= j < |xs[i + 1..]| && key(xs[i + 1..][j]) == k;
      assert xs[i + 1 + j] == xs[i + 1..][j];
    }
  }

  /** The stably sorted sequence begins with two equal keys exactly when
      another element shares the least key with the first one. */
  lemma SortByTie<T>(xs: seq<T>, key: T -> seq<int>)
    requires |xs| >= 2
    ensures key(SortBy(xs, key)[0]) == key(SortBy(xs, key)[1])
        <==> exists j :: 0 <= j < |xs| && j != FirstLeast(xs, key) && key(xs[j]) == key(xs[FirstLeast(xs, key)])
  {
    if key(SortBy(xs, key)[0]) == key(SortBy(xs, key)[1]) {
      TieHasOther(xs, key);
    }
    if exists j :: 0 <= j < |xs| && j != FirstLeast(xs, key) && key(xs[j]) == key(xs[FirstLeast(xs, key)]) {
      OtherHasTie(xs, key);
    }
  }

  lemma TieHasOther<T>(xs: seq<T>, key: T -> seq<int>)
    requires |xs| >= 2
    requires key(SortBy(xs, key)[0]) == key(SortBy(xs, key)[1])
    ensures exists j :: 0 <= j < |xs| && j != FirstLeast(xs, key) && key(xs[j]) == key(xs[FirstLeast(xs, key)])
  {
    var s := SortBy(xs, key);
    var i0 := FirstLeast(xs, key);
    var k := key(xs[i0]);
    SortByHead(xs, key);
    CountKeyPerm(xs, s, key, k);
    CountKeyTwo(s, key, k, 0, 1);
    CountKeyOther(xs, key, k, i0);
  }

  lemma OtherHasTie<T>(xs: seq<T>, key: T -> seq<int>)
    requires |xs| >= 2
    requires exists j :: 0 <= j < |xs| && j != FirstLeast(xs, key) && key(xs[j]) == key(xs[FirstLeast(xs, key)])
    ensures key(SortBy(xs, key)[0]) == key(SortBy(xs, key)[1])
  {
    var s := SortBy(xs, key);
    var i0 := FirstLeast(xs, key);
    var k := key(xs[i0]);
    SortByHead(xs, key);
    CountKeyPerm(xs, s, key, k);
    var j :| 0 <= j < |xs| && j != i0 && key(xs[j]) == k;
    if j < i0 {
      CountKeyTwo(xs, key, k, j, i0);
    } else {
      CountKeyTwo(xs, key, k, i0, j);
    }
    SortedTail(s, key, k);
  }

  /** In a sorted sequence whose head has key `k` and whose second element
      does not, only the head has key `k`. */
  lemma SortedTail<T>(s: seq<T>, key: T -> seq<int>, k: seq<int>)
    requires SortedBy(s, key) && |s| >= 2 && key(s[0]) == k
    ensures CountKey(s, key, k) >= 2 ==> key(s[1]) == k
  {
    if key(s[1]) != k {
      forall j | 1 <= j < |s| ensures key(s[j]) != k {
        if j > 1 {
          assert !Later(key, s[1], s[j]) && !Later(key, s[0], s[1]);
          LexLessTotal(key(s[0]), key(s[1]));
          LexLessIsStrictOrder(k, key(s[1]), key(s[j]));
        }
      }
      assert s == [s[0]] + s[1..];
      CountKeyConcat([s[0]], s[1..], key, k);
      assert CountKey([s[0]], key, k) == 1 by {
        assert [s[0]][..0] == [];
      }
      CountKeyPositive(s[1..], key, k);
      assert forall j :: 0 <= j < |s[1..]| ==> s[1..][j] == s[j + 1];
    }
  }
}
