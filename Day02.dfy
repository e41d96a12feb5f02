/** Day 2: box ids.  Part 1 multiplies the number of ids with some letter
    exactly twice by the number with some letter exactly three times; part 2
    finds two ids that differ at exactly one position and keeps the letters
    they share. */
module Day02 {
  import opened Maxima
  import opened Wrappers

  // ---------------------------------------------------------------------
  // part 1

  /** The letter counts of an id: `entry(c).or_insert(0) += 1` folded over
      its characters. */
  function Freqs(s: string): map<char, nat> {
    if s == [] then map[]
    else
      var f := Freqs(s[..|s| - 1]);
      var c := s[|s| - 1];
      f[c := (if c in f then f[c] else 0) + 1]
  }

  /** The fold counts every character of the id and only those. */
  lemma {:induction false} FreqsMeans(s: string)
    ensures forall c :: c in Freqs(s) <==> c in s
    ensures forall c :: c in Freqs(s) ==> Freqs(s)[c] == multiset(s)[c]
  {
    if s != [] {
      var init, c := s[..|s| - 1], s[|s| - 1];
      FreqsMeans(init);
      assert s == init + [c];
      assert multiset(s) == multiset(init) + multiset{c};
    }
  }

  /** Some letter occurs exactly `n` times in the id. */
  predicate HasExactly(s: string, n: nat) {
    exists c :: c in s && multiset(s)[c] == n
  }

  /** `values().find(|&n| *n == n).map(|_| 1).unwrap_or(0)`: an id adds 1
      when some count is `n`, however many letters have that count. */
  function Tally(s: string, n: nat): (r: nat)
    ensures r <= 1
    ensures r == 1 <==> HasExactly(s, n)
  {
    var f := Freqs(s);
    FreqsMeans(s);
    if exists c :: c in f && f[c] == n then 1 else 0
  }

  /** The ids, among the first `k`, that the tally counts. */
  function Having(ids: seq<string>, n: nat, k: nat): set<nat>
    requires k <= |ids|
  {
    set i: nat | i < k && Tally(ids[i], n) == 1
  }

  /** The `fold((0, 0), ...)` of the per-id pairs over the first `k` ids. */
  function Counts(ids: seq<string>, k: nat): (nat, nat)
    requires k <= |ids|
  {
    if k == 0 then (0, 0)
    else
      var prev := Counts(ids, k - 1);
      (prev.0 + Tally(ids[k - 1], 2), prev.1 + Tally(ids[k - 1], 3))
  }

  lemma HavingNext(ids: seq<string>, n: nat, k: nat)
    requires 0 < k <= |ids|
    ensures |Having(ids, n, k)| == |Having(ids, n, k - 1)| + Tally(ids[k - 1], n)
  {
    var j := k - 1;
    if Tally(ids[j], n) == 1 {
      assert Having(ids, n, k) == Having(ids, n, j) + {j};
    } else {
      assert Having(ids, n, k) == Having(ids, n, j);
    }
  }

  /** The fold counts the ids with a letter exactly twice, and those with a
      letter exactly three times. */
  lemma {:induction false} CountsMeans(ids: seq<string>, k: nat)
    requires k <= |ids|
    ensures Counts(ids, k) == (|Having(ids, 2, k)|, |Having(ids, 3, k)|)
  {
    if k == 0 {
      assert Having(ids, 2, 0) == {};
      assert Having(ids, 3, 0) == {};
    } else {
      CountsMeans(ids, k - 1);
      HavingNext(ids, 2, k);
      HavingNext(ids, 3, k);
    }
  }

  /** Part 1: the checksum. */
  function Part1(ids: seq<string>): (r: nat)
    ensures r == |Having(ids, 2, |ids|)| * |Having(ids, 3, |ids|)|
    ensures forall i: nat :: i in Having(ids, 2, |ids|) <==> i < |ids| && HasExactly(ids[i], 2)
    ensures forall i: nat :: i in Having(ids, 3, |ids|) <==> i < |ids| && HasExactly(ids[i], 3)
  {
    CountsMeans(ids, |ids|);
    var counts := Counts(ids, |ids|);
    counts.0 * counts.1
  }

  // ---------------------------------------------------------------------
  // part 2

  /** `zip(...).filter(|(c1, c2)| c1 != c2).count()`: the positions, up to
      the shorter length, where the ids differ. */
  function Edits(a: string, b: string): nat {
    if a == [] || b == [] then 0
    else (if a[0] != b[0] then 1 else 0) + Edits(a[1..], b[1..])
  }

  /** `zip(...).filter(|(c1, c2)| c1 == c2).map(|(c, _)| c).collect()`: the
      characters at the positions where the ids agree, in order. */
  function Common(a: string, b: string): string {
    if a == [] || b == [] then []
    else (if a[0] == b[0] then [a[0]] else []) + Common(a[1..], b[1..])
  }

  /** The zip stops at the shorter id: every position up to there is either
      an edit or kept. */
  lemma {:induction false} CommonLength(a: string, b: string)
    ensures |Common(a, b)| + Edits(a, b) == Min(|a|, |b|)
  {
    if a != [] && b != [] {
      CommonLength(a[1..], b[1..]);
    }
  }

  /** The ids agree at every zipped position other than `k`. */
  predicate AgreeExcept(a: string, b: string, k: int) {
    forall j :: 0 <= j < Min(|a|, |b|) && j != k ==> a[j] == b[j]
  }

  /** Dropping the first position shifts the excepted position by one. */
  lemma AgreeShift(a: string, b: string, k: int)
    requires |a| > 0 && |b| > 0
    ensures AgreeExcept(a, b, k) <==> (k == 0 || a[0] == b[0]) && AgreeExcept(a[1..], b[1..], k - 1)
  {
    var m, a', b' := Min(|a|, |b|), a[1..], b[1..];
    assert Min(|a'|, |b'|) == m - 1;
    if AgreeExcept(a, b, k) && (k == 0 || a[0] == b[0]) {
      forall j | 0 <= j < m - 1 && j != k - 1 ensures a'[j] == b'[j] {
        assert a[j + 1] == b[j + 1];
      }
    }
    if (k == 0 || a[0] == b[0]) && AgreeExcept(a', b', k - 1) {
      forall j | 0 <= j < m && j != k ensures a[j] == b[j] {
        if j > 0 {
          assert a'[j - 1] == b'[j - 1];
        }
      }
    }
  }

  /** No edit means the ids agree up to the shorter length, and then the
      common letters are the shorter length of either id. */
  lemma {:induction false} NoEdit(a: string, b: string)
    ensures Edits(a, b) == 0 <==> AgreeExcept(a, b, -1)
    ensures AgreeExcept(a, b, -1) ==> Common(a, b) == a[..Min(|a|, |b|)]
  {
    var m := Min(|a|, |b|);
    if m > 0 {
      var a', b' := a[1..], b[1..];
      NoEdit(a', b');
      AgreeShift(a, b, -1);
      if AgreeExcept(a, b, -1) {
        assert a'[..m - 1] == a[1..m];
        assert a[..m] == [a[0]] + a[1..m];
      }
    }
  }

  /** Exactly one zipped position `k` differs: one edit, and the common
      letters are the id with position `k` (and everything past the shorter
      length) cut out. */
  lemma {:induction false} EditAt(a: string, b: string, k: int)
    requires 0 <= k < Min(|a|, |b|) && a[k] != b[k] && AgreeExcept(a, b, k)
    ensures Edits(a, b) == 1
    ensures Common(a, b) == a[..k] + a[k + 1..Min(|a|, |b|)]
  {
    var m, a', b' := Min(|a|, |b|), a[1..], b[1..];
    AgreeShift(a, b, k);
    if k == 0 {
      NoEdit(a', b');
      assert a'[..m - 1] == a[1..m];
    } else {
      assert a'[k - 1] != b'[k - 1];
      EditAt(a', b', k - 1);
      CutTail(a, k, m);
    }
  }

  /** Cutting position `k` out of `a[..m]` keeps the first character in
      front. */
  lemma CutTail(a: string, k: nat, m: nat)
    requires 0 < k < m <= |a|
    ensures [a[0]] + (a[1..][..k - 1] + a[1..][k..m - 1]) == a[..k] + a[k + 1..m]
  {
    assert a[1..][..k - 1] == a[1..k];
    assert a[1..][k..m - 1] == a[k + 1..m];
    assert a[..k] == [a[0]] + a[1..k];
  }

  /** One edit has its position. */
  lemma {:induction false} EditFound(a: string, b: string)
    requires Edits(a, b) == 1
    ensures exists k :: 0 <= k < Min(|a|, |b|) && a[k] != b[k] && AgreeExcept(a, b, k)
  {
    var a', b' := a[1..], b[1..];
    if a[0] != b[0] {
      NoEdit(a', b');
      AgreeShift(a, b, 0);
    } else {
      EditFound(a', b');
      var k' :| 0 <= k' < Min(|a'|, |b'|) && a'[k'] != b'[k'] && AgreeExcept(a', b', k');
      AgreeShift(a, b, k' + 1);
      assert a[k' + 1] != b[k' + 1];
    }
  }

  /** Equal ids never differ anywhere, so the `item1 != item2` filter only
      skips pairs that could not answer. */
  lemma {:induction false} EqualNoEdits(a: string)
    ensures Edits(a, a) == 0
  {
    if a != [] {
      EqualNoEdits(a[1..]);
    }
  }

  /** Edits and common letters do not depend on the order of the pair. */
  lemma {:induction false} PairSymmetric(a: string, b: string)
    ensures Edits(a, b) == Edits(b, a) && Common(a, b) == Common(b, a)
  {
    if a != [] && b != [] {
      PairSymmetric(a[1..], b[1..]);
    }
  }

  /** The pair `(i, j)` answers: unequal ids one edit apart. */
  predicate Answers(ids: seq<string>, i: int, j: int) {
    0 <= i < |ids| && 0 <= j < |ids| && ids[i] != ids[j] && Edits(ids[i], ids[j]) == 1
  }

  /** The first `j' >= j` such that `(i, j')` answers. */
  function FindInRow(ids: seq<string>, i: nat, j: nat): (r: Option<nat>)
    requires i < |ids|
    ensures r.Some? ==> j <= r.value < |ids| && Answers(ids, i, r.value)
                        && forall j' :: j <= j' < r.value ==> !Answers(ids, i, j')
    ensures r.None? ==> forall j' :: j <= j' < |ids| ==> !Answers(ids, i, j')
    decreases |ids| - j
  {
    if j >= |ids| then None
    else if ids[i] != ids[j] && Edits(ids[i], ids[j]) == 1 then Some(j)
    else FindInRow(ids, i, j + 1)
  }

  /** `(i', j')` comes before `(i, j)` in row-major order. */
  predicate Before(i': int, j': int, i: int, j: int) {
    i' < i || (i' == i && j' < j)
  }

  /** `cartesian_product(...).filter(...).find_map(...)` from row `i`: the
      first answering pair in row-major order. */
  function FindPair(ids: seq<string>, i: nat): (r: Option<(nat, nat)>)
    ensures r.Some? ==> i <= r.value.0 && Answers(ids, r.value.0, r.value.1)
    ensures r.Some? ==> forall i', j' :: i <= i' && Before(i', j', r.value.0, r.value.1) ==> !Answers(ids, i', j')
    ensures r.None? ==> forall i', j' :: i <= i' ==> !Answers(ids, i', j')
    decreases |ids| - i
  {
    if i >= |ids| then None
    else
      var row := FindInRow(ids, i, 0);
      if row.Some? then Some((i, row.value))
      else FindPair(ids, i + 1)
  }

  /** Part 2: the common letters of the first answering pair; None where
      the source's `unwrap` would panic. */
  function Part2(ids: seq<string>): Option<string> {
    match FindPair(ids, 0)
    case None => None
    case Some((i, j)) => Some(Common(ids[i], ids[j]))
  }

  /** Part 2 answers iff two unequal ids differ at exactly one zipped
      position; the answer is the first such pair's id with that position
      cut out, one letter shorter than the shorter id. */
  lemma Part2Means(ids: seq<string>)
    ensures Part2(ids).Some? <==> exists i, j :: Answers(ids, i, j)
    ensures Part2(ids).Some? ==>
              exists i, j, k :: Answers(ids, i, j)
                && (forall i', j' :: Before(i', j', i, j) ==> !Answers(ids, i', j'))
                && 0 <= k < Min(|ids[i]|, |ids[j]|) && ids[i][k] != ids[j][k]
                && Part2(ids).value == ids[i][..k] + ids[i][k + 1..Min(|ids[i]|, |ids[j]|)]
                && |Part2(ids).value| == Min(|ids[i]|, |ids[j]|) - 1
  {
    var r := FindPair(ids, 0);
    if r.Some? {
      var (i, j) := r.value;
      var a, b := ids[i], ids[j];
      EditFound(a, b);
      CommonLength(a, b);
      var k :| 0 <= k < Min(|a|, |b|) && a[k] != b[k] && AgreeExcept(a, b, k);
      EditAt(a, b, k);
      forall i', j' | Before(i', j', i, j) ensures !Answers(ids, i', j') {
      }
    }
  }
}
