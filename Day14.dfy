/** Day 14: Chocolate Charts.  Two elves work through a growing scoreboard
    of recipe scores.  Each step appends the decimal digits of the sum of
    their two current recipes, then each elf moves forward one plus the
    score of its recipe, wrapping around the board. */
module Day14 {
  import opened Maxima
  import opened Wrappers
  import opened Text

  /** The puzzle input. */
  const INPUT: nat := 110201

  /** The scoreboard and the positions of the two workers. */
  datatype Board = Board(scores: seq<char>, left: nat, right: nat)

  /** Every entry is a decimal digit and both workers are on the board. */
  predicate Valid(b: Board) {
    |b.scores| >= 2 && AllDigits(b.scores) && b.left < |b.scores| && b.right < |b.scores|
  }

  /** The board `['3', '7']` with the workers on its two recipes. */
  function Start(): (b: Board)
    ensures Valid(b)
  {
    Board(['3', '7'], 0, 1)
  }

  /** `to_string` of a sum of two digits: one digit, or a `1` and one
      more. */
  function SumDigits(n: nat): (s: seq<char>)
    requires n <= 18
    ensures 1 <= |s| <= 2 && AllDigits(s)
  {
    if n < 10 then [DigitChar(n)] else ['1', DigitChar(n - 10)]
  }

  /** These are the decimal digits of the sum. */
  lemma SumDigitsIsToString(n: nat)
    requires n <= 18
    ensures SumDigits(n) == NatToString(n)
  {
    if n >= 10 {
      NatToStringSnoc(n);
      assert n / 10 == 1 && n % 10 == n - 10;
    }
  }

  /** One turn of the loop: append the digits of the sum of the two current
      scores, then move each worker `score + 1` places forward, modulo the
      new length. */
  function Step(b: Board): (r: Board)
    requires Valid(b)
    ensures Valid(r)
    ensures |b.scores| + 1 <= |r.scores| <= |b.scores| + 2
    ensures r.scores[..|b.scores|] == b.scores
  {
    var leftScore := DigitValue(b.scores[b.left]);
    var rightScore := DigitValue(b.scores[b.right]);
    var scores := b.scores + SumDigits(leftScore + rightScore);
    Board(scores, Move(b.left, leftScore, |scores|), Move(b.right, rightScore, |scores|))
  }

  /** The entries a step appends are the digits of the sum of the two
      current scores. */
  lemma StepAppendsSum(b: Board)
    requires Valid(b)
    ensures var r := Step(b);
      DigitsValue(r.scores[|b.scores|..]) == DigitValue(b.scores[b.left]) + DigitValue(b.scores[b.right])
  {
    var sum := DigitValue(b.scores[b.left]) + DigitValue(b.scores[b.right]);
    SumDigitsIsToString(sum);
    assert Step(b).scores[|b.scores|..] == NatToString(sum);
  }

  /** A worker at `i` on a recipe scoring `score` moves `score + 1` places
      forward, wrapping around a board of `len` recipes. */
  function Move(i: nat, score: nat, len: nat): (r: nat)
    requires len > 0
    ensures r < len
  {
    (i + score + 1) % len
  }

  /** The body shared by the loops of `part1` and `part2`: append the
      digits of the sum and move both workers. */
  method Advance(scores: seq<char>, left: nat, right: nat) returns (scores': seq<char>, left': nat, right': nat)
    requires Valid(Board(scores, left, right))
    ensures Board(scores', left', right') == Step(Board(scores, left, right))
  {
    var leftScore := DigitValue(scores[left]);
    var rightScore := DigitValue(scores[right]);
    var score := leftScore + rightScore;
    SumDigitsIsToString(score);
    scores' := scores + NatToString(score);
    left' := Move(left, leftScore, |scores'|);
    right' := Move(right, rightScore, |scores'|);
  }

  // ---------------------------------------------------------------------
  // part1

  /** The board when the loop of `part1` stops: steps are taken, at least
      one, until the board holds `target` recipes or more. */
  function GrowFrom(b: Board, target: nat): (r: Board)
    requires Valid(b)
    ensures Valid(r) && |r.scores| >= target && |r.scores| > |b.scores|
    ensures r.scores[..|b.scores|] == b.scores
    decreases if |b.scores| >= target then 0 else target - |b.scores|
  {
    var next := Step(b);
    if |next.scores| >= target then next else GrowFrom(next, target)
  }

  /** The loop stops as soon as the target is reached, so it overshoots by
      at most one recipe (or takes a single step). */
  lemma {:induction false} GrowFromStops(b: Board, target: nat)
    requires Valid(b)
    ensures |GrowFrom(b, target).scores| <= target + 1 || |GrowFrom(b, target).scores| <= |b.scores| + 2
    decreases if |b.scores| >= target then 0 else target - |b.scores|
  {
    var next := Step(b);
    if |next.scores| < target {
      GrowFromStops(next, target);
    }
  }

  /** Growing to a smaller target gives a prefix of growing to a larger
      one: the scoreboard is one sequence, whatever the target. */
  lemma {:induction false} GrowFromPrefix(b: Board, t1: nat, t2: nat)
    requires Valid(b) && t1 <= t2
    ensures var s1 := GrowFrom(b, t1).scores;
      |s1| <= |GrowFrom(b, t2).scores| && GrowFrom(b, t2).scores[..|s1|] == s1
    decreases if |b.scores| >= t1 then 0 else t1 - |b.scores|
  {
    var next := Step(b);
    if |next.scores| < t1 {
      GrowFromPrefix(next, t1, t2);
    } else if |next.scores| < t2 {
      var s2 := GrowFrom(next, t2).scores;
      assert s2[..|next.scores|] == next.scores;
    }
  }

  /** The answer of `part1`: the ten scores after the first `input`. */
  function Part1Answer(input: nat): (r: seq<char>)
    ensures |r| == 10 && AllDigits(r)
  {
    GrowFrom(Start(), input + 10).scores[input..input + 10]
  }

  /** `part1`: grow the board to `input + 10` recipes and take the ten after
      the first `input`. */
  method Part1(input: nat) returns (answer: seq<char>)
    ensures answer == Part1Answer(input)
    ensures |answer| == 10 && AllDigits(answer)
  {
    var target := input + 10;
    var scores := ['3', '7'];
    var left: nat, right: nat := 0, 1;
    while true
      invariant Valid(Board(scores, left, right))
      invariant GrowFrom(Board(scores, left, right), target) == GrowFrom(Start(), target)
      decreases if |scores| >= target then 0 else target - |scores|
    {
      ghost var b := Board(scores, left, right);
      scores, left, right := Advance(scores, left, right);
      if |scores| >= target {
        break;
      }
    }
    answer := scores[input..input + 10];
  }

  // ---------------------------------------------------------------------
  // part2

  /** `pat` occurs in `text` starting at `j`. */
  predicate OccursAt(text: seq<char>, pat: seq<char>, j: nat) {
    j + |pat| <= |text| && text[j..j + |pat|] == pat
  }

  /** `pat` occurs nowhere in `text`. */
  ghost predicate Absent(text: seq<char>, pat: seq<char>) {
    forall j: nat :: !OccursAt(text, pat, j)
  }

  /** `str::find` from position `i` on. */
  function FindFrom(text: seq<char>, pat: seq<char>, i: nat): Option<nat>
    requires i <= |text|
    decreases |text| - i
  {
    if OccursAt(text, pat, i) then Some(i)
    else if i == |text| then None
    else FindFrom(text, pat, i + 1)
  }

  /** `str::find`: the first position where `pat` occurs. */
  function Find(text: seq<char>, pat: seq<char>): Option<nat> {
    FindFrom(text, pat, 0)
  }

  /** `FindFrom` answers with the first occurrence at or after `i`. */
  lemma {:induction false} FindFromFirst(text: seq<char>, pat: seq<char>, i: nat)
    requires i <= |text|
    ensures var r := FindFrom(text, pat, i);
      && (r.Some? ==> i <= r.value && OccursAt(text, pat, r.value))
      && (r.Some? ==> forall j: nat :: i <= j < r.value ==> !OccursAt(text, pat, j))
      && (r.None? ==> forall j: nat :: i <= j ==> !OccursAt(text, pat, j))
    decreases |text| - i
  {
    if !OccursAt(text, pat, i) && i < |text| {
      FindFromFirst(text, pat, i + 1);
    }
  }

  /** `Find` answers with the first occurrence, and None exactly when there
      is none. */
  lemma FindFirst(text: seq<char>, pat: seq<char>)
    ensures Find(text, pat).Some? ==> FirstAt(text, pat, Find(text, pat).value)
    ensures Find(text, pat).None? <==> Absent(text, pat)
  {
    FindFromFirst(text, pat, 0);
  }

  /** The last `k` entries of the board, or all of them when it is
      shorter: `rev().take(k)` reversed back. */
  function Tail(scores: seq<char>, k: nat): (t: seq<char>)
    ensures |t| == Min(k, |scores|)
  {
    scores[|scores| - Min(k, |scores|)..]
  }

  /** The check after each step of `part2`: where `pat` starts in the last
      `|pat| + 2` entries, as an index into the whole board. */
  function Check(scores: seq<char>, pat: seq<char>): Option<nat> {
    var tail := Tail(scores, |pat| + 2);
    match Find(tail, pat)
    case None => None
    case Some(i) => Some(|scores| - |tail| + i)
  }

  /** Where the search stopped: the answer, if any, and the board. */
  datatype Outcome = Outcome(answer: Option<nat>, board: Board)

  /** The search of `part2`: step, then check the end of the board.  The
      source loops until the digits turn up; the model gives up, with no
      answer, once the board holds `limit` recipes. */
  function SearchFrom(b: Board, pat: seq<char>, limit: nat): Outcome
    requires Valid(b)
    decreases if |b.scores| >= limit then 0 else limit - |b.scores|
  {
    if |b.scores| >= limit then Outcome(None, b)
    else
      var next := Step(b);
      var found := Check(next.scores, pat);
      if found.Some? then Outcome(found, next) else SearchFrom(next, pat, limit)
  }

  /** `pat` occurs at `a` and nowhere before. */
  ghost predicate FirstAt(text: seq<char>, pat: seq<char>, a: nat) {
    OccursAt(text, pat, a) && forall j: nat :: j < a ==> !OccursAt(text, pat, j)
  }

  /** Positions in the tail are positions in the board, shifted. */
  lemma TailOccurs(scores: seq<char>, pat: seq<char>, k: nat, i: nat)
    ensures var t := Tail(scores, k);
      OccursAt(t, pat, i) <==> OccursAt(scores, pat, |scores| - |t| + i)
  {
    var t := Tail(scores, k);
    var s := |scores| - |t|;
    if i + |pat| <= |t| {
      assert t[i..i + |pat|] == scores[s + i..s + i + |pat|];
    }
  }

  /** An occurrence that ends inside a prefix of the board is an occurrence
      in that prefix. */
  lemma PrefixOccurs(before: seq<char>, scores: seq<char>, pat: seq<char>, j: nat)
    requires |before| <= |scores| && scores[..|before|] == before
    requires j + |pat| <= |before|
    ensures OccursAt(scores, pat, j) <==> OccursAt(before, pat, j)
  {
    var u, v := scores[j..j + |pat|], before[j..j + |pat|];
    forall k | 0 <= k < |pat| ensures u[k] == v[k] {
      assert scores[..|before|][j + k] == scores[j + k];
    }
    assert u == v;
  }

  /** After a step that appends at most two entries to a board without
      `pat`, every occurrence of `pat` starts inside the last `|pat| + 2`
      entries. */
  lemma OccursInTail(before: seq<char>, scores: seq<char>, pat: seq<char>, j: nat)
    requires |pat| >= 1 && Absent(before, pat)
    requires |before| <= |scores| <= |before| + 2 && scores[..|before|] == before
    requires OccursAt(scores, pat, j)
    ensures var t := Tail(scores, |pat| + 2);
      |scores| - |t| <= j && OccursAt(t, pat, j - (|scores| - |t|))
  {
    if j + |pat| <= |before| {
      PrefixOccurs(before, scores, pat, j);
      assert false;
    }
    var t := Tail(scores, |pat| + 2);
    TailOccurs(scores, pat, |pat| + 2, j - (|scores| - |t|));
  }

  /** So `Check`, which looks only at the tail, finds what `Find` finds on
      the whole board. */
  lemma CheckFindsFirst(before: seq<char>, scores: seq<char>, pat: seq<char>)
    requires |pat| >= 1 && Absent(before, pat)
    requires |before| <= |scores| <= |before| + 2 && scores[..|before|] == before
    ensures Check(scores, pat) == Find(scores, pat)
  {
    var t := Tail(scores, |pat| + 2);
    FindFirst(t, pat);
    FindFirst(scores, pat);
    match Find(t, pat)
    case None =>
      forall j: nat ensures !OccursAt(scores, pat, j) {
        if OccursAt(scores, pat, j) {
          OccursInTail(before, scores, pat, j);
        }
      }
    case Some(i) =>
      TailOccurs(scores, pat, |pat| + 2, i);
      forall j: nat | j < |scores| - |t| + i ensures !OccursAt(scores, pat, j) {
        if OccursAt(scores, pat, j) {
          OccursInTail(before, scores, pat, j);
        }
      }
  }

  /** The search stopped with the answer `Find` gives on its board. */
  predicate Agrees(o: Outcome, pat: seq<char>) {
    Find(o.board.scores, pat) == o.answer
  }

  /** On a board without `pat`, the check after one step finds what `Find`
      finds on the new board. */
  lemma StepAgrees(b: Board, pat: seq<char>)
    requires Valid(b) && |pat| >= 1 && Find(b.scores, pat).None?
    ensures Check(Step(b).scores, pat) == Find(Step(b).scores, pat)
  {
    FindFirst(b.scores, pat);
    CheckFindsFirst(b.scores, Step(b).scores, pat);
  }

  /** When the digits do not occur on the starting board, the search
      answers with the first position where they occur on the board it
      stops on, and a search that gives up has not seen them. */
  lemma {:induction false} SearchFindsFirst(b: Board, pat: seq<char>, limit: nat)
    requires Valid(b) && |pat| >= 1 && Find(b.scores, pat).None?
    ensures Agrees(SearchFrom(b, pat, limit), pat)
    decreases if |b.scores| >= limit then 0 else limit - |b.scores|
  {
    if |b.scores| < limit {
      var next := Step(b);
      StepAgrees(b, pat);
      if Check(next.scores, pat).None? {
        SearchFindsFirst(next, pat, limit);
      }
    }
  }

  /** `r` is a valid board that starts with the entries of `b`. */
  predicate Extends(r: Board, b: Board) {
    Valid(r) && |r.scores| >= |b.scores| && r.scores[..|b.scores|] == b.scores
  }

  /** A board that extends one that extends `a` extends `a`. */
  lemma ExtendsTransitive(a: Board, b: Board, c: Board)
    requires Extends(b, a) && Extends(c, b)
    ensures Extends(c, a)
  {
    assert c.scores[..|a.scores|] == c.scores[..|b.scores|][..|a.scores|];
  }

  /** The search only appends to the board, and the board it stops on
      holds at least `limit` recipes unless the digits turned up. */
  lemma {:induction false} SearchExtends(b: Board, pat: seq<char>, limit: nat)
    requires Valid(b)
    ensures var r := SearchFrom(b, pat, limit);
      Extends(r.board, b) && (r.answer.None? ==> |r.board.scores| >= limit)
    decreases if |b.scores| >= limit then 0 else limit - |b.scores|
  {
    if |b.scores| >= limit {
      assert b.scores[..|b.scores|] == b.scores;
    } else {
      var next := Step(b);
      assert Extends(next, b);
      if Check(next.scores, pat).None? {
        SearchExtends(next, pat, limit);
        ExtendsTransitive(b, next, SearchFrom(next, pat, limit).board);
      }
    }
  }

  /** `part2`: step until the digits of `pat` turn up near the end of the
      board and answer with the number of recipes before them; None when
      the board reached `limit` recipes first. */
  method Part2(pat: seq<char>, limit: nat) returns (answer: Option<nat>)
    ensures answer == SearchFrom(Start(), pat, limit).answer
  {
    var scores := ['3', '7'];
    var left: nat, right: nat := 0, 1;
    while |scores| < limit
      invariant Valid(Board(scores, left, right))
      invariant SearchFrom(Board(scores, left, right), pat, limit) == SearchFrom(Start(), pat, limit)
      decreases limit - |scores|
    {
      scores, left, right := Advance(scores, left, right);
      var tail := Tail(scores, |pat| + 2);
      var found := Find(tail, pat);
      if found.Some? {
        return Some(|scores| - |tail| + found.value);
      }
    }
    return None;
  }

  /** The puzzle's digits do not occur on the starting board, so the
      answer of `part2` is the first place they occur. */
  lemma Part2Input(limit: nat)
    ensures var r := SearchFrom(Start(), NatToString(INPUT), limit);
      r.answer.Some? ==> FirstAt(r.board.scores, NatToString(INPUT), r.answer.value)
  {
    var pat := NatToString(INPUT);
    NatToStringSnoc(INPUT);
    NatToStringSnoc(INPUT / 10);
    assert |pat| >= 3;
    FindFirst(Start().scores, pat);
    SearchFindsFirst(Start(), pat, limit);
    FindFirst(SearchFrom(Start(), pat, limit).board.scores, pat);
  }
}
