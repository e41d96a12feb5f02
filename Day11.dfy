/** Day 11: Chronal Charge.  Every cell of a 300 x 300 grid has a power
    level computed from its coordinates and the puzzle input.  Part 1 finds
    the 3 x 3 square with the most power; part 2 searches squares of every
    size with a summed-area table. */
module Day11 {
  import opened Wrappers
  import opened Text
  import opened Maxima

  /** The puzzle input, the grid serial number. */
  const INPUT: int := 5535

  /** The grid side. */
  const N: int := 300

  datatype Point = Point(x: int, y: int)

  // ---------------------------------------------------------------------
  // power_level

  /** The third character from the right of `n.to_string()`, read as a
      digit (`c as u8 - 48`), or 0 when the string is shorter.  When that
      character is the minus sign the `u8` subtraction overflows and the
      program stops: None. */
  function Hundreds(n: int): Option<int> {
    var s := IntToString(n);
    if |s| < 3 then Some(0)
    else if s[|s| - 3] < '0' then None
    else Some(s[|s| - 3] as int - 48)
  }

  /** `power_level`. */
  function PowerLevel(p: Point): Option<int> {
    var rackId := p.x + 10;
    var n := (rackId * p.y + INPUT) * rackId;
    match Hundreds(n)
    case None => None
    case Some(h) => Some(h - 5)
  }

  /** The last character is the last digit. */
  lemma NatToStringLast(n: nat)
    ensures NatToString(n)[|NatToString(n)| - 1] == DigitChar(n % 10)
  {
    if n >= 10 {
      NatToStringSnoc(n);
    }
  }

  lemma NatToStringShort(n: nat)
    requires n < 100
    ensures |NatToString(n)| <= 2
  {
    if n >= 10 {
      NatToStringSnoc(n);
    }
  }

  /** The third character from the right of a number of three or more
      digits is the last digit of `n / 100`. */
  lemma NatToStringThird(n: nat)
    requires n >= 100
    ensures |NatToString(n)| >= 3
    ensures NatToString(n)[|NatToString(n)| - 3] == DigitChar((n / 100) % 10)
  {
    var s := NatToString(n);
    NatToStringSnoc(n);
    NatToStringSnoc(n / 10);
    assert n / 10 / 10 == n / 100;
    var t := NatToString(n / 100);
    assert s == t + [DigitChar((n / 10) % 10)] + [DigitChar(n % 10)];
    assert s[|s| - 3] == t[|t| - 1];
    NatToStringLast(n / 100);
  }

  /** For a non-negative number the string trick reads the hundreds digit,
      `(n / 100) % 10`, which is 0 below 100. */
  lemma HundredsOfNat(n: nat)
    ensures Hundreds(n) == Some((n / 100) % 10)
  {
    if n < 100 {
      NatToStringShort(n);
    } else {
      NatToStringThird(n);
    }
  }

  /** Between -99 and -10 the third character from the right is the minus
      sign, and the program stops. */
  lemma HundredsOfSmallNegative(n: int)
    requires -99 <= n <= -10
    ensures Hundreds(n) == None
  {
    var s := IntToString(n);
    NatToStringSnoc(-n);
    assert s == "-" + NatToString(-n);
    assert s[|s| - 3] == '-';
  }

  /** On the grid the power level is the hundreds digit of
      `((x + 10) * y + INPUT) * (x + 10)` minus 5, between -5 and 4. */
  lemma PowerLevelOnGrid(p: Point)
    requires 1 <= p.x && 1 <= p.y
    ensures var n := ((p.x + 10) * p.y + INPUT) * (p.x + 10);
      n >= 0 && PowerLevel(p) == Some((n / 100) % 10 - 5)
    ensures PowerLevel(p).Some? && -5 <= PowerLevel(p).value <= 4
  {
    var rackId := p.x + 10;
    ProductNonNegative(rackId, p.y);
    var a := rackId * p.y + INPUT;
    ProductNonNegative(a, rackId);
    HundredsOfNat(a * rackId);
  }

  lemma ProductNonNegative(a: int, b: int)
    requires a >= 0 && b >= 0
    ensures a * b >= 0
  {
  }

  // ---------------------------------------------------------------------
  // The grid

  predicate InGrid(p: Point) {
    1 <= p.x <= N && 1 <= p.y <= N
  }

  /** Every cell of the 300 x 300 square is in `grid`. */
  ghost predicate Complete(grid: map<Point, int>) {
    forall p :: InGrid(p) ==> p in grid
  }

  /** The power level of a grid cell. */
  function Level(p: Point): (r: int)
    requires InGrid(p)
    ensures -5 <= r <= 4
    ensures PowerLevel(p) == Some(r)
  {
    PowerLevelOnGrid(p);
    PowerLevel(p).value
  }

  function Cells(): (s: set<Point>)
    ensures forall p :: p in s <==> InGrid(p)
  {
    set x, y | 1 <= x <= N && 1 <= y <= N :: Point(x, y)
  }

  /** The grid `main` builds: the power level of every cell. */
  function Grid(): (grid: map<Point, int>)
    ensures Complete(grid)
    ensures forall p :: p in grid ==> InGrid(p) && PowerLevel(p) == Some(grid[p])
  {
    map p | p in Cells() :: Level(p)
  }

  /** The value at `p`, 0 off the grid (the sums below are only taken over
      cells that are present). */
  function At(grid: map<Point, int>, p: Point): int {
    if p in grid then grid[p] else 0
  }

  /** The cells `x0..x1` of row `y`, added up. */
  function RowSum(grid: map<Point, int>, x0: int, x1: int, y: int): int
    decreases x1 - x0
  {
    if x1 <= x0 then 0 else RowSum(grid, x0, x1 - 1, y) + At(grid, Point(x1 - 1, y))
  }

  /** The rectangle `x0..x1` by `y0..y1`, added up. */
  function Rect(grid: map<Point, int>, x0: int, x1: int, y0: int, y1: int): int
    decreases y1 - y0
  {
    if y1 <= y0 then 0 else Rect(grid, x0, x1, y0, y1 - 1) + RowSum(grid, x0, x1, y1 - 1)
  }

  lemma {:induction false} RowSplit(grid: map<Point, int>, x0: int, x1: int, x2: int, y: int)
    requires x0 <= x1 <= x2
    ensures RowSum(grid, x0, x2, y) == RowSum(grid, x0, x1, y) + RowSum(grid, x1, x2, y)
    decreases x2 - x1
  {
    if x2 > x1 {
      RowSplit(grid, x0, x1, x2 - 1, y);
    }
  }

  /** A rectangle is its left part plus its right part. */
  lemma {:induction false} RectSplitX(grid: map<Point, int>, x0: int, x1: int, x2: int, y0: int, y1: int)
    requires x0 <= x1 <= x2
    ensures Rect(grid, x0, x2, y0, y1) == Rect(grid, x0, x1, y0, y1) + Rect(grid, x1, x2, y0, y1)
    decreases y1 - y0
  {
    if y1 > y0 {
      RectSplitX(grid, x0, x1, x2, y0, y1 - 1);
      RowSplit(grid, x0, x1, x2, y1 - 1);
    }
  }

  /** A rectangle is its top part plus its bottom part. */
  lemma {:induction false} RectSplitY(grid: map<Point, int>, x0: int, x1: int, y0: int, y1: int, y2: int)
    requires y0 <= y1 <= y2
    ensures Rect(grid, x0, x1, y0, y2) == Rect(grid, x0, x1, y0, y1) + Rect(grid, x0, x1, y1, y2)
    decreases y2 - y1
  {
    if y2 > y1 {
      RectSplitY(grid, x0, x1, y0, y1, y2 - 1);
    }
  }

  // ---------------------------------------------------------------------
  // part1

  /** The `k`-th cell of the 3 x 3 square at `p` in `iproduct!(0..3, 0..3)`
      order: `(dx, dy)` is `(k / 3, k % 3)`. */
  function Offset(p: Point, k: int): Point {
    Point(p.x + k / 3, p.y + k % 3)
  }

  /** The nine cells of the 3 x 3 square at `p`; `grid.get` gives None off
      the grid. */
  function Square3(grid: map<Point, int>, p: Point): (r: seq<Option<int>>)
    ensures |r| == 9
    ensures forall k :: 0 <= k < 9 ==> r[k] == if Offset(p, k) in grid then Some(grid[Offset(p, k)]) else None
  {
    seq(9, k requires 0 <= k < 9 => if Offset(p, k) in grid then Some(grid[Offset(p, k)]) else None)
  }

  function Sum(xs: seq<int>): int {
    if xs == [] then 0 else Sum(xs[..|xs| - 1]) + xs[|xs| - 1]
  }

  /** The 3 x 3 square at `p` lies in the grid. */
  ghost predicate Covers3(grid: map<Point, int>, p: Point) {
    forall k :: 0 <= k < 9 ==> Offset(p, k) in grid
  }

  /** The score of the square at `p`: the sum of its cells, None when one
      of them is off the grid. */
  function Score3(grid: map<Point, int>, p: Point): Option<int> {
    match Collect(Square3(grid, p))
    case None => None
    case Some(values) => Some(Sum(values))
  }

  lemma Sum9(v: seq<int>)
    requires |v| == 9
    ensures Sum(v) == v[0] + v[1] + v[2] + v[3] + v[4] + v[5] + v[6] + v[7] + v[8]
  {
    assert Sum(v[..1]) == v[0] by { assert v[..1][..0] == []; }
    assert Sum(v[..2]) == Sum(v[..1]) + v[1] by { assert v[..2][..1] == v[..1]; }
    assert Sum(v[..3]) == Sum(v[..2]) + v[2] by { assert v[..3][..2] == v[..2]; }
    assert Sum(v[..4]) == Sum(v[..3]) + v[3] by { assert v[..4][..3] == v[..3]; }
    assert Sum(v[..5]) == Sum(v[..4]) + v[4] by { assert v[..5][..4] == v[..4]; }
    assert Sum(v[..6]) == Sum(v[..5]) + v[5] by { assert v[..6][..5] == v[..5]; }
    assert Sum(v[..7]) == Sum(v[..6]) + v[6] by { assert v[..7][..6] == v[..6]; }
    assert Sum(v[..8]) == Sum(v[..7]) + v[7] by { assert v[..8][..7] == v[..7]; }
    assert v[..9] == v;
  }

  lemma Row3(grid: map<Point, int>, x: int, y: int)
    ensures RowSum(grid, x, x + 3, y) == At(grid, Point(x, y)) + At(grid, Point(x + 1, y)) + At(grid, Point(x + 2, y))
  {
    assert RowSum(grid, x, x + 1, y) == At(grid, Point(x, y));
    assert RowSum(grid, x, x + 2, y) == RowSum(grid, x, x + 1, y) + At(grid, Point(x + 1, y));
  }

  lemma Rect3(grid: map<Point, int>, x: int, y: int)
    ensures Rect(grid, x, x + 3, y, y + 3) == RowSum(grid, x, x + 3, y) + RowSum(grid, x, x + 3, y + 1) + RowSum(grid, x, x + 3, y + 2)
  {
    assert Rect(grid, x, x + 3, y, y + 1) == RowSum(grid, x, x + 3, y);
    assert Rect(grid, x, x + 3, y, y + 2) == Rect(grid, x, x + 3, y, y + 1) + RowSum(grid, x, x + 3, y + 1);
  }

  /** Only squares lying in the grid are scored, and the score is the
      sum of the square. */
  lemma Score3Means(grid: map<Point, int>, p: Point)
    ensures Score3(grid, p).Some? <==> Covers3(grid, p)
    ensures Score3(grid, p).Some? ==> Score3(grid, p).value == SquareSum(grid, Square(p.x, p.y, 3))
  {
    var c := Collect(Square3(grid, p));
    if c.Some? {
      var v := c.value;
      var x, y := p.x, p.y;
      Sum9(v);
      Rect3(grid, x, y);
      Row3(grid, x, y);
      Row3(grid, x, y + 1);
      Row3(grid, x, y + 2);
      assert Offset(p, 0) == Point(x, y) && Offset(p, 1) == Point(x, y + 1) && Offset(p, 2) == Point(x, y + 2);
      assert Offset(p, 3) == Point(x + 1, y) && Offset(p, 4) == Point(x + 1, y + 1) && Offset(p, 5) == Point(x + 1, y + 2);
      assert Offset(p, 6) == Point(x + 2, y) && Offset(p, 7) == Point(x + 2, y + 1) && Offset(p, 8) == Point(x + 2, y + 2);
    }
  }

  datatype Scored = Scored(corner: Point, score: int)

  /** The `filter_map` of `part1`: every key of the grid in iteration
      order, with its score, when its square lies in the grid. */
  function ScoredKeys(grid: map<Point, int>, keys: seq<Point>): (r: seq<Scored>)
    ensures forall i :: 0 <= i < |r| ==> r[i].corner in keys && Score3(grid, r[i].corner) == Some(r[i].score)
  {
    if keys == [] then []
    else
      var rest := ScoredKeys(grid, keys[1..]);
      var s := Score3(grid, keys[0]);
      if s.Some? then [Scored(keys[0], s.value)] + rest else rest
  }

  /** Every key whose square lies in the grid is scored. */
  lemma {:induction false} ScoredKeysHas(grid: map<Point, int>, keys: seq<Point>, p: Point) returns (i: nat)
    requires p in keys && Score3(grid, p).Some?
    ensures i < |ScoredKeys(grid, keys)| && ScoredKeys(grid, keys)[i].corner == p
  {
    var rest := ScoredKeys(grid, keys[1..]);
    if keys[0] == p {
      i := 0;
    } else {
      var j := ScoredKeysHas(grid, keys[1..], p);
      i := if Score3(grid, keys[0]).Some? then j + 1 else j;
    }
  }

  /** `part1`: a top-left corner of a 3 x 3 square with the greatest sum.
      `keys` is the grid's keys in the map's iteration order; the program
      stops (None) when no square fits. */
  function Part1(grid: map<Point, int>, keys: seq<Point>): Option<Point>
    requires forall p :: p in keys <==> p in grid
  {
    var scored := ScoredKeys(grid, keys);
    if scored == [] then None
    else Some(scored[LastMax(scored, (c: Scored) => c.score)].corner)
  }

  /** In terms of scores: None exactly when no key is scored, and otherwise
      a scored key whose score no other key's exceeds. */
  lemma Part1Scores(grid: map<Point, int>, keys: seq<Point>)
    requires forall p :: p in keys <==> p in grid
    ensures Part1(grid, keys).None? <==> forall p :: p in grid ==> Score3(grid, p).None?
    ensures Part1(grid, keys).Some? ==>
      var best := Part1(grid, keys).value;
      best in grid && Score3(grid, best).Some? &&
      forall p :: p in grid && Score3(grid, p).Some? ==> Score3(grid, p).value <= Score3(grid, best).value
  {
    var scored := ScoredKeys(grid, keys);
    if scored == [] {
      forall p | p in grid ensures Score3(grid, p).None? {
        if Score3(grid, p).Some? {
          var j := ScoredKeysHas(grid, keys, p);
        }
      }
    } else {
      var key := (c: Scored) => c.score;
      var i := LastMax(scored, key);
      forall p | p in grid && Score3(grid, p).Some?
        ensures Score3(grid, p).value <= Score3(grid, scored[i].corner).value
      {
        var j := ScoredKeysHas(grid, keys, p);
        assert key(scored[j]) <= key(scored[i]);
      }
    }
  }

  /** The answer's square lies in the grid and no square of the grid has a
      greater sum; None exactly when no square fits. */
  lemma Part1Best(grid: map<Point, int>, keys: seq<Point>)
    requires forall p :: p in keys <==> p in grid
    ensures Part1(grid, keys).None? <==> forall p :: p in grid ==> !Covers3(grid, p)
    ensures Part1(grid, keys).Some? ==>
      var best := Part1(grid, keys).value;
      best in grid && Covers3(grid, best) &&
      forall p :: p in grid && Covers3(grid, p) ==>
        SquareSum(grid, Square(p.x, p.y, 3)) <= SquareSum(grid, Square(best.x, best.y, 3))
  {
    Part1Scores(grid, keys);
    var answer := Part1(grid, keys);
    if answer.None? {
      forall p | p in grid ensures !Covers3(grid, p) {
        Score3Means(grid, p);
      }
    } else {
      var best := answer.value;
      Score3Means(grid, best);
      forall p | p in grid && Covers3(grid, p)
        ensures SquareSum(grid, Square(p.x, p.y, 3)) <= SquareSum(grid, Square(best.x, best.y, 3))
      {
        Score3Means(grid, p);
      }
    }
  }

  // ---------------------------------------------------------------------
  // part2: the summed-area cache

  /** `acc.get(p).unwrap_or_default()`. */
  function Get(acc: map<Point, int>, p: Point): int {
    if p in acc then acc[p] else 0
  }

  /** The cache after the fold has visited every point up to `(x, y)` in
      `iproduct!(1..=300, 1..=300)` order (x outer, y inner): each point
      stores the entry below it plus the sum of its row from column 1. */
  function CacheAfter(grid: map<Point, int>, x: nat, y: nat): map<Point, int>
    requires x <= N && y <= N
    decreases x, y
  {
    if x == 0 then map[]
    else if y == 0 then CacheAfter(grid, x - 1, N)
    else
      var acc := CacheAfter(grid, x, y - 1);
      acc[Point(x, y) := Get(acc, Point(x, y - 1)) + RowSum(grid, 1, x + 1, y)]
  }

  function Cache(grid: map<Point, int>): map<Point, int> {
    CacheAfter(grid, N, N)
  }

  /** The sum of the grid over `1..=a` by `1..=b`. */
  function Prefix(grid: map<Point, int>, a: int, b: int): int {
    Rect(grid, 1, a + 1, 1, b + 1)
  }

  /** The fold has visited `p` by the time it reaches `(x, y)`. */
  predicate Visited(p: Point, x: int, y: int) {
    1 <= p.y <= N && 1 <= p.x && (p.x < x || (p.x == x && p.y <= y))
  }

  /** The cache holds exactly the visited points, and each holds the sum
      of the grid over `1..=p.x` by `1..=p.y`. */
  lemma {:induction false} CacheAfterAt(grid: map<Point, int>, x: nat, y: nat, p: Point)
    requires x <= N && y <= N
    ensures p in CacheAfter(grid, x, y) <==> Visited(p, x, y)
    ensures p in CacheAfter(grid, x, y) ==> CacheAfter(grid, x, y)[p] == Prefix(grid, p.x, p.y)
    decreases x, y
  {
    if x == 0 {
    } else if y == 0 {
      CacheAfterAt(grid, x - 1, N, p);
    } else {
      CacheAfterAt(grid, x, y - 1, p);
      CacheAfterAt(grid, x, y - 1, Point(x, y - 1));
      var acc := CacheAfter(grid, x, y - 1);
      assert Get(acc, Point(x, y - 1)) == Rect(grid, 1, x + 1, 1, y);
    }
  }

  /** `cache` is the summed-area table of `grid`: it holds the grid's
      points, each with the sum of the grid up to it. */
  ghost predicate SummedArea(grid: map<Point, int>, cache: map<Point, int>) {
    forall p :: (p in cache <==> InGrid(p)) && (p in cache ==> cache[p] == Prefix(grid, p.x, p.y))
  }

  /** The cache the fold builds is the summed-area table. */
  lemma CacheIsSummedArea(grid: map<Point, int>)
    ensures SummedArea(grid, Cache(grid))
  {
    forall p ensures (p in Cache(grid) <==> InGrid(p)) && (p in Cache(grid) ==> Cache(grid)[p] == Prefix(grid, p.x, p.y)) {
      CacheAfterAt(grid, N, N, p);
    }
  }

  lemma {:induction false} RectEmptyColumns(grid: map<Point, int>, y0: int, y1: int)
    ensures Rect(grid, 1, 1, y0, y1) == 0
    decreases y1 - y0
  {
    if y1 > y0 {
      RectEmptyColumns(grid, y0, y1 - 1);
    }
  }

  /** In column 0 or row 0 `get` falls back to 0, which is also the sum
      over an empty rectangle. */
  lemma GetSummedArea(grid: map<Point, int>, cache: map<Point, int>, p: Point)
    requires SummedArea(grid, cache)
    requires 0 <= p.x <= N && 0 <= p.y <= N
    ensures Get(cache, p) == Prefix(grid, p.x, p.y)
  {
    if p.y >= 1 && p.x == 0 {
      RectEmptyColumns(grid, 1, p.y + 1);
    }
  }

  /** Inclusion and exclusion on prefix rectangles. */
  lemma RectByPrefixes(grid: map<Point, int>, x0: int, x1: int, y0: int, y1: int)
    requires 1 <= x0 <= x1 && 1 <= y0 <= y1
    ensures Rect(grid, x0, x1, y0, y1)
      == Rect(grid, 1, x1, 1, y1) - Rect(grid, 1, x1, 1, y0) - Rect(grid, 1, x0, 1, y1) + Rect(grid, 1, x0, 1, y0)
  {
    RectSplitY(grid, 1, x1, 1, y0, y1);
    RectSplitX(grid, 1, x0, x1, y0, y1);
    RectSplitY(grid, 1, x0, 1, y0, y1);
  }

  // ---------------------------------------------------------------------
  // part2: the square search

  /** A searched square: corner `(x, y)` and offset `i`, so side `i + 1`. */
  datatype Candidate = Candidate(x: int, y: int, i: int)

  /** An answer: corner and side. */
  datatype Square = Square(x: int, y: int, size: int)

  /** The searched candidates: a corner in the grid and `i` up to
      `300 - max(x, y)`. */
  predicate Searched(c: Candidate) {
    InGrid(Point(c.x, c.y)) && 0 <= c.i <= N - Max(c.x, c.y)
  }

  /** A square of side `size >= 1` inside the grid. */
  predicate Fits(s: Square) {
    InGrid(Point(s.x, s.y)) && s.size >= 1 && InGrid(Point(s.x + s.size - 1, s.y + s.size - 1))
  }

  function SideOf(c: Candidate): Square {
    Square(c.x, c.y, c.i + 1)
  }

  /** A searched candidate's square lies in the grid, and every square in
      the grid is searched. */
  lemma SearchedFits(c: Candidate)
    ensures Searched(c) <==> Fits(SideOf(c))
  {
  }

  function SquareSum(grid: map<Point, int>, s: Square): int {
    Rect(grid, s.x, s.x + s.size, s.y, s.y + s.size)
  }

  /** The key of `max_by_key`: the square of side `i + 1` at `(x, y)` by
      inclusion and exclusion on the cache. */
  function Key(cache: map<Point, int>, c: Candidate): int
    requires Point(c.x + c.i, c.y + c.i) in cache
  {
    cache[Point(c.x + c.i, c.y + c.i)] - Get(cache, Point(c.x + c.i, c.y - 1))
      - Get(cache, Point(c.x - 1, c.y + c.i)) + Get(cache, Point(c.x - 1, c.y - 1))
  }

  /** The square of side `i + 1` at `(x, y)` from the four prefix sums at
      its corners. */
  lemma SquareByPrefixes(grid: map<Point, int>, x: int, y: int, i: int)
    requires x >= 1 && y >= 1 && i >= 0
    ensures SquareSum(grid, Square(x, y, i + 1))
      == Prefix(grid, x + i, y + i) - Prefix(grid, x + i, y - 1) - Prefix(grid, x - 1, y + i) + Prefix(grid, x - 1, y - 1)
  {
    RectByPrefixes(grid, x, x + i + 1, y, y + i + 1);
  }

  /** Over the summed-area table, the key of a searched candidate is the
      sum of its square. */
  lemma KeyIsSquare(grid: map<Point, int>, cache: map<Point, int>, c: Candidate)
    requires SummedArea(grid, cache) && Searched(c)
    ensures Point(c.x + c.i, c.y + c.i) in cache
    ensures Key(cache, c) == SquareSum(grid, SideOf(c))
  {
    GetSummedArea(grid, cache, Point(c.x + c.i, c.y + c.i));
    GetSummedArea(grid, cache, Point(c.x + c.i, c.y - 1));
    GetSummedArea(grid, cache, Point(c.x - 1, c.y + c.i));
    GetSummedArea(grid, cache, Point(c.x - 1, c.y - 1));
    SquareByPrefixes(grid, c.x, c.y, c.i);
  }

  /** The candidate after `c` in the order of the `iproduct!`/`flat_map`. */
  function Next(c: Candidate): Option<Candidate> {
    if c.i < N - Max(c.x, c.y) then Some(Candidate(c.x, c.y, c.i + 1))
    else if c.y < N then Some(Candidate(c.x, c.y + 1, 0))
    else if c.x < N then Some(Candidate(c.x + 1, 1, 0))
    else None
  }

  /** Lexicographic order of the candidates, the order of the search. */
  predicate Before(a: Candidate, b: Candidate) {
    a.x < b.x || (a.x == b.x && (a.y < b.y || (a.y == b.y && a.i < b.i)))
  }

  /** The candidates already searched when `rest` is next (all of them when
      `rest` is None). */
  predicate Done(d: Candidate, rest: Option<Candidate>) {
    rest.None? || Before(d, rest.value)
  }

  /** No searched candidate lies strictly between `c` and the next one. */
  lemma NextStep(c: Candidate, d: Candidate)
    requires Searched(c) && Searched(d)
    ensures Next(c).Some? ==> Searched(Next(c).value)
    ensures Done(d, Next(c)) <==> Before(d, c) || d == c
  {
  }

  /** The fold of `max_by_key`: `best` so far, `rest` the next candidate.
      A later candidate with an equal key replaces the best one, as Rust's
      `max_by_key` returns the last maximum. */
  function SearchFrom(cache: map<Point, int>, best: Candidate, rest: Option<Candidate>): Candidate
    requires Complete(cache) && Searched(best)
    requires rest.Some? ==> Searched(rest.value)
    decreases if rest.None? then 0 else 1, if rest.None? then 0 else N - rest.value.x,
      if rest.None? then 0 else N - rest.value.y, if rest.None? then 0 else N - rest.value.i
  {
    match rest
    case None => best
    case Some(c) =>
      assert InGrid(Point(c.x + c.i, c.y + c.i)) && InGrid(Point(best.x + best.i, best.y + best.i));
      NextStep(c, c);
      var best' := if Key(cache, c) >= Key(cache, best) then c else best;
      SearchFrom(cache, best', Next(c))
  }

  /** `c` has the greatest key so far, and every candidate searched after it
      has a smaller one. */
  ghost predicate LastBest(cache: map<Point, int>, c: Candidate, rest: Option<Candidate>)
    requires Complete(cache)
  {
    && Searched(c) && Done(c, rest)
    && (forall d :: Searched(d) && Done(d, rest) ==> Key(cache, d) <= Key(cache, c))
    && (forall d :: Searched(d) && Done(d, rest) && Before(c, d) ==> Key(cache, d) < Key(cache, c))
  }

  lemma {:induction false} SearchFromBest(cache: map<Point, int>, best: Candidate, rest: Option<Candidate>)
    requires Complete(cache) && Searched(best)
    requires rest.Some? ==> Searched(rest.value)
    requires LastBest(cache, best, rest)
    ensures LastBest(cache, SearchFrom(cache, best, rest), None)
    decreases if rest.None? then 0 else 1, if rest.None? then 0 else N - rest.value.x,
      if rest.None? then 0 else N - rest.value.y, if rest.None? then 0 else N - rest.value.i
  {
    if rest.Some? {
      var c := rest.value;
      NextStep(c, c);
      var best' := if Key(cache, c) >= Key(cache, best) then c else best;
      forall d | Searched(d) ensures Done(d, Next(c)) <==> Before(d, c) || d == c {
        NextStep(c, d);
      }
      assert LastBest(cache, best', Next(c));
      SearchFromBest(cache, best', Next(c));
    }
  }

  /** The candidate the search of `part2` ends on: the last one in search
      order with the greatest key. */
  function Best(cache: map<Point, int>): (c: Candidate)
    requires Complete(cache)
    ensures LastBest(cache, c, None)
  {
    var first := Candidate(1, 1, 0);
    forall d | Searched(d) ensures Done(d, Next(first)) <==> d == first {
      NextStep(first, d);
    }
    SearchFromBest(cache, first, Next(first));
    SearchFrom(cache, first, Next(first))
  }

  /** The search of `part2` over a finished cache: corner and side. */
  function Search(cache: map<Point, int>): Square
    requires Complete(cache)
  {
    SideOf(Best(cache))
  }

  /** `part2`: build the cache, then search it. */
  function Part2(grid: map<Point, int>): Square {
    CacheIsSummedArea(grid);
    Search(Cache(grid))
  }

  /** Over the summed-area table the search finds a square inside the
      grid whose sum no other square of the grid exceeds. */
  lemma SearchBest(grid: map<Point, int>, cache: map<Point, int>)
    requires SummedArea(grid, cache)
    ensures Fits(Search(cache))
    ensures forall s :: Fits(s) ==> SquareSum(grid, s) <= SquareSum(grid, Search(cache))
  {
    var best := Best(cache);
    KeyIsSquare(grid, cache, best);
    forall s | Fits(s) ensures SquareSum(grid, s) <= SquareSum(grid, Search(cache)) {
      SquareAtMostBest(grid, cache, s);
    }
  }

  /** One square of the grid against the square the search ends on. */
  lemma SquareAtMostBest(grid: map<Point, int>, cache: map<Point, int>, s: Square)
    requires SummedArea(grid, cache) && Fits(s)
    ensures SquareSum(grid, s) <= SquareSum(grid, SideOf(Best(cache)))
  {
    var best := Best(cache);
    var d := Candidate(s.x, s.y, s.size - 1);
    assert SideOf(d) == s && Searched(d);
    KeyIsSquare(grid, cache, best);
    KeyIsSquare(grid, cache, d);
  }

  /** `part2` answers with a square inside the grid whose sum no other
      square of the grid exceeds. */
  lemma Part2Best(grid: map<Point, int>)
    ensures Fits(Part2(grid))
    ensures forall s :: Fits(s) ==> SquareSum(grid, s) <= SquareSum(grid, Part2(grid))
  {
    CacheIsSummedArea(grid);
    SearchBest(grid, Cache(grid));
  }
}
