/** Day 6: Chronal Coordinates.  Every cell of the bounding box of the input
    coordinates belongs to the input coordinate nearest to it in Manhattan
    distance, unless two are equally near; part 1 is the largest area whose
    owner owns no cell on the edge of the box, part 2 the number of cells of
    the box whose distances to all coordinates sum to less than 10000. */
module Day06 {
  import opened Wrappers
  import opened Text
  import opened Sorting
  import opened Maxima

  datatype Point = Point(x: int, y: int)

  /** Both coordinates fit the `isize` the source stores them in. */
  predicate IsIsize(p: Point) {
    ISIZE_MIN <= p.x <= ISIZE_MAX && ISIZE_MIN <= p.y <= ISIZE_MAX
  }

  function Abs(n: int): nat {
    if n < 0 then -n else n
  }

  /** `Point::distance`: the Manhattan distance. */
  function Distance(p: Point, q: Point): int {
    Abs(p.x - q.x) + Abs(p.y - q.y)
  }

  lemma DistanceIsMetric(p: Point, q: Point, r: Point)
    ensures Distance(p, q) >= 0
    ensures Distance(p, q) == Distance(q, p)
    ensures Distance(p, q) == 0 <==> p == q
    ensures Distance(p, r) <= Distance(p, q) + Distance(q, r)
  {
  }

  // ---------------------------------------------------------------------
  // parsing

  /** `Point::from_str`: the first two comma-separated pieces, trimmed, as
      `isize`s; anything after a second comma is ignored.  A line without a
      comma has no second piece (`unwrap` panics) and gives None, as does a
      piece that does not parse. */
  function ParsePoint(line: string): (r: Option<Point>)
    ensures r.Some? ==> IsIsize(r.value)
  {
    var parts := Split(line, ',');
    if |parts| < 2 then None
    else
      match (ParseSigned(Trim(parts[0]), ISIZE_MIN, ISIZE_MAX), ParseSigned(Trim(parts[1]), ISIZE_MIN, ISIZE_MAX))
      case (Some(x), Some(y)) => Some(Point(x, y))
      case _ => None
  }

  /** The puzzle's line format, `x, y`. */
  function FormatPoint(p: Point): string {
    IntToString(p.x) + ", " + IntToString(p.y)
  }

  lemma ParseFormat(p: Point)
    requires IsIsize(p)
    ensures ParsePoint(FormatPoint(p)) == Some(p)
  {
    var a, b := FormatPieces(p);
    ParsePieces(FormatPoint(p), a, b, p);
  }

  /** The two comma-separated pieces of a point's line, which trim to its
      coordinates. */
  lemma FormatPieces(p: Point) returns (a: string, b: string)
    ensures Split(FormatPoint(p), ',') == [a, b]
    ensures Trim(a) == IntToString(p.x) && Trim(b) == IntToString(p.y)
  {
    a := IntToString(p.x);
    b := " " + IntToString(p.y);
    IntToStringIsWord(p.x);
    IntToStringIsWord(p.y);
    assert ',' !in b by {
      forall k | 0 <= k < |b| ensures b[k] != ',' {
        if k > 0 {
          assert b[k] in IntToString(p.y);
        }
      }
    }
    SplitOfJoin([a, b], ',');
    assert Join([a, b], ',') == FormatPoint(p) by {
      assert Join([a, b][1..], ',') == b;
    }
    TrimWord(a);
    TrimWord(IntToString(p.y));
  }

  /** A line whose two comma-separated pieces trim to a point's coordinates
      parses to that point. */
  lemma ParsePieces(line: string, a: string, b: string, p: Point)
    requires IsIsize(p)
    requires Split(line, ',') == [a, b]
    requires Trim(a) == IntToString(p.x) && Trim(b) == IntToString(p.y)
    ensures ParsePoint(line) == Some(p)
  {
    ParseSignedOfIntToString(p.x, ISIZE_MIN, ISIZE_MAX);
    ParseSignedOfIntToString(p.y, ISIZE_MIN, ISIZE_MAX);
  }

  /** `main`'s `collect::<Result<Vec<Point>, _>>()`. */
  function ParseInput(lines: seq<string>): (r: Option<seq<Point>>)
    ensures r.Some? <==> forall i :: 0 <= i < |lines| ==> ParsePoint(lines[i]).Some?
    ensures r.Some? ==> |r.value| == |lines| && forall i :: 0 <= i < |lines| ==> ParsePoint(lines[i]) == Some(r.value[i])
  {
    var parsed := seq(|lines|, i requires 0 <= i < |lines| => ParsePoint(lines[i]));
    assert forall i :: 0 <= i < |lines| ==> parsed[i] == ParsePoint(lines[i]);
    Collect(parsed)
  }

  // ---------------------------------------------------------------------
  // the bounding box

  /** `(startx, starty, endx, endy)`. */
  datatype Box = Box(sx: int, sy: int, ex: int, ey: int)

  /** The fold's seed `(isize::MAX, isize::MAX, isize::MIN, isize::MIN)`. */
  const Seed := Box(ISIZE_MAX, ISIZE_MAX, ISIZE_MIN, ISIZE_MIN)

  /** The fold of part 1 and part 2 over the input. */
  function Bounds(ps: seq<Point>): Box {
    if ps == [] then Seed
    else
      var b := Bounds(ps[..|ps| - 1]);
      var p := ps[|ps| - 1];
      Box(Min(p.x, b.sx), Min(p.y, b.sy), Max(p.x, b.ex), Max(p.y, b.ey))
  }

  predicate InBox(c: Point, b: Box) {
    b.sx <= c.x <= b.ex && b.sy <= c.y <= b.ey
  }

  lemma {:induction false} BoundsContain(ps: seq<Point>)
    ensures ps == [] ==> Bounds(ps) == Seed
    ensures forall i :: 0 <= i < |ps| ==> InBox(ps[i], Bounds(ps))
  {
    if ps != [] {
      var init := ps[..|ps| - 1];
      BoundsContain(init);
      assert forall i :: 0 <= i < |init| ==> init[i] == ps[i];
    }
  }

  /** Each side of the box of a non-empty input is a coordinate of some
      input point, so the box is the least and greatest coordinates. */
  lemma {:induction false} BoundsAttained(ps: seq<Point>)
    requires |ps| > 0 && forall i :: 0 <= i < |ps| ==> IsIsize(ps[i])
    ensures exists i :: 0 <= i < |ps| && ps[i].x == Bounds(ps).sx
    ensures exists i :: 0 <= i < |ps| && ps[i].y == Bounds(ps).sy
    ensures exists i :: 0 <= i < |ps| && ps[i].x == Bounds(ps).ex
    ensures exists i :: 0 <= i < |ps| && ps[i].y == Bounds(ps).ey
  {
    var n := |ps| - 1;
    var init := ps[..n];
    var b := Bounds(init);
    if n == 0 {
      assert Bounds(ps).sx == ps[0].x;
      assert Bounds(ps).sy == ps[0].y;
      assert Bounds(ps).ex == ps[0].x;
      assert Bounds(ps).ey == ps[0].y;
    } else {
      BoundsAttained(init);
      var i0 :| 0 <= i0 < n && init[i0].x == b.sx;
      var i1 :| 0 <= i1 < n && init[i1].y == b.sy;
      var i2 :| 0 <= i2 < n && init[i2].x == b.ex;
      var i3 :| 0 <= i3 < n && init[i3].y == b.ey;
      assert init[i0] == ps[i0] && init[i1] == ps[i1] && init[i2] == ps[i2] && init[i3] == ps[i3];
      var p := ps[n];
      assert ps[if p.x <= b.sx then n else i0].x == Bounds(ps).sx;
      assert ps[if p.y <= b.sy then n else i1].y == Bounds(ps).sy;
      assert ps[if p.x >= b.ex then n else i2].x == Bounds(ps).ex;
      assert ps[if p.y >= b.ey then n else i3].y == Bounds(ps).ey;
    }
  }

  // ---------------------------------------------------------------------
  // the grid `iproduct!(startx..=endx, starty..=endy)`

  function Column(x: int, y: int, ey: int): seq<Point>
    decreases ey - y
  {
    if y > ey then [] else [Point(x, y)] + Column(x, y + 1, ey)
  }

  function Columns(x: int, b: Box): seq<Point>
    decreases b.ex - x
  {
    if x > b.ex then [] else Column(x, b.sy, b.ey) + Columns(x + 1, b)
  }

  /** The cells of the box, `x` major and `y` minor. */
  function Grid(b: Box): seq<Point> {
    Columns(b.sx, b)
  }

  /** `a` comes before `b` in the order `iproduct!` visits them. */
  predicate Before(a: Point, b: Point) {
    a.x < b.x || (a.x == b.x && a.y < b.y)
  }

  predicate Increasing(cells: seq<Point>) {
    forall i, j :: 0 <= i < j < |cells| ==> Before(cells[i], cells[j])
  }

  lemma {:induction false} ColumnMeans(x: int, y: int, ey: int)
    ensures forall c :: c in Column(x, y, ey) <==> c.x == x && y <= c.y <= ey
    ensures Increasing(Column(x, y, ey))
    decreases ey - y
  {
    if y <= ey {
      ColumnMeans(x, y + 1, ey);
    }
  }

  lemma {:induction false} ColumnsMeans(x: int, b: Box)
    ensures forall c :: c in Columns(x, b) <==> x <= c.x <= b.ex && b.sy <= c.y <= b.ey
    ensures Increasing(Columns(x, b))
    decreases b.ex - x
  {
    if x <= b.ex {
      ColumnMeans(x, b.sy, b.ey);
      ColumnsMeans(x + 1, b);
      var col := Column(x, b.sy, b.ey);
      var rest := Columns(x + 1, b);
      forall i, j | 0 <= i < j < |col + rest| ensures Before((col + rest)[i], (col + rest)[j]) {
        if j >= |col| && i < |col| {
          assert col[i] in col && (col + rest)[j] == rest[j - |col|] && rest[j - |col|] in rest;
        } else if i >= |col| {
          assert (col + rest)[i] == rest[i - |col|];
        }
      }
    }
  }

  /** The grid holds every cell of the box once, in `iproduct!` order. */
  lemma GridMeans(b: Box)
    ensures forall c :: c in Grid(b) <==> InBox(c, b)
    ensures Increasing(Grid(b))
  {
    ColumnsMeans(b.sx, b);
  }

  // ---------------------------------------------------------------------
  // part 1

  function DistKey(e: (Point, int)): seq<int> {
    [e.1]
  }

  /** Each input point with its distance from `c`, in input order. */
  function DistancesTo(input: seq<Point>, c: Point): (r: seq<(Point, int)>)
    ensures |r| == |input|
    ensures forall i :: 0 <= i < |input| ==> r[i] == (input[i], Distance(c, input[i]))
  {
    seq(|input|, i requires 0 <= i < |input| => (input[i], Distance(c, input[i])))
  }

  /** The `map` of part 1 over one cell: the input point at the head of the
      list stably sorted by distance, unless the second one is as near.
      With fewer than two input points `closest[1]` panics. */
  function Owner(input: seq<Point>, c: Point): Option<Point>
    requires |input| >= 2
  {
    var closest := SortBy(DistancesTo(input, c), DistKey);
    if closest[0].1 == closest[1].1 then None else Some(closest[0].0)
  }

  /** The input point at `i` is strictly nearer to `c` than every other. */
  predicate Nearest(input: seq<Point>, c: Point, i: int) {
    0 <= i < |input| && forall j :: 0 <= j < |input| && j != i ==> Distance(c, input[i]) < Distance(c, input[j])
  }

  /** A cell is owned by `p` exactly when `p` sits at a place of the input
      strictly nearer to the cell than every other place. */
  lemma OwnerMeans(input: seq<Point>, c: Point, p: Point)
    requires |input| >= 2
    ensures Owner(input, c) == Some(p) <==> exists i :: Nearest(input, c, i) && input[i] == p
  {
    var xs := DistancesTo(input, c);
    var i0 := FirstLeast(xs, DistKey);
    SortByHead(xs, DistKey);
    SortByTie(xs, DistKey);
    assert forall j :: 0 <= j < |xs| ==> Distance(c, input[i0]) <= Distance(c, input[j]) by {
      forall j | 0 <= j < |xs| ensures Distance(c, input[i0]) <= Distance(c, input[j]) {
        assert !Later(DistKey, xs[i0], xs[j]);
      }
    }
    if Owner(input, c) == Some(p) {
      assert Nearest(input, c, i0) by {
        forall j | 0 <= j < |input| && j != i0 ensures Distance(c, input[i0]) < Distance(c, input[j]) {
          assert DistKey(xs[j]) != DistKey(xs[i0]);
        }
      }
    }
    if exists i :: Nearest(input, c, i) && input[i] == p {
      var i :| Nearest(input, c, i) && input[i] == p;
      assert i == i0;
      forall j | 0 <= j < |xs| && j != i0 ensures DistKey(xs[j]) != DistKey(xs[i0]) {
        assert Distance(c, input[i0]) < Distance(c, input[j]);
      }
    }
  }

  /** The owner of each cell, in grid order (the values of the source's
      `grid` map, whose keys are distinct). */
  function Owners(input: seq<Point>, cells: seq<Point>): (r: seq<Option<Point>>)
    requires |input| >= 2
  {
    if cells == [] then [] else Owners(input, cells[..|cells| - 1]) + [Owner(input, cells[|cells| - 1])]
  }

  predicate OnEdge(c: Point, b: Box) {
    c.x == b.sx || c.x == b.ex || c.y == b.sy || c.y == b.ey
  }

  /** `edge_points`: the owners of the cells on the edge of the box. */
  function EdgeOwners(input: seq<Point>, cells: seq<Point>, b: Box): set<Point>
    requires |input| >= 2
  {
    set c | c in cells && OnEdge(c, b) && Owner(input, c).Some? :: Owner(input, c).value
  }

  /** `filter_map` and `filter`: the owners that own no edge cell. */
  function Candidates(owners: seq<Option<Point>>, edge: set<Point>): seq<Point> {
    if owners == [] then []
    else
      var rest := Candidates(owners[..|owners| - 1], edge);
      match owners[|owners| - 1]
      case Some(p) => if p in edge then rest else rest + [p]
      case None => rest
  }

  /** The `entry(point).or_insert(0) += 1` fold. */
  function Tally(points: seq<Point>): map<Point, nat> {
    if points == [] then map[]
    else
      var m := Tally(points[..|points| - 1]);
      var p := points[|points| - 1];
      m[p := (if p in m then m[p] else 0) + 1]
  }

  function AreaOf(areas: map<Point, nat>, p: Point): nat {
    if p in areas then areas[p] else 0
  }

  /** The owners away from the edge, one entry per cell they own. */
  function Cands(input: seq<Point>): seq<Point>
    requires |input| >= 2
  {
    var b := Bounds(input);
    var cells := Grid(b);
    Candidates(Owners(input, cells), EdgeOwners(input, cells, b))
  }

  /** `max_by_key(count)` over the tally of `cands`, keeping the count. */
  function Best(cands: seq<Point>): nat
    requires cands != []
  {
    var areas := Tally(cands);
    AreaOf(areas, cands[LastMax(cands, p => AreaOf(areas, p))])
  }

  lemma BestIsMax(cands: seq<Point>)
    requires cands != []
    ensures exists j :: 0 <= j < |cands| && Best(cands) == AreaOf(Tally(cands), cands[j])
    ensures forall j :: 0 <= j < |cands| ==> AreaOf(Tally(cands), cands[j]) <= Best(cands)
  {
    var areas := Tally(cands);
    var k := LastMax(cands, p => AreaOf(areas, p));
    assert Best(cands) == AreaOf(areas, cands[k]);
  }

  /** part 1, or None where the source panics: fewer than two input points,
      or no owner away from the edge (`max_by_key` of nothing). */
  function Part1(input: seq<Point>): Option<nat> {
    if |input| < 2 then None
    else if Cands(input) == [] then None
    else Some(Best(Cands(input)))
  }

  // the meaning of part 1

  /** The cells among `cells` owned by `p`. */
  function OwnedIn(input: seq<Point>, cells: seq<Point>, p: Point): set<Point>
    requires |input| >= 2
  {
    set c | c in cells && Owner(input, c) == Some(p)
  }

  /** The cells of the box owned by `p`. */
  function Region(input: seq<Point>, p: Point): set<Point>
    requires |input| >= 2
  {
    OwnedIn(input, Grid(Bounds(input)), p)
  }

  /** `p` owns a cell on the edge of the box, so its area is infinite. */
  predicate Infinite(input: seq<Point>, p: Point)
    requires |input| >= 2
  {
    exists c :: c in Grid(Bounds(input)) && OnEdge(c, Bounds(input)) && Owner(input, c) == Some(p)
  }

  lemma {:induction false} TallyCounts(points: seq<Point>)
    ensures forall p :: p in Tally(points) <==> p in points
    ensures forall p :: AreaOf(Tally(points), p) == multiset(points)[p]
  {
    if points != [] {
      var init := points[..|points| - 1];
      TallyCounts(init);
      assert points == init + [points[|points| - 1]];
    }
  }

  lemma {:induction false} CandidatesCount(owners: seq<Option<Point>>, edge: set<Point>)
    ensures forall p :: multiset(Candidates(owners, edge))[p] == if p in edge then 0 else multiset(owners)[Some(p)]
  {
    if owners != [] {
      var init := owners[..|owners| - 1];
      CandidatesCount(init, edge);
      assert owners == init + [owners[|owners| - 1]];
    }
  }

  /** Over distinct cells, the count of an owner among the owners is the
      number of cells it owns. */
  lemma {:induction false} OwnersCount(input: seq<Point>, cells: seq<Point>, p: Point)
    requires |input| >= 2 && Increasing(cells)
    ensures multiset(Owners(input, cells))[Some(p)] == |OwnedIn(input, cells, p)|
  {
    if cells != [] {
      var init := cells[..|cells| - 1];
      var last := cells[|cells| - 1];
      IncreasingInit(cells);
      OwnersCount(input, init, p);
      OwnedSnoc(input, init, last, p);
      OwnersSnoc(input, init, last, p);
    }
  }

  lemma OwnedSnoc(input: seq<Point>, init: seq<Point>, last: Point, p: Point)
    requires |input| >= 2 && last !in init
    ensures |OwnedIn(input, init + [last], p)|
         == |OwnedIn(input, init, p)| + if Owner(input, last) == Some(p) then 1 else 0
  {
    var s := OwnedIn(input, init, p);
    var add := if Owner(input, last) == Some(p) then {last} else {};
    OwnedSnocMembers(input, init, last, p);
    assert OwnedIn(input, init + [last], p) == s + add;
    assert last !in s;
  }

  lemma OwnedSnocMembers(input: seq<Point>, init: seq<Point>, last: Point, p: Point)
    requires |input| >= 2
    ensures forall c :: c in OwnedIn(input, init + [last], p)
                    <==> c in OwnedIn(input, init, p) || (c == last && Owner(input, last) == Some(p))
  {
    forall c ensures c in OwnedIn(input, init + [last], p)
                 <==> c in OwnedIn(input, init, p) || (c == last && Owner(input, last) == Some(p)) {
      assert c in init + [last] <==> c in init || c == last;
    }
  }

  /** The last cell of an increasing list is not among the others. */
  lemma IncreasingInit(cells: seq<Point>)
    requires Increasing(cells) && cells != []
    ensures Increasing(cells[..|cells| - 1])
    ensures cells[|cells| - 1] !in cells[..|cells| - 1]
    ensures cells == cells[..|cells| - 1] + [cells[|cells| - 1]]
  {
    var init := cells[..|cells| - 1];
    forall i | 0 <= i < |init| ensures init[i] != cells[|cells| - 1] {
      assert Before(cells[i], cells[|cells| - 1]);
    }
  }

  lemma OwnersSnoc(input: seq<Point>, init: seq<Point>, last: Point, p: Point)
    requires |input| >= 2
    ensures multiset(Owners(input, init + [last]))[Some(p)]
         == multiset(Owners(input, init))[Some(p)] + if Owner(input, last) == Some(p) then 1 else 0
  {
    var cells := init + [last];
    assert cells[..|cells| - 1] == init;
  }

  /** The area the tally gives each candidate is its region's size. */
  lemma AreasAreRegions(input: seq<Point>, p: Point)
    requires |input| >= 2
    ensures p in Cands(input) <==> !Infinite(input, p) && |Region(input, p)| > 0
    ensures AreaOf(Tally(Cands(input)), p) == if Infinite(input, p) then 0 else |Region(input, p)|
  {
    var b := Bounds(input);
    var cells := Grid(b);
    var edge := EdgeOwners(input, cells, b);
    GridMeans(b);
    OwnersCount(input, cells, p);
    CandidatesCount(Owners(input, cells), edge);
    TallyCounts(Candidates(Owners(input, cells), edge));
    assert p in edge <==> Infinite(input, p);
  }

  /** Part 1 is the size of the largest region whose owner owns no edge
      cell, and fails exactly when there is no such region. */
  lemma Part1Means(input: seq<Point>)
    requires |input| >= 2
    ensures Part1(input).None? <==> forall p :: Infinite(input, p) || |Region(input, p)| == 0
    ensures Part1(input).Some? ==>
              (exists p :: !Infinite(input, p) && Part1(input).value == |Region(input, p)| > 0)
              && forall q :: !Infinite(input, q) ==> |Region(input, q)| <= Part1(input).value
  {
    if Cands(input) == [] {
      NoCandidates(input);
    } else {
      assert Part1(input) == Some(Best(Cands(input)));
      BestIsLargest(input);
    }
  }

  lemma NoCandidates(input: seq<Point>)
    requires |input| >= 2 && Cands(input) == []
    ensures forall p :: Infinite(input, p) || |Region(input, p)| == 0
  {
    forall p ensures Infinite(input, p) || |Region(input, p)| == 0 {
      AreasAreRegions(input, p);
    }
  }

  lemma BestIsLargest(input: seq<Point>)
    requires |input| >= 2 && Cands(input) != []
    ensures exists p :: !Infinite(input, p) && Best(Cands(input)) == |Region(input, p)| > 0
    ensures forall q :: !Infinite(input, q) ==> |Region(input, q)| <= Best(Cands(input))
  {
    var cands := Cands(input);
    BestIsMax(cands);
    var j :| 0 <= j < |cands| && Best(cands) == AreaOf(Tally(cands), cands[j]);
    AreasAreRegions(input, cands[j]);
    forall q | !Infinite(input, q) ensures |Region(input, q)| <= Best(cands) {
      RegionAtMostBest(input, q);
    }
  }

  lemma RegionAtMostBest(input: seq<Point>, q: Point)
    requires |input| >= 2 && Cands(input) != [] && !Infinite(input, q)
    ensures |Region(input, q)| <= Best(Cands(input))
  {
    var cands := Cands(input);
    AreasAreRegions(input, q);
    if |Region(input, q)| > 0 {
      BestIsMax(cands);
      var i :| 0 <= i < |cands| && cands[i] == q;
    }
  }

  // ---------------------------------------------------------------------
  // part 2

  const Limit := 10000

  /** The sum of the distances from `c` to every input point. */
  function TotalDistance(input: seq<Point>, c: Point): int {
    if input == [] then 0 else TotalDistance(input[..|input| - 1], c) + Distance(c, input[|input| - 1])
  }

  /** The cells among `cells` whose total distance is below 10000. */
  function NearIn(input: seq<Point>, cells: seq<Point>): set<Point> {
    set c | c in cells && TotalDistance(input, c) < Limit
  }

  function CountNear(input: seq<Point>, cells: seq<Point>): nat {
    if cells == [] then 0
    else CountNear(input, cells[..|cells| - 1]) + (if TotalDistance(input, cells[|cells| - 1]) < Limit then 1 else 0)
  }

  /** part 2: the cells of the grid whose total distance is below 10000. */
  function Part2(input: seq<Point>): nat {
    CountNear(input, Grid(Bounds(input)))
  }

  lemma {:induction false} CountNearIsSize(input: seq<Point>, cells: seq<Point>)
    requires Increasing(cells)
    ensures CountNear(input, cells) == |NearIn(input, cells)|
  {
    if cells != [] {
      var init := cells[..|cells| - 1];
      var last := cells[|cells| - 1];
      IncreasingInit(cells);
      CountNearIsSize(input, init);
      NearInSnoc(input, init, last);
    }
  }

  /** One more cell, not among the others, adds itself if it is near. */
  lemma NearInSnoc(input: seq<Point>, init: seq<Point>, last: Point)
    requires last !in init
    ensures last !in NearIn(input, init)
    ensures NearIn(input, init + [last])
            == NearIn(input, init) + if TotalDistance(input, last) < Limit then {last} else {}
  {
    var cells := init + [last];
    forall c ensures c in cells <==> c in init || c == last {
    }
  }

  lemma {:induction false} TotalDistanceBounds(input: seq<Point>, c: Point)
    ensures TotalDistance(input, c) >= 0
    ensures forall i :: 0 <= i < |input| ==> Distance(c, input[i]) <= TotalDistance(input, c)
  {
    if input != [] {
      var init := input[..|input| - 1];
      TotalDistanceBounds(init, c);
      assert forall i :: 0 <= i < |init| ==> init[i] == input[i];
    }
  }

  /** Part 2 is the number of distinct cells of the box whose total
      distance is below 10000. */
  lemma Part2Means(input: seq<Point>)
    ensures Part2(input) == |NearIn(input, Grid(Bounds(input)))|
    ensures forall c :: c in Grid(Bounds(input)) <==> InBox(c, Bounds(input))
  {
    GridMeans(Bounds(input));
    CountNearIsSize(input, Grid(Bounds(input)));
  }
}
