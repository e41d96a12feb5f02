/** Day 15, path search: what `Simulation::find_move` computes, stated layer by
    layer (the cells at search distance 0, 1, 2, ... from the unit), and the
    proof that this is the nearest reachable cell next to an enemy, in
    reading order among the nearest, with the first step the search recorded
    on the path that discovered it. */
module Day15Search {
  import opened Wrappers
  import opened Day15Units

  /** What one search sees: the wall map, the cells held by living units,
      the cells held by living enemies, and the searching unit's cell. */
  datatype Scene = Scene(grid: map<Point, bool>, blocked: set<Point>, targets: set<Point>, start: Point)

  /** The search may step onto open floor that no living unit holds. */
  predicate Free(s: Scene, p: Point) {
    Open(s.grid, p) && p !in s.blocked
  }

  /** The search stops when the popped cell has an open neighbour holding an
      enemy. */
  predicate NextToTarget(s: Scene, p: Point) {
    exists n :: n in Adjacent(p) && Open(s.grid, n) && n in s.targets
  }

  /** The scene a real search runs in: the map is walled, the unit stands on
      open floor and is itself a living unit, and every enemy is a living
      unit. */
  predicate WellFormed(s: Scene) {
    Walled(s.grid) && Open(s.grid, s.start) && s.start in s.blocked && s.targets <= s.blocked
  }

  /** Every cell the search can ever record. */
  function Cells(s: Scene): set<Point> {
    (set p | p in s.grid.Keys && Free(s, p)) + {s.start}
  }

  /** The free cells next to a cell of `from` that are not in `seen`. */
  function Expand(s: Scene, from: set<Point>, seen: set<Point>): set<Point> {
    set q, n | q in from && n in Adjacent(q) && Free(s, n) && n !in seen :: n
  }

  lemma ExpandMember(s: Scene, from: set<Point>, seen: set<Point>, n: Point)
    ensures n in Expand(s, from, seen) <==> Free(s, n) && n !in seen && exists q :: q in from && n in Adjacent(q)
  {
  }

  lemma ExpandUnion(s: Scene, a: set<Point>, b: set<Point>, seen: set<Point>)
    ensures Expand(s, a + b, seen) == Expand(s, a, seen) + Expand(s, b, seen)
  {
    forall n ensures n in Expand(s, a + b, seen) <==> n in Expand(s, a, seen) + Expand(s, b, seen) {
      ExpandMember(s, a + b, seen, n);
      ExpandMember(s, a, seen, n);
      ExpandMember(s, b, seen, n);
    }
  }

  /** Layer k of the search (`layer`) and all cells of layers 0..k (`seen`). */
  datatype Frontier = Frontier(layer: set<Point>, seen: set<Point>)

  function Layers(s: Scene, k: nat): Frontier {
    if k == 0 then Frontier({s.start}, {s.start})
    else
      var f := Layers(s, k - 1);
      var next := Expand(s, f.layer, f.seen);
      Frontier(next, f.seen + next)
  }

  function Layer(s: Scene, k: nat): set<Point> {
    Layers(s, k).layer
  }

  function Seen(s: Scene, k: nat): set<Point> {
    Layers(s, k).seen
  }

  lemma {:induction false} SeenBasics(s: Scene, k: nat)
    ensures Layer(s, k) <= Seen(s, k) <= Cells(s)
    ensures s.start in Seen(s, k) && s.start !in Layer(s, k + 1)
    ensures Layer(s, k + 1) == Expand(s, Layer(s, k), Seen(s, k))
    ensures Seen(s, k + 1) == Seen(s, k) + Layer(s, k + 1)
    ensures Layer(s, k + 1) !! Seen(s, k)
    ensures forall p :: p in Layer(s, k + 1) ==> Free(s, p)
  {
    if k > 0 {
      SeenBasics(s, k - 1);
    }
  }

  lemma {:induction false} SeenMonotone(s: Scene, j: nat, k: nat)
    requires j <= k
    ensures Seen(s, j) <= Seen(s, k)
    decreases k - j
  {
    if j < k {
      SeenMonotone(s, j + 1, k);
      SeenBasics(s, j);
    }
  }

  lemma {:induction false} SeenIsLayers(s: Scene, k: nat, p: Point)
    requires p in Seen(s, k)
    ensures exists j :: 0 <= j <= k && p in Layer(s, j)
  {
    if k > 0 && p !in Layer(s, k) {
      SeenBasics(s, k - 1);
      SeenIsLayers(s, k - 1, p);
      var j :| 0 <= j <= k - 1 && p in Layer(s, j);
      assert 0 <= j <= k && p in Layer(s, j);
    } else {
      assert p in Layer(s, k);
    }
  }

  /** Every cell lies in at most one layer. */
  lemma LayersDisjoint(s: Scene, i: nat, j: nat, p: Point)
    requires p in Layer(s, i) && p in Layer(s, j)
    ensures i == j
  {
    if i < j {
      NotInLaterLayer(s, i, j, p);
    } else if j < i {
      NotInLaterLayer(s, j, i, p);
    }
  }

  lemma NotInLaterLayer(s: Scene, i: nat, j: nat, p: Point)
    requires i < j && p in Layer(s, i)
    ensures p !in Layer(s, j)
  {
    SeenBasics(s, i);
    assert p in Seen(s, i);
    SeenMonotone(s, i, j - 1);
    assert p in Seen(s, j - 1);
    SeenBasics(s, j - 1);
  }

  /** Once a layer is empty, so is every later one: the search has run dry. */
  lemma {:induction false} LayersEmptyAfter(s: Scene, k: nat, j: nat)
    requires k <= j
    ensures Layer(s, k) == {} ==> Layer(s, j) == {}
    decreases j - k
  {
    if k < j && Layer(s, k) == {} {
      SeenBasics(s, k);
      LayersEmptyAfter(s, k + 1, j);
    }
  }

  /** Layer cells other than the start are free; the start is open. */
  lemma LayerCellOpen(s: Scene, k: nat, p: Point)
    requires WellFormed(s) && p in Layer(s, k)
    ensures Open(s.grid, p)
    ensures p == s.start <==> k == 0
  {
    if k > 0 {
      SeenBasics(s, k - 1);
    }
  }

  // ---------------------------------------------------------------------
  // Reading-order minimum of a finite set of points

  predicate IsMinPoint(m: Point, ps: set<Point>) {
    m in ps && forall q :: q in ps ==> q == m || Before(m, q)
  }

  lemma {:induction false} MinPointExists(ps: set<Point>)
    requires ps != {}
    ensures exists m :: IsMinPoint(m, ps)
    decreases |ps|
  {
    var x :| x in ps;
    if ps - {x} == {} {
      assert ps == {x};
      assert IsMinPoint(x, ps);
    } else {
      MinPointExists(ps - {x});
      var m :| IsMinPoint(m, ps - {x});
      if Before(x, m) {
        forall q | q in ps ensures q == x || Before(x, q) {
          if q != x {
            CompareIsTotalOrder(x, m, q);
          }
        }
        assert IsMinPoint(x, ps);
      } else {
        CompareIsTotalOrder(x, m, m);
        assert IsMinPoint(m, ps);
      }
    }
  }

  lemma MinPointUnique(m: Point, m': Point, ps: set<Point>)
    requires IsMinPoint(m, ps) && IsMinPoint(m', ps)
    ensures m == m'
  {
    if m != m' {
      CompareIsTotalOrder(m, m', m);
    }
  }

  ghost function MinPoint(ps: set<Point>): (m: Point)
    requires ps != {}
    ensures IsMinPoint(m, ps)
  {
    MinPointExists(ps);
    var m :| IsMinPoint(m, ps); m
  }

  // ---------------------------------------------------------------------
  // The first step recorded in `came_from`

  /** The cells of layer k next to `n`, a cell of layer k + 1. */
  function Predecessors(s: Scene, k: nat, n: Point): set<Point> {
    set q | q in Layer(s, k) && n in Adjacent(q)
  }

  /** The cell whose expansion discovers `n`: heap pops layer k in reading
      order, so it is the first of n's predecessors in that order. */
  ghost function Parent(s: Scene, k: nat, n: Point): (q: Point)
    requires n in Layer(s, k + 1)
    ensures q in Layer(s, k) && n in Adjacent(q)
    ensures IsMinPoint(q, Predecessors(s, k, n))
  {
    SeenBasics(s, k);
    ExpandMember(s, Layer(s, k), Seen(s, k), n);
    var q0 :| q0 in Layer(s, k) && n in Adjacent(q0);
    assert q0 in Predecessors(s, k, n);
    MinPoint(Predecessors(s, k, n))
  }

  /** The first step recorded for a cell of layer k >= 1: a cell of layer 1
      records itself, any later cell inherits the entry of its parent. */
  ghost function FirstStep(s: Scene, k: nat, n: Point): Point
    requires 1 <= k && n in Layer(s, k)
    decreases k
  {
    if k == 1 then n else FirstStep(s, k - 1, Parent(s, k - 1, n))
  }

  /** The cells of layer k next to an enemy. */
  function Hits(s: Scene, k: nat): set<Point> {
    set p | p in Layer(s, k) && NextToTarget(s, p)
  }

  lemma SeenGrows(s: Scene, k: nat)
    requires k >= 1 && Layer(s, k) != {}
    ensures |Cells(s) - Seen(s, k)| < |Cells(s) - Seen(s, k - 1)|
  {
    SeenBasics(s, k - 1);
    SeenBasics(s, k);
    var p :| p in Layer(s, k);
    assert Cells(s) - Seen(s, k) <= (Cells(s) - Seen(s, k - 1)) - {p};
  }

  /** The cell the search stops at, with its layer, once layers 0..k-1 hold
      no cell next to an enemy: the first cell in reading order of the first
      layer that holds one. */
  ghost function TargetFrom(s: Scene, k: nat): (r: Option<(nat, Point)>)
    requires k >= 1
    ensures r.Some? ==> r.value.0 >= k && IsMinPoint(r.value.1, Hits(s, r.value.0))
    decreases |Cells(s) - Seen(s, k - 1)|
  {
    if Hits(s, k) != {} then Some((k, MinPoint(Hits(s, k))))
    else if Layer(s, k) == {} then None
    else
      SeenGrows(s, k);
      TargetFrom(s, k + 1)
  }

  /** The reference answer of `find_move`: no move when the unit already
      stands next to an enemy (the source returns `came_from.remove` of the
      start, which is absent), otherwise the step recorded for the cell the
      search stops at. */
  ghost function Move(s: Scene): Option<Point> {
    if NextToTarget(s, s.start) then None
    else match TargetFrom(s, 1)
      case None => None
      case Some((k, t)) => Some(FirstStep(s, k, t))
  }

  // ---------------------------------------------------------------------
  // Walks: the meaning of the layers

  /** A walk from the unit: each cell after the first is free and next to the
      previous one.  Its length is |w| - 1 steps. */
  predicate IsWalk(s: Scene, w: seq<Point>) {
    |w| >= 1 && w[0] == s.start
    && (forall i :: 1 <= i < |w| ==> Free(s, w[i]))
    && (forall i :: 0 <= i < |w| - 1 ==> Step(w, i))
  }

  /** Cell i + 1 of the walk is next to cell i. */
  predicate Step(w: seq<Point>, i: nat)
    requires i < |w| - 1
  {
    w[i + 1] in Adjacent(w[i])
  }

  function Last(w: seq<Point>): Point
    requires |w| >= 1
  {
    w[|w| - 1]
  }

  ghost predicate ReachableIn(s: Scene, p: Point, d: nat) {
    exists w :: IsWalk(s, w) && |w| == d + 1 && Last(w) == p
  }

  /** A walk of d steps ends in a cell of layers 0..d. */
  lemma {:induction false} WalkEndsSeen(s: Scene, w: seq<Point>)
    requires IsWalk(s, w)
    ensures Last(w) in Seen(s, |w| - 1)
    decreases |w|
  {
    if |w| > 1 {
      var w' := w[..|w| - 1];
      assert forall i :: 0 <= i < |w'| - 1 ==> Step(w', i) by {
        forall i | 0 <= i < |w'| - 1 ensures Step(w', i) {
          assert Step(w, i);
        }
      }
      assert IsWalk(s, w');
      WalkEndsSeen(s, w');
      assert Step(w, |w| - 2);
      StepSeen(s, Last(w'), Last(w), |w| - 2);
    }
  }

  /** A free neighbour of a cell seen within d steps is seen within d + 1. */
  lemma StepSeen(s: Scene, p: Point, c: Point, d: nat)
    requires p in Seen(s, d) && c in Adjacent(p) && Free(s, c)
    ensures c in Seen(s, d + 1)
  {
    SeenIsLayers(s, d, p);
    var j :| 0 <= j <= d && p in Layer(s, j);
    LayerStepSeen(s, p, c, j);
    SeenMonotone(s, j + 1, d + 1);
  }

  /** A free neighbour of a cell of layer j is seen within j + 1 steps. */
  lemma LayerStepSeen(s: Scene, p: Point, c: Point, j: nat)
    requires p in Layer(s, j) && c in Adjacent(p) && Free(s, c)
    ensures c in Seen(s, j + 1)
  {
    SeenBasics(s, j);
    if c !in Seen(s, j) {
      ExpandMember(s, Layer(s, j), Seen(s, j), c);
      assert c in Layer(s, j + 1);
    }
  }

  /** The walk along recorded parents: k steps to a cell of layer k. */
  ghost function WalkTo(s: Scene, k: nat, p: Point): (w: seq<Point>)
    requires p in Layer(s, k)
    ensures IsWalk(s, w) && |w| == k + 1 && Last(w) == p
    decreases k
  {
    if k == 0 then [s.start]
    else
      SeenBasics(s, k - 1);
      var q := Parent(s, k - 1, p);
      var w' := WalkTo(s, k - 1, q);
      var w := w' + [p];
      assert forall i :: 0 <= i < |w'| ==> w[i] == w'[i];
      forall i | 0 <= i < |w| - 1 ensures Step(w, i) {
        if i < |w'| - 1 {
          assert Step(w', i);
        }
      }
      w
  }

  /** The first step of that walk is the step the search records. */
  lemma {:induction false} WalkToFirstStep(s: Scene, k: nat, p: Point)
    requires 1 <= k && p in Layer(s, k)
    ensures WalkTo(s, k, p)[1] == FirstStep(s, k, p)
    decreases k
  {
    if k > 1 {
      SeenBasics(s, k - 1);
      var q := Parent(s, k - 1, p);
      WalkToFirstStep(s, k - 1, q);
      assert WalkTo(s, k, p) == WalkTo(s, k - 1, q) + [p];
    }
  }

  lemma ReachedIsSeen(s: Scene, p: Point, d: nat)
    requires ReachableIn(s, p, d)
    ensures p in Seen(s, d)
  {
    var w :| IsWalk(s, w) && |w| == d + 1 && Last(w) == p;
    WalkEndsSeen(s, w);
  }

  lemma LayerIsReached(s: Scene, k: nat, p: Point)
    requires p in Layer(s, k)
    ensures ReachableIn(s, p, k)
  {
    var w := WalkTo(s, k, p);
  }

  /** A cell of layer k is not among the cells of layers 0..j for j < k. */
  lemma LayerNotSeenBefore(s: Scene, k: nat, j: nat, p: Point)
    requires p in Layer(s, k) && j < k
    ensures p !in Seen(s, j)
  {
    SeenBasics(s, k - 1);
    SeenMonotone(s, j, k - 1);
  }

  lemma LayerOf(s: Scene, k: nat, p: Point) returns (j: nat)
    requires p in Seen(s, k)
    ensures j <= k && p in Layer(s, j)
  {
    SeenIsLayers(s, k, p);
    j :| 0 <= j <= k && p in Layer(s, j);
  }

  /** Layer k holds exactly the cells whose shortest walk has k steps. */
  lemma LayerIsDistance(s: Scene, k: nat, p: Point)
    ensures p in Layer(s, k) <==> ReachableIn(s, p, k) && forall d: nat :: d < k ==> !ReachableIn(s, p, d)
  {
    if p in Layer(s, k) {
      LayerIsReached(s, k, p);
      forall d: nat | d < k ensures !ReachableIn(s, p, d) {
        LayerNotSeenBefore(s, k, d, p);
        if ReachableIn(s, p, d) {
          ReachedIsSeen(s, p, d);
        }
      }
    }
    if ReachableIn(s, p, k) && forall d: nat :: d < k ==> !ReachableIn(s, p, d) {
      ReachedIsSeen(s, p, k);
      var j := LayerOf(s, k, p);
      LayerIsReached(s, j, p);
    }
  }

  /** `t`, reached in d steps, is next to an enemy, and every cell next to an
      enemy reachable in e steps has e > d, or e == d and does not come
      before `t` in reading order. */
  ghost predicate Nearest(s: Scene, t: Point, d: nat) {
    NextToTarget(s, t) && ReachableIn(s, t, d)
    && forall c, e: nat :: NextToTarget(s, c) && ReachableIn(s, c, e) ==> d < e || (d == e && (c == t || Before(t, c)))
  }

  /** With no cell next to an enemy in layers 0..k-1, a cell next to an
      enemy reached in e steps lies in a layer between k and e. */
  lemma HitLayer(s: Scene, k: nat, c: Point, e: nat) returns (j: nat)
    requires k >= 1
    requires forall q :: q in Seen(s, k - 1) ==> !NextToTarget(s, q)
    requires NextToTarget(s, c) && ReachableIn(s, c, e)
    ensures k <= j <= e && c in Layer(s, j)
  {
    ReachedIsSeen(s, c, e);
    j := LayerOf(s, e, c);
    if j < k {
      SeenBasics(s, j);
      SeenMonotone(s, j, k - 1);
    }
  }

  /** The case where layer k holds a cell next to an enemy. */
  lemma NearestInLayer(s: Scene, k: nat, t: Point)
    requires k >= 1
    requires forall q :: q in Seen(s, k - 1) ==> !NextToTarget(s, q)
    requires IsMinPoint(t, Hits(s, k))
    ensures Nearest(s, t, k)
  {
    LayerIsReached(s, k, t);
    forall c, e: nat | NextToTarget(s, c) && ReachableIn(s, c, e)
      ensures k < e || (k == e && (c == t || Before(t, c)))
    {
      var j := HitLayer(s, k, c, e);
      if e == k {
        assert c in Hits(s, k);
      }
    }
  }

  /** The case where layer k is empty. */
  lemma NoneReachable(s: Scene, k: nat)
    requires k >= 1
    requires forall q :: q in Seen(s, k - 1) ==> !NextToTarget(s, q)
    requires Layer(s, k) == {}
    ensures forall c, e: nat :: ReachableIn(s, c, e) ==> !NextToTarget(s, c)
  {
    forall c, e: nat | ReachableIn(s, c, e) ensures !NextToTarget(s, c) {
      if NextToTarget(s, c) {
        var j := HitLayer(s, k, c, e);
        LayersEmptyAfter(s, k, j);
      }
    }
  }

  /** A layer without hits extends the region known to hold no cell next to
      an enemy. */
  lemma ClearThrough(s: Scene, k: nat)
    requires k >= 1
    requires forall q :: q in Seen(s, k - 1) ==> !NextToTarget(s, q)
    requires Hits(s, k) == {}
    ensures forall q :: q in Seen(s, k) ==> !NextToTarget(s, q)
  {
    SeenBasics(s, k - 1);
    forall q | q in Seen(s, k) ensures !NextToTarget(s, q) {
      if q in Layer(s, k) {
        assert q !in Hits(s, k);
      }
    }
  }

  /** The search visits layer after layer: it stops at the first layer that
      holds a cell next to an enemy, or finds none once a layer is empty. */
  lemma TargetFromSpec(s: Scene)
    requires !NextToTarget(s, s.start)
    ensures TargetFrom(s, 1).None? ==> forall c, e: nat :: ReachableIn(s, c, e) ==> !NextToTarget(s, c)
    ensures TargetFrom(s, 1).Some? ==> Nearest(s, TargetFrom(s, 1).value.1, TargetFrom(s, 1).value.0)
  {
    var k := 1;
    while Hits(s, k) == {} && Layer(s, k) != {}
      invariant k >= 1
      invariant forall q :: q in Seen(s, k - 1) ==> !NextToTarget(s, q)
      invariant TargetFrom(s, k) == TargetFrom(s, 1)
      decreases |Cells(s) - Seen(s, k - 1)|
    {
      SeenGrows(s, k);
      ClearThrough(s, k);
      k := k + 1;
    }
    if Hits(s, k) != {} {
      NearestInLayer(s, k, MinPoint(Hits(s, k)));
    } else {
      NoneReachable(s, k);
    }
  }

  /** The meaning of `find_move`'s answer.  There is no move iff the unit is
      already next to an enemy or no walk reaches a cell next to an enemy.
      Otherwise the move is a free neighbour of the unit, and it is the first
      step of a shortest walk to the cell next to an enemy that is nearest by
      (walk length, reading order). */
  lemma MoveIsTowardsNearest(s: Scene)
    ensures Move(s).None? <==> NextToTarget(s, s.start) || forall c, e: nat :: ReachableIn(s, c, e) ==> !NextToTarget(s, c)
    ensures Move(s).Some? ==> Free(s, Move(s).value) && Move(s).value in Adjacent(s.start)
    ensures Move(s).Some? ==>
              exists t, d :: d >= 1 && Nearest(s, t, d) &&
                exists w :: IsWalk(s, w) && |w| == d + 1 && Last(w) == t && w[1] == Move(s).value
  {
    if !NextToTarget(s, s.start) {
      TargetFromSpec(s);
      if TargetFrom(s, 1).Some? {
        var (d, t) := TargetFrom(s, 1).value;
        assert Nearest(s, t, d);
        var w := WalkTo(s, d, t);
        WalkToFirstStep(s, d, t);
        assert Step(w, 0);
      }
    }
  }
}
