/** Day 15, the state of `find_move`'s breadth-first search between two pops
    of its heap, and the lemmas that carry that state from one pop to the
    next.  The search is at layer k and has popped the cells `popped` of
    that layer, which are the first ones in reading order. */
module Day15Bfs {
  import opened Wrappers
  import opened Day15Units
  import opened Day15Search

  /** The order of `BinaryHeap<Reverse<(distance, Point)>>`: the smallest
      distance first, ties broken by reading order. */
  predicate EntryBefore(a: (nat, Point), b: (nat, Point)) {
    a.0 < b.0 || (a.0 == b.0 && Before(a.1, b.1))
  }

  /** `e` is the entry `pop` returns. */
  predicate IsMinEntry(e: (nat, Point), heap: set<(nat, Point)>) {
    e in heap && forall f :: f in heap ==> f == e || EntryBefore(e, f)
  }

  /** The heap entries while layer k is being popped: the rest of layer k,
      and the cells of layer k + 1 found so far. */
  function Pending(s: Scene, k: nat, popped: set<Point>): set<(nat, Point)> {
    (set q | q in Layer(s, k) && q !in popped :: (k, q))
    + (set n | n in Expand(s, popped, Seen(s, k)) :: (k + 1, n))
  }

  /** The keys of `came_from`: every discovered cell except the start. */
  function Recorded(s: Scene, k: nat, popped: set<Point>): set<Point> {
    (Seen(s, k) - {s.start}) + Expand(s, popped, Seen(s, k))
  }

  /** The popped cells are the first cells of layer k in reading order. */
  predicate PoppedPrefix(s: Scene, k: nat, popped: set<Point>) {
    && Layer(s, k) != {}
    && popped <= Layer(s, k)
    && (forall p, q :: p in popped && q in Layer(s, k) && q !in popped ==> Before(p, q))
  }

  /** Every entry of `came_from` is the first step towards its cell, whose
      layer `depth` records. */
  ghost predicate EntriesAreFirstSteps(s: Scene, cameFrom: map<Point, Point>, depth: map<Point, nat>) {
    && depth.Keys == cameFrom.Keys
    && forall n :: n in cameFrom ==>
         1 <= depth[n] && n in Layer(s, depth[n]) && cameFrom[n] == FirstStep(s, depth[n], n)
  }

  /** No cell the search has finished with is next to an enemy. */
  predicate Cleared(s: Scene, k: nat, popped: set<Point>) {
    forall q :: q in Seen(s, k) && (q in popped || q !in Layer(s, k)) ==> !NextToTarget(s, q)
  }

  /** Everything of the search state except that an exhausted layer has
      been left for the next one. */
  ghost predicate SearchCore(s: Scene, heap: set<(nat, Point)>, cameFrom: map<Point, Point>,
                             depth: map<Point, nat>, k: nat, popped: set<Point>)
  {
    && PoppedPrefix(s, k, popped)
    && heap == Pending(s, k, popped)
    && cameFrom.Keys == Recorded(s, k, popped)
    && EntriesAreFirstSteps(s, cameFrom, depth)
    && Cleared(s, k, popped)
  }

  /** The state of the search before each pop. */
  ghost predicate SearchState(s: Scene, heap: set<(nat, Point)>, cameFrom: map<Point, Point>,
                              depth: map<Point, nat>, k: nat, popped: set<Point>)
  {
    SearchCore(s, heap, cameFrom, depth, k, popped)
    && (Layer(s, k) <= popped ==> Layer(s, k + 1) == {})
  }

  /** The heap holds only the start, and nothing is recorded. */
  lemma InitialState(s: Scene)
    ensures SearchState(s, {(0, s.start)}, map[], map[], 0, {})
  {
    assert Expand(s, {}, Seen(s, 0)) == {};
    assert Layer(s, 0) == {s.start};
    assert Pending(s, 0, {}) == {(0, s.start)};
  }

  /** Every recorded cell is free floor: not a living unit. */
  lemma RecordedAreFree(s: Scene, heap: set<(nat, Point)>, cameFrom: map<Point, Point>,
                        depth: map<Point, nat>, k: nat, popped: set<Point>)
    requires SearchCore(s, heap, cameFrom, depth, k, popped)
    ensures forall n :: n in cameFrom ==> Free(s, n) && n in Cells(s)
    ensures s.start !in cameFrom
  {
    forall n | n in cameFrom ensures Free(s, n) && n in Cells(s) {
      var j := depth[n];
      SeenBasics(s, j - 1);
    }
    if s.start in cameFrom {
      var j := depth[s.start];
      SeenBasics(s, j - 1);
    }
  }

  /** The heap is empty only once the current layer is used up. */
  lemma HeapHoldsLayer(s: Scene, heap: set<(nat, Point)>, cameFrom: map<Point, Point>,
                       depth: map<Point, nat>, k: nat, popped: set<Point>)
    requires SearchState(s, heap, cameFrom, depth, k, popped)
    ensures heap != {} <==> !(Layer(s, k) <= popped)
  {
    if Layer(s, k) <= popped {
      SeenBasics(s, k);
      assert popped == Layer(s, k);
      assert Expand(s, popped, Seen(s, k)) == {};
      assert heap == {};
    } else {
      var q :| q in Layer(s, k) && q !in popped;
      assert (k, q) in heap;
    }
  }

  /** What `pop` returns: the first cell, in reading order, of the part of
      layer k not popped yet. */
  lemma PopIsLayerMin(s: Scene, k: nat, popped: set<Point>) returns (m: Point)
    requires !(Layer(s, k) <= popped)
    ensures IsMinPoint(m, Layer(s, k) - popped)
    ensures IsMinEntry((k, m), Pending(s, k, popped))
    ensures forall e :: IsMinEntry(e, Pending(s, k, popped)) ==> e == (k, m)
  {
    var rest := Layer(s, k) - popped;
    var heap := Pending(s, k, popped);
    var x :| x in Layer(s, k) && x !in popped;
    assert x in rest;
    m := MinPoint(rest);
    forall f | f in heap ensures f == (k, m) || EntryBefore((k, m), f) {
      if f.0 == k {
        assert f.1 in rest;
      }
    }
    forall e | IsMinEntry(e, heap) ensures e == (k, m) {
      if e != (k, m) {
        assert EntryBefore(e, (k, m)) && EntryBefore((k, m), e);
        CompareIsTotalOrder(e.1, m, e.1);
      }
    }
  }

  /** While the layers before k hold no cell next to an enemy and the
      search has got as far as layer k - 1, it will stop where it would when
      started at layer k. */
  lemma TargetFromSkip(s: Scene, k: nat)
    requires k >= 1 && Layer(s, k - 1) != {}
    requires forall q :: q in Seen(s, k - 1) ==> !NextToTarget(s, q)
    ensures TargetFrom(s, 1) == TargetFrom(s, k)
  {
    var j := 1;
    while j < k
      invariant 1 <= j <= k
      invariant TargetFrom(s, 1) == TargetFrom(s, j)
    {
      TargetFromStep(s, j, k);
      j := j + 1;
    }
  }

  /** One step of `TargetFromSkip`: a non-empty layer without hits sends
      the search on to the next layer. */
  lemma TargetFromStep(s: Scene, j: nat, k: nat)
    requires 1 <= j < k && Layer(s, k - 1) != {}
    requires forall q :: q in Seen(s, k - 1) ==> !NextToTarget(s, q)
    ensures TargetFrom(s, j) == TargetFrom(s, j + 1)
  {
    NoHitsBefore(s, j, k - 1);
    LayersEmptyAfter(s, j, k - 1);
  }

  /** A layer inside a region clear of cells next to an enemy has no hits. */
  lemma NoHitsBefore(s: Scene, j: nat, k: nat)
    requires j <= k
    requires forall q :: q in Seen(s, k) ==> !NextToTarget(s, q)
    ensures Hits(s, j) == {}
  {
    SeenMonotone(s, j, k);
    SeenBasics(s, j);
    forall p | p in Layer(s, j) ensures !NextToTarget(s, p) {
      assert p in Seen(s, k);
    }
  }

  /** Once every layer up to k - 1 and the popped part of layer k are
      clear of cells next to an enemy, all of Seen(k - 1) is. */
  lemma ClearBefore(s: Scene, heap: set<(nat, Point)>, cameFrom: map<Point, Point>,
                    depth: map<Point, nat>, k: nat, popped: set<Point>)
    requires SearchCore(s, heap, cameFrom, depth, k, popped) && k >= 1
    ensures forall q :: q in Seen(s, k - 1) ==> !NextToTarget(s, q)
    ensures Layer(s, k - 1) != {}
  {
    SeenBasics(s, k - 1);
    LayersEmptyAfter(s, k - 1, k);
  }

  /** The popped cell `m` is next to an enemy: the answer is the entry
      `came_from` holds for it (none for the start), and that is the
      reference move. */
  lemma FoundAt(s: Scene, heap: set<(nat, Point)>, cameFrom: map<Point, Point>,
                depth: map<Point, nat>, k: nat, popped: set<Point>, m: Point)
    requires WellFormed(s)
    requires SearchCore(s, heap, cameFrom, depth, k, popped)
    requires IsMinPoint(m, Layer(s, k) - popped) && NextToTarget(s, m)
    ensures Move(s) == if m in cameFrom then Some(cameFrom[m]) else None
  {
    RecordedAreFree(s, heap, cameFrom, depth, k, popped);
    LayerCellOpen(s, k, m);
    if k >= 1 {
      FoundLater(s, heap, cameFrom, depth, k, popped, m);
    }
  }

  /** `FoundAt` past the start: the cell was reached from the unit. */
  lemma FoundLater(s: Scene, heap: set<(nat, Point)>, cameFrom: map<Point, Point>,
                   depth: map<Point, nat>, k: nat, popped: set<Point>, m: Point)
    requires WellFormed(s) && k >= 1
    requires SearchCore(s, heap, cameFrom, depth, k, popped)
    requires IsMinPoint(m, Layer(s, k) - popped) && NextToTarget(s, m)
    ensures m in cameFrom && Move(s) == Some(cameFrom[m])
  {
    ClearBefore(s, heap, cameFrom, depth, k, popped);
    SeenBasics(s, k);
    TargetFromSkip(s, k);
    FirstHitOfLayer(s, heap, cameFrom, depth, k, popped, m);
    RecordedLabel(s, heap, cameFrom, depth, k, popped, m);
  }

  /** A cell of layer k >= 1 carries its first step in `came_from`. */
  lemma RecordedLabel(s: Scene, heap: set<(nat, Point)>, cameFrom: map<Point, Point>,
                      depth: map<Point, nat>, k: nat, popped: set<Point>, m: Point)
    requires WellFormed(s) && SearchCore(s, heap, cameFrom, depth, k, popped)
    requires k >= 1 && m in Layer(s, k)
    ensures m in cameFrom && cameFrom[m] == FirstStep(s, k, m)
  {
    SeenBasics(s, k);
    LayerCellOpen(s, k, m);
    var d := depth[m];
    LayersDisjoint(s, k, d, m);
  }

  /** A popped cell next to an enemy is the first such cell of its layer. */
  lemma FirstHitOfLayer(s: Scene, heap: set<(nat, Point)>, cameFrom: map<Point, Point>,
                        depth: map<Point, nat>, k: nat, popped: set<Point>, m: Point)
    requires SearchCore(s, heap, cameFrom, depth, k, popped) && k >= 1
    requires IsMinPoint(m, Layer(s, k) - popped) && NextToTarget(s, m)
    ensures TargetFrom(s, k) == Some((k, m))
  {
    SeenBasics(s, k);
    assert IsMinPoint(m, Hits(s, k)) by {
      forall q | q in Hits(s, k) ensures q == m || Before(m, q) {
        assert q !in popped;
      }
    }
    MinPointUnique(m, MinPoint(Hits(s, k)), Hits(s, k));
  }

  // ---------------------------------------------------------------------
  // Expanding the popped cell

  /** The neighbours of the popped cell that get an entry: those collected
      (open, not yet recorded) that no living unit holds. */
  function Discovered(blocked: set<Point>, neighbors: seq<Point>): set<Point> {
    set n | n in neighbors && n !in blocked
  }

  /** The entries written for them: `came_from.get(&next).unwrap_or(&neighbor)`. */
  function Labels(cameFrom: map<Point, Point>, next: Point, found: set<Point>): map<Point, Point> {
    map n | n in found :: if next in cameFrom then cameFrom[next] else n
  }

  function Depths(found: set<Point>, k: nat): map<Point, nat> {
    map n | n in found :: k + 1
  }

  /** The entries pushed for them, one layer further out. */
  function Pushed(found: set<Point>, k: nat): set<(nat, Point)> {
    set n | n in found :: (k + 1, n)
  }

  /** The newly found cells are the free neighbours of `m` in layer k + 1
      that no earlier cell of layer k found. */
  lemma FoundIsExpansion(s: Scene, keys: set<Point>, k: nat, popped: set<Point>, m: Point, found: set<Point>)
    requires WellFormed(s) && keys == Recorded(s, k, popped)
    requires forall x :: x in found <==> x in Adjacent(m) && x !in keys && Free(s, x)
    ensures Expand(s, popped + {m}, Seen(s, k)) == Expand(s, popped, Seen(s, k)) + found
    ensures found !! Expand(s, popped, Seen(s, k)) && found !! Seen(s, k)
    ensures found !! keys
  {
    ExpandUnion(s, popped, {m}, Seen(s, k));
    forall x ensures x in Expand(s, {m}, Seen(s, k)) <==> x in Adjacent(m) && Free(s, x) && x !in Seen(s, k) {
      ExpandMember(s, {m}, Seen(s, k), x);
    }
    assert Expand(s, {m}, Seen(s, k)) - Expand(s, popped, Seen(s, k)) == found;
  }

  /** `came_from` after the inserts: its keys grow by the found cells. */
  lemma RecordedAfter(s: Scene, cameFrom: map<Point, Point>, k: nat, popped: set<Point>, m: Point, found: set<Point>)
    requires cameFrom.Keys == Recorded(s, k, popped)
    requires Expand(s, popped + {m}, Seen(s, k)) == Expand(s, popped, Seen(s, k)) + found
    ensures (cameFrom + Labels(cameFrom, m, found)).Keys == Recorded(s, k, popped + {m})
  {
    var labels := Labels(cameFrom, m, found);
    assert labels.Keys == found;
    assert (cameFrom + labels).Keys == cameFrom.Keys + labels.Keys;
  }

  /** The heap after the pop and the pushes. */
  lemma PendingAfter(s: Scene, k: nat, popped: set<Point>, m: Point, found: set<Point>)
    requires m in Layer(s, k) && m !in popped
    requires Expand(s, popped + {m}, Seen(s, k)) == Expand(s, popped, Seen(s, k)) + found
    ensures Pending(s, k, popped + {m}) == Pending(s, k, popped) - {(k, m)} + Pushed(found, k)
  {
  }

  /** The entry written for a found cell is its first step: a neighbour of
      the start records itself, any other cell inherits the entry of `m`,
      which is its parent because the cells of layer k before `m` did not
      find it. */
  lemma LabelIsFirstStep(s: Scene, k: nat, k1: nat, popped: set<Point>, m: Point, entry: Point, n: Point)
    requires WellFormed(s) && k1 == k + 1
    requires IsMinPoint(m, Layer(s, k) - popped) && popped <= Layer(s, k)
    requires k == 0 ==> entry == n
    requires k >= 1 ==> entry == FirstStep(s, k, m)
    requires n in Adjacent(m) && Free(s, n) && n !in Seen(s, k) && n !in Expand(s, popped, Seen(s, k))
    ensures n in Layer(s, k1) && entry == FirstStep(s, k1, n)
  {
    SeenBasics(s, k);
    ExpandMember(s, Layer(s, k), Seen(s, k), n);
    if k >= 1 {
      assert IsMinPoint(m, Predecessors(s, k, n)) by {
        forall q | q in Predecessors(s, k, n) ensures q == m || Before(m, q) {
          if q in popped {
            ExpandMember(s, popped, Seen(s, k), n);
          }
        }
      }
      MinPointUnique(m, Parent(s, k, n), Predecessors(s, k, n));
    }
  }

  /** Adding entries that are first steps keeps every entry a first step. */
  lemma EntriesAfter(s: Scene, cameFrom: map<Point, Point>, depth: map<Point, nat>, k1: nat,
                     labels: map<Point, Point>, depths: map<Point, nat>)
    requires EntriesAreFirstSteps(s, cameFrom, depth) && 1 <= k1
    requires labels.Keys == depths.Keys
    requires forall n :: n in labels ==>
               depths[n] == k1 && n in Layer(s, k1) && labels[n] == FirstStep(s, k1, n)
    ensures EntriesAreFirstSteps(s, cameFrom + labels, depth + depths)
  {
    var cf, ds := cameFrom + labels, depth + depths;
    forall n | n in cf ensures 1 <= ds[n] && n in Layer(s, ds[n]) && cf[n] == FirstStep(s, ds[n], n) {
      if n in labels {
        assert ds[n] == k1 && cf[n] == labels[n];
      } else {
        var d := depth[n];
        assert ds[n] == d && cf[n] == cameFrom[n];
      }
    }
  }

  /** Popping `m` keeps the popped cells a reading-order prefix and the
      finished cells clear. */
  lemma PoppedAfter(s: Scene, k: nat, popped: set<Point>, m: Point)
    requires PoppedPrefix(s, k, popped) && Cleared(s, k, popped)
    requires IsMinPoint(m, Layer(s, k) - popped) && !NextToTarget(s, m)
    ensures PoppedPrefix(s, k, popped + {m}) && Cleared(s, k, popped + {m})
  {
  }

  /** Popping `m` and recording its found neighbours keeps the search
      state, with `m` added to the popped part of layer k. */
  lemma AfterExpansion(s: Scene, heap: set<(nat, Point)>, cameFrom: map<Point, Point>,
                       depth: map<Point, nat>, k: nat, popped: set<Point>, m: Point, found: set<Point>)
    requires WellFormed(s) && SearchCore(s, heap, cameFrom, depth, k, popped)
    requires IsMinPoint(m, Layer(s, k) - popped) && !NextToTarget(s, m)
    requires forall x :: x in found <==> x in Adjacent(m) && x !in cameFrom && Free(s, x)
    ensures SearchCore(s, heap - {(k, m)} + Pushed(found, k), cameFrom + Labels(cameFrom, m, found),
                       depth + Depths(found, k), k, popped + {m})
    ensures found <= Cells(s) && found !! cameFrom.Keys
  {
    var keys := cameFrom.Keys;
    FoundIsExpansion(s, keys, k, popped, m, found);
    PendingAfter(s, k, popped, m, found);
    RecordedAfter(s, cameFrom, k, popped, m, found);
    RecordedAreFree(s, heap, cameFrom, depth, k, popped);
    LayerCellOpen(s, k, m);
    if k >= 1 {
      RecordedLabel(s, heap, cameFrom, depth, k, popped, m);
    }
    var k1 := k + 1;
    var labels := Labels(cameFrom, m, found);
    forall n | n in found ensures n in Layer(s, k1) && labels[n] == FirstStep(s, k1, n) {
      LabelIsFirstStep(s, k, k1, popped, m, labels[n], n);
    }
    var depths := Depths(found, k);
    assert labels.Keys == found == depths.Keys;
    EntriesAfter(s, cameFrom, depth, k1, labels, depths);
    PoppedAfter(s, k, popped, m);
    SeenBasics(s, k);
  }

  /** When layer k is used up and layer k + 1 is not empty, the heap holds
      exactly layer k + 1: the search has moved on to it. */
  lemma Advance(s: Scene, heap: set<(nat, Point)>, cameFrom: map<Point, Point>,
                depth: map<Point, nat>, k: nat, k1: nat, popped: set<Point>)
    requires SearchCore(s, heap, cameFrom, depth, k, popped) && k1 == k + 1
    requires Layer(s, k) <= popped && Layer(s, k1) != {}
    ensures SearchState(s, heap, cameFrom, depth, k1, {})
  {
    assert popped == Layer(s, k);
    SeenBasics(s, k);
    PendingAdvance(s, k, k1, popped);
    RecordedAdvance(s, k, k1, popped);
    ClearedAdvance(s, k, k1, popped);
  }

  /** With layer k used up, the pending entries are layer k + 1. */
  lemma PendingAdvance(s: Scene, k: nat, k1: nat, popped: set<Point>)
    requires popped == Layer(s, k) && k1 == k + 1
    ensures Pending(s, k1, {}) == Pending(s, k, popped)
  {
    SeenBasics(s, k);
    assert Expand(s, {}, Seen(s, k1)) == {};
    forall e ensures e in Pending(s, k1, {}) <==> e in Pending(s, k, popped) {
      if e in Pending(s, k, popped) {
        assert e.1 in Layer(s, k1);
      }
    }
  }

  /** With layer k used up, the recorded cells are all of Seen(k + 1) but
      the start. */
  lemma RecordedAdvance(s: Scene, k: nat, k1: nat, popped: set<Point>)
    requires popped == Layer(s, k) && k1 == k + 1
    ensures Recorded(s, k1, {}) == Recorded(s, k, popped)
  {
    SeenBasics(s, k);
    assert Expand(s, {}, Seen(s, k1)) == {};
  }

  /** With layer k used up, every cell before layer k + 1 is finished. */
  lemma ClearedAdvance(s: Scene, k: nat, k1: nat, popped: set<Point>)
    requires popped == Layer(s, k) && Cleared(s, k, popped) && k1 == k + 1
    ensures Cleared(s, k1, {})
  {
    SeenBasics(s, k);
    forall q | q in Seen(s, k1) && q !in Layer(s, k1) ensures !NextToTarget(s, q) {
      assert q in Seen(s, k);
    }
  }

  /** An empty heap means no cell next to an enemy is reachable, or the
      unit already stands next to one: there is no move. */
  lemma Exhausted(s: Scene, heap: set<(nat, Point)>, cameFrom: map<Point, Point>,
                  depth: map<Point, nat>, k: nat, popped: set<Point>)
    requires SearchState(s, heap, cameFrom, depth, k, popped) && heap == {}
    ensures Move(s) == None
  {
    HeapHoldsLayer(s, heap, cameFrom, depth, k, popped);
    var k1 := k + 1;
    SeenBasics(s, k);
    assert forall q :: q in Seen(s, k) ==> !NextToTarget(s, q);
    TargetFromSkip(s, k1);
    assert s.start in Seen(s, k);
    assert Hits(s, k1) == {};
  }

  /** Each pass of the search loop records new cells, or else records
      nothing and shrinks the heap. */
  lemma SearchProgress(s: Scene, cameFrom: map<Point, Point>, heap: set<(nat, Point)>,
                       e: (nat, Point), next: Point, k: nat, found: set<Point>)
    requires cameFrom.Keys <= Cells(s) && found <= Cells(s) && found !! cameFrom.Keys && e in heap
    ensures var keys := (cameFrom + Labels(cameFrom, next, found)).Keys;
            if found != {} then |Cells(s) - keys| < |Cells(s) - cameFrom.Keys|
            else keys == cameFrom.Keys && |heap - {e} + Pushed(found, k)| < |heap|
  {
    var keys := (cameFrom + Labels(cameFrom, next, found)).Keys;
    assert Labels(cameFrom, next, found).Keys == found;
    assert keys == cameFrom.Keys + found;
    if found != {} {
      Shrinks(Cells(s), cameFrom.Keys, found);
    } else {
      assert Pushed(found, k) == {};
    }
  }

  lemma Shrinks(all: set<Point>, keys: set<Point>, found: set<Point>)
    requires found != {} && found <= all && found !! keys
    ensures |all - (keys + found)| < |all - keys|
  {
    var n :| n in found;
    SubsetSmaller(all - (keys + found), (all - keys) - {n});
  }

  lemma {:induction false} SubsetSmaller<T>(a: set<T>, b: set<T>)
    requires a <= b
    ensures |a| <= |b|
  {
    if a != {} {
      var x :| x in a;
      SubsetSmaller(a - {x}, b - {x});
    }
  }

  // ---------------------------------------------------------------------
  // One pass of the search loop, as the loop of `find_move` uses it

  /** The entry `pop` returns is the first unpopped cell of the current
      layer, an open cell whose neighbours are all on the map. */
  lemma Pop(s: Scene, heap: set<(nat, Point)>, cameFrom: map<Point, Point>,
            depth: map<Point, nat>, k: nat, popped: set<Point>) returns (m: Point)
    requires WellFormed(s) && SearchState(s, heap, cameFrom, depth, k, popped) && heap != {}
    ensures IsMinEntry((k, m), heap) && forall e :: IsMinEntry(e, heap) ==> e == (k, m)
    ensures Open(s.grid, m) && forall q :: q in Adjacent(m) ==> q in s.grid
    ensures cameFrom.Keys <= Cells(s)
  {
    HeapHoldsLayer(s, heap, cameFrom, depth, k, popped);
    m := PopIsLayerMin(s, k, popped);
    LayerCellOpen(s, k, m);
    RecordedAreFree(s, heap, cameFrom, depth, k, popped);
  }

  /** A popped cell next to an enemy ends the search with the move the
      unit would make. */
  lemma Hit(s: Scene, heap: set<(nat, Point)>, cameFrom: map<Point, Point>,
            depth: map<Point, nat>, k: nat, popped: set<Point>, m: Point, n: Point)
    requires WellFormed(s) && SearchState(s, heap, cameFrom, depth, k, popped)
    requires heap != {} && IsMinEntry((k, m), heap)
    requires n in Adjacent(m) && Open(s.grid, n) && n in s.targets
    ensures Move(s) == if m in cameFrom then Some(cameFrom[m]) else None
  {
    HeapHoldsLayer(s, heap, cameFrom, depth, k, popped);
    var m' := PopIsLayerMin(s, k, popped);
    FoundAt(s, heap, cameFrom, depth, k, popped, m');
  }

  /** A popped cell with no enemy beside it records and pushes its free
      unrecorded neighbours; the state still holds, at the next layer once
      this one is used up, and the loop measure drops. */
  lemma Miss(s: Scene, heap: set<(nat, Point)>, cameFrom: map<Point, Point>,
             depth: map<Point, nat>, k: nat, popped: set<Point>, m: Point, found: set<Point>)
    returns (k': nat, popped': set<Point>)
    requires WellFormed(s) && SearchState(s, heap, cameFrom, depth, k, popped)
    requires heap != {} && IsMinEntry((k, m), heap) && !NextToTarget(s, m)
    requires forall x :: x in found <==> x in Adjacent(m) && x !in cameFrom && Free(s, x)
    ensures SearchState(s, heap - {(k, m)} + Pushed(found, k), cameFrom + Labels(cameFrom, m, found),
                        depth + Depths(found, k), k', popped')
    ensures var keys := (cameFrom + Labels(cameFrom, m, found)).Keys;
            |Cells(s) - keys| < |Cells(s) - cameFrom.Keys|
            || (keys == cameFrom.Keys && |heap - {(k, m)} + Pushed(found, k)| < |heap|)
  {
    HeapHoldsLayer(s, heap, cameFrom, depth, k, popped);
    var m' := PopIsLayerMin(s, k, popped);
    RecordedAreFree(s, heap, cameFrom, depth, k, popped);
    AfterExpansion(s, heap, cameFrom, depth, k, popped, m, found);
    SearchProgress(s, cameFrom, heap, (k, m), m, k, found);
    k', popped' := MaybeAdvance(s, heap - {(k, m)} + Pushed(found, k), cameFrom + Labels(cameFrom, m, found),
                                depth + Depths(found, k), k, popped + {m});
  }

  /** Moves on to the next layer once the current one is used up and the
      next one is not empty. */
  lemma MaybeAdvance(s: Scene, heap: set<(nat, Point)>, cameFrom: map<Point, Point>,
                     depth: map<Point, nat>, k: nat, popped: set<Point>) returns (k': nat, popped': set<Point>)
    requires SearchCore(s, heap, cameFrom, depth, k, popped)
    ensures SearchState(s, heap, cameFrom, depth, k', popped')
  {
    var k1 := k + 1;
    if Layer(s, k) <= popped && Layer(s, k1) != {} {
      Advance(s, heap, cameFrom, depth, k, k1, popped);
      k', popped' := k1, {};
    } else {
      k', popped' := k, popped;
    }
  }
}
