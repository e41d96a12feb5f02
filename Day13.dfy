/** Day 13: mine carts on a track map.  Each tick the carts move one cell in
    reading order of their positions; curves turn them and intersections
    turn them by a cycle of left, straight, right.  `part1` reports the
    first collision; `part2` flags colliding carts, drops them at the end of
    the tick, and reports the last cart left. */
module Day13 {
  import opened Wrappers
  import opened Sorting

  datatype Track = Straight | CurveLeft | CurveRight | Intersection

  datatype Direction = Up | Down | Left | Right

  datatype Turn = TurnLeft | TurnRight | TurnStraight

  /** Coordinates are `usize`: column `x`, row `y`, growing down. */
  datatype Point = Point(x: nat, y: nat)

  datatype Cart = Cart(position: Point, direction: Direction, nextTurn: Turn, crashed: bool)

  /** `Direction::turn`. */
  function Turned(d: Direction, t: Turn): Direction {
    match (d, t)
    case (Up, TurnLeft) => Left
    case (Up, TurnRight) => Right
    case (Down, TurnLeft) => Right
    case (Down, TurnRight) => Left
    case (Left, TurnLeft) => Down
    case (Left, TurnRight) => Up
    case (Right, TurnLeft) => Up
    case (Right, TurnRight) => Down
    case (_, TurnStraight) => d
  }

  /** Going straight keeps the direction, a left turn and a right turn undo
      each other, and four left turns come back to the start. */
  lemma TurnedLaws(d: Direction)
    ensures Turned(d, TurnStraight) == d
    ensures Turned(Turned(d, TurnLeft), TurnRight) == d
    ensures Turned(Turned(d, TurnRight), TurnLeft) == d
    ensures Turned(Turned(Turned(Turned(d, TurnLeft), TurnLeft), TurnLeft), TurnLeft) == d
    ensures Turned(d, TurnLeft) != d && Turned(d, TurnRight) != d
  {
  }

  /** `Turn::next`. */
  function NextTurn(t: Turn): Turn {
    match t
    case TurnLeft => TurnStraight
    case TurnStraight => TurnRight
    case TurnRight => TurnLeft
  }

  /** The turns cycle left, straight, right with period exactly 3. */
  lemma NextTurnCycles(t: Turn)
    ensures NextTurn(t) != t && NextTurn(NextTurn(t)) != t
    ensures NextTurn(NextTurn(NextTurn(t))) == t
    ensures NextTurn(TurnLeft) == TurnStraight && NextTurn(TurnStraight) == TurnRight
  {
  }

  /** `Point::next`: one cell in the cart's direction; None where the
      `usize` subtraction would go below 0 (the program panics there). */
  function NextPoint(p: Point, cart: Cart): Option<Point> {
    match cart.direction
    case Up => if p.y == 0 then None else Some(Point(p.x, p.y - 1))
    case Down => Some(Point(p.x, p.y + 1))
    case Left => if p.x == 0 then None else Some(Point(p.x - 1, p.y))
    case Right => Some(Point(p.x + 1, p.y))
  }

  function Abs(n: int): nat {
    if n < 0 then -n else n
  }

  /** `Point::next` changes exactly one coordinate by exactly 1: the row
      for a vertical direction, the column for a horizontal one, and down and
      right increase it.  It fails only off the top or left edge. */
  lemma NextPointMovesOne(p: Point, cart: Cart)
    ensures NextPoint(p, cart).None? <==> (cart.direction == Up && p.y == 0) || (cart.direction == Left && p.x == 0)
    ensures NextPoint(p, cart).Some? ==>
              var q := NextPoint(p, cart).value;
              Abs(q.x - p.x) + Abs(q.y - p.y) == 1
              && (cart.direction in {Up, Down} <==> q.x == p.x)
              && (cart.direction == Down ==> q.y > p.y) && (cart.direction == Right ==> q.x > p.x)
              && q != p
  {
  }

  /** The direction after the curves `\` (`CurveLeft`) and `/` (`CurveRight`). */
  function Curved(d: Direction, track: Track): Direction
    requires track in {CurveLeft, CurveRight}
  {
    if track == CurveLeft then
      match d
      case Up => Left
      case Down => Right
      case Right => Down
      case Left => Up
    else
      match d
      case Up => Right
      case Down => Left
      case Right => Up
      case Left => Down
  }

  /** `Cart::next`: the cart as it leaves `track`. */
  function CartNext(cart: Cart, track: Track): Cart {
    match track
    case Straight => cart
    case CurveLeft => cart.(direction := Curved(cart.direction, track))
    case CurveRight => cart.(direction := Curved(cart.direction, track))
    case Intersection => cart.(direction := Turned(cart.direction, cart.nextTurn), nextTurn := NextTurn(cart.nextTurn))
  }

  predicate Vertical(d: Direction) {
    d == Up || d == Down
  }

  /** On a straight track the cart is unchanged.  On a curve only the
      direction changes, it switches between vertical and horizontal, and
      taking the same curve twice restores it.  At an intersection the
      direction turns by `next_turn`, which advances once. */
  lemma CartNextEffects(cart: Cart, track: Track)
    ensures track == Straight ==> CartNext(cart, track) == cart
    ensures track in {CurveLeft, CurveRight} ==>
              var r := CartNext(cart, track);
              r == cart.(direction := r.direction)
              && (Vertical(r.direction) <==> !Vertical(cart.direction))
              && CartNext(r, track).direction == cart.direction
    ensures track == Intersection ==>
              var r := CartNext(cart, track);
              r.position == cart.position && r.crashed == cart.crashed
              && r.direction == Turned(cart.direction, cart.nextTurn) && r.nextTurn == NextTurn(cart.nextTurn)
  {
  }

  /** Three intersections in a row turn a cart left, then not, then right,
      so it comes out in its original direction with its turn state
      restored. */
  lemma ThreeIntersections(cart: Cart)
    requires cart.nextTurn == TurnLeft
    ensures var r := CartNext(CartNext(CartNext(cart, Intersection), Intersection), Intersection);
            r == cart
  {
    TurnedLaws(cart.direction);
  }

  /** A character of the map: blank, or a piece of track with perhaps a
      cart on it. */
  datatype Cell = Blank | Piece(track: Track, cart: Option<Direction>)

  /** One character of the map; a cart stands on straight track.  Any
      character but blank, track and cart panics (`unimplemented!`): None. */
  function ParseCell(c: char): (r: Option<Cell>)
    ensures r.Some? && r.value.Piece? && r.value.cart.Some? ==> r.value.track == Straight
    ensures r.None? <==> c !in " |-/\\+^>v<"
  {
    match c
    case ' ' => Some(Blank)
    case '|' => Some(Piece(Straight, None))
    case '-' => Some(Piece(Straight, None))
    case '/' => Some(Piece(CurveRight, None))
    case '\\' => Some(Piece(CurveLeft, None))
    case '+' => Some(Piece(Intersection, None))
    case '^' => Some(Piece(Straight, Some(Up)))
    case '>' => Some(Piece(Straight, Some(Right)))
    case 'v' => Some(Piece(Straight, Some(Down)))
    case '<' => Some(Piece(Straight, Some(Left)))
    case _ => None
  }

  /** A cart as the map creates it: first turn left, not crashed. */
  function NewCart(p: Point, d: Direction): Cart {
    Cart(p, d, TurnLeft, false)
  }

  /** What the parse promises of its carts: each is fresh and on straight
      track, and no two share a cell. */
  predicate FreshOnTrack(grid: map<Point, Track>, carts: seq<Cart>) {
    Apart(carts)
    && forall i :: 0 <= i < |carts| ==>
         carts[i].position in grid && grid[carts[i].position] == Straight
         && carts[i] == NewCart(carts[i].position, carts[i].direction)
  }

  /** Row `y` from column `x` on: its track and its carts, left to right. */
  function ParseRow(line: string, x: nat, y: nat): (r: Option<(map<Point, Track>, seq<Cart>)>)
    requires x <= |line|
    ensures r.Some? ==> FreshOnTrack(r.value.0, r.value.1)
    ensures r.Some? ==> forall p :: p in r.value.0 ==> p.y == y && x <= p.x < |line|
    decreases |line| - x
  {
    if x == |line| then Some((map[], []))
    else
      match ParseCell(line[x])
      case None => None
      case Some(cell) =>
        match ParseRow(line, x + 1, y)
        case None => None
        case Some((grid, carts)) =>
          var p := Point(x, y);
          if cell.Blank? then Some((grid, carts))
          else
            var grid' := grid[p := cell.track];
            if cell.cart.None? then
              assert FreshOnTrack(grid', carts) by {
                forall i | 0 <= i < |carts| ensures carts[i].position != p && carts[i].position in grid {}
              }
              Some((grid', carts))
            else
              var carts' := [NewCart(p, cell.cart.value)] + carts;
              assert FreshOnTrack(grid', carts') by {
                forall i | 0 <= i < |carts| ensures carts[i].position != p && carts[i].position in grid {}
                assert forall i :: 1 <= i < |carts'| ==> carts'[i] == carts[i - 1];
              }
              Some((grid', carts'))
  }

  /** The map from row `y` on: track and carts in reading order (the fold
      in `main`). */
  function ParseLines(lines: seq<string>, y: nat): (r: Option<(map<Point, Track>, seq<Cart>)>)
    ensures r.Some? ==> FreshOnTrack(r.value.0, r.value.1)
    ensures r.Some? ==> forall p :: p in r.value.0 ==> y <= p.y < y + |lines|
    decreases |lines|
  {
    if lines == [] then Some((map[], []))
    else
      match ParseRow(lines[0], 0, y)
      case None => None
      case Some((rowGrid, rowCarts)) =>
        match ParseLines(lines[1..], y + 1)
        case None => None
        case Some((grid, carts)) =>
          var all := rowCarts + carts;
          assert FreshOnTrack(rowGrid + grid, all) by {
            forall i | 0 <= i < |rowCarts| ensures rowCarts[i].position !in grid {}
            assert forall i :: 0 <= i < |rowCarts| ==> all[i] == rowCarts[i];
            assert forall i :: |rowCarts| <= i < |all| ==> all[i] == carts[i - |rowCarts|];
          }
          Some((rowGrid + grid, all))
  }

  // ---------------------------------------------------------------------
  // The tick, shared by both parts

  /** The sort key of both loops: row, then column. */
  function RowMajor(c: Cart): seq<int> {
    [c.position.y, c.position.x]
  }

  function SortCarts(carts: seq<Cart>): (r: seq<Cart>)
    ensures SortedBy(r, RowMajor) && multiset(r) == multiset(carts) && |r| == |carts|
  {
    SortBy(carts, RowMajor)
  }

  /** The index of the first cart standing on `p` (`position`). */
  function FirstAt(carts: seq<Cart>, p: Point): (r: Option<nat>)
    ensures r.Some? ==> r.value < |carts| && carts[r.value].position == p
                        && forall j :: 0 <= j < r.value ==> carts[j].position != p
    ensures r.None? <==> forall j :: 0 <= j < |carts| ==> carts[j].position != p
  {
    if carts == [] then None
    else if carts[0].position == p then Some(0)
    else
      match FirstAt(carts[1..], p)
      case None => None
      case Some(k) => Some(k + 1)
  }

  /** Where cart `i` is heading: the cart leaving its track and the cell it
      enters; None where the program panics, because the cart is off the
      track map or would leave the top or left edge. */
  function Heading(grid: map<Point, Track>, carts: seq<Cart>, i: nat): Option<(Cart, Point)>
    requires i < |carts|
  {
    var cart := carts[i];
    if cart.position !in grid then None
    else
      var next := CartNext(cart, grid[cart.position]);
      match NextPoint(cart.position, next)
      case None => None
      case Some(p) => Some((next, p))
  }

  // ---------------------------------------------------------------------
  // part1

  datatype Outcome = Crash(at: Point) | Moved(carts: seq<Cart>) | Stuck

  /** Cart `i`'s move in `part1`: a crash where the cell it enters holds
      any cart, otherwise the cart takes its new state and cell. */
  function Step1(grid: map<Point, Track>, carts: seq<Cart>, i: nat): (r: Outcome)
    requires i < |carts|
    ensures r.Moved? ==> |r.carts| == |carts|
  {
    match Heading(grid, carts, i)
    case None => Stuck
    case Some((next, p)) =>
      if FirstAt(carts, p).Some? then Crash(p) else Moved(carts[i := next.(position := p)])
  }

  /** The carts from index `i` on take their moves, until the first crash. */
  function Tick1From(grid: map<Point, Track>, carts: seq<Cart>, i: nat): (r: Outcome)
    requires i <= |carts|
    ensures r.Moved? ==> |r.carts| == |carts|
    decreases |carts| - i
  {
    if i == |carts| then Moved(carts)
    else
      match Step1(grid, carts, i)
      case Moved(next) => Tick1From(grid, next, i + 1)
      case other => other
  }

  /** `part1`'s loop, for at most `fuel` ticks: the first crash, or None
      when the program panics or no crash comes within the fuel. */
  function FirstCrash(grid: map<Point, Track>, carts: seq<Cart>, fuel: nat): Option<Point>
    decreases fuel
  {
    if fuel == 0 then None
    else
      match Tick1From(grid, SortCarts(carts), 0)
      case Crash(p) => Some(p)
      case Stuck => None
      case Moved(next) => FirstCrash(grid, next, fuel - 1)
  }

  /** No two carts share a cell. */
  predicate Apart(carts: seq<Cart>) {
    forall i, j :: 0 <= i < j < |carts| ==> carts[i].position != carts[j].position
  }

  /** A move in `part1` is one cell to a cell no cart holds, and it changes
      only the moving cart; a crash is at the cell a cart holds and the
      mover heads for. */
  lemma Step1Effects(grid: map<Point, Track>, carts: seq<Cart>, i: nat)
    requires i < |carts|
    ensures Step1(grid, carts, i).Crash? ==>
              (exists j :: 0 <= j < |carts| && carts[j].position == Step1(grid, carts, i).at)
              && Heading(grid, carts, i).Some? && Heading(grid, carts, i).value.1 == Step1(grid, carts, i).at
    ensures Step1(grid, carts, i).Moved? ==>
              var r := Step1(grid, carts, i).carts;
              (forall j :: 0 <= j < |carts| && j != i ==> r[j] == carts[j])
              && (forall j :: 0 <= j < |carts| ==> r[i].position != carts[j].position)
              && NextPoint(carts[i].position, r[i]) == Some(r[i].position)
    ensures Step1(grid, carts, i).Stuck? <==> Heading(grid, carts, i).None?
  {
  }

  /** `part1`'s moves keep the carts apart, so before the first crash no
      two carts ever share a cell. */
  lemma {:induction false} Tick1KeepsApart(grid: map<Point, Track>, carts: seq<Cart>, i: nat)
    requires i <= |carts| && Apart(carts)
    ensures Tick1From(grid, carts, i).Moved? ==> Apart(Tick1From(grid, carts, i).carts)
    decreases |carts| - i
  {
    if i < |carts| {
      var s := Step1(grid, carts, i);
      if s.Moved? {
        Step1Effects(grid, carts, i);
        var next := s.carts;
        assert Apart(next) by {
          forall a, b | 0 <= a < b < |next| ensures next[a].position != next[b].position {
            if a != i && b != i {
              assert next[a] == carts[a] && next[b] == carts[b];
            }
          }
        }
        var i1 := i + 1;
        Tick1KeepsApart(grid, next, i1);
      }
    }
  }

  lemma SortKeepsApart(carts: seq<Cart>)
    requires Apart(carts)
    ensures Apart(SortCarts(carts))
  {
    var r := SortCarts(carts);
    forall a, b | 0 <= a < b < |r| ensures r[a].position != r[b].position {
      var c := r[a];
      assert c in multiset(carts);
      var ia :| 0 <= ia < |carts| && carts[ia] == c;
      assert r[b] in multiset(carts);
      var ib :| 0 <= ib < |carts| && carts[ib] == r[b];
      if ia == ib {
        TwiceCounted(r, a, b);
        DuplicatesApart(carts, ia, c);
      }
    }
  }

  lemma TwiceCounted<T>(xs: seq<T>, a: nat, b: nat)
    requires a < b < |xs| && xs[a] == xs[b]
    ensures multiset(xs)[xs[a]] >= 2
  {
    var front, back := xs[..b], xs[b..];
    assert xs == front + back;
    assert xs[a] == front[a] && xs[b] == back[0];
  }

  /** In carts kept apart each cart occurs once. */
  lemma DuplicatesApart(carts: seq<Cart>, i: nat, c: Cart)
    requires Apart(carts) && i < |carts| && carts[i] == c
    ensures multiset(carts)[c] == 1
  {
    var rest := carts[..i] + carts[i + 1..];
    assert carts == carts[..i] + [c] + carts[i + 1..];
    assert c !in rest by {
      forall j | 0 <= j < |rest| ensures rest[j] != c {
        if j < i { assert rest[j] == carts[j]; } else { assert rest[j] == carts[j + 1]; }
      }
    }
    assert multiset(carts) == multiset(rest) + multiset{c};
  }

  /** A whole `part1` tick, sort included, keeps the carts apart. */
  lemma RoundKeepsApart(grid: map<Point, Track>, carts: seq<Cart>)
    requires Apart(carts)
    ensures Tick1From(grid, SortCarts(carts), 0).Moved? ==> Apart(Tick1From(grid, SortCarts(carts), 0).carts)
  {
    var sorted := SortCarts(carts);
    SortKeepsApart(carts);
    Tick1KeepsApart(grid, sorted, 0);
  }

  /** `part1`: sort, then move the carts in order until one enters a cell
      some cart holds. */
  method Part1(grid: map<Point, Track>, carts: seq<Cart>, fuel: nat) returns (r: Option<Point>)
    ensures r == FirstCrash(grid, carts, fuel)
  {
    var cs := carts;
    var left := fuel;
    while left > 0
      invariant FirstCrash(grid, carts, fuel) == FirstCrash(grid, cs, left)
    {
      cs := SortCarts(cs);
      var outcome := Tick1(grid, cs);
      match outcome {
        case Crash(p) => return Some(p);
        case Stuck => return None;
        case Moved(next) => cs := next;
      }
      left := left - 1;
    }
    return None;
  }

  /** One tick of `part1`'s loop over carts already in order. */
  method Tick1(grid: map<Point, Track>, carts: seq<Cart>) returns (r: Outcome)
    ensures r == Tick1From(grid, carts, 0)
  {
    var cs := carts;
    for i := 0 to |cs|
      invariant |cs| == |carts|
      invariant Tick1From(grid, cs, i) == Tick1From(grid, carts, 0)
    {
      var step := Move1(grid, cs, i);
      if !step.Moved? {
        return step;
      }
      cs := step.carts;
    }
    return Moved(cs);
  }

  /** The body of `part1`'s inner loop for cart `i`. */
  method Move1(grid: map<Point, Track>, carts: seq<Cart>, i: nat) returns (r: Outcome)
    requires i < |carts|
    ensures r == Step1(grid, carts, i)
  {
    var cart := carts[i];
    if cart.position !in grid {
      return Stuck;
    }
    var nextCart := CartNext(cart, grid[cart.position]);
    var nextPoint := NextPoint(cart.position, nextCart);
    if nextPoint.None? {
      return Stuck;
    }
    if FirstAt(carts, nextPoint.value).Some? {
      return Crash(nextPoint.value);
    }
    var cs := carts[i := nextCart];
    cs := cs[i := cs[i].(position := nextPoint.value)];
    return Moved(cs);
  }

  // ---------------------------------------------------------------------
  // part2

  /** Cart `i`'s move in `part2`: where the cell it enters holds a cart, the
      first such cart and the mover are flagged and the mover stays as it
      was; otherwise it moves.  Flagged carts are not skipped. */
  function Step2(grid: map<Point, Track>, carts: seq<Cart>, i: nat): (r: Option<seq<Cart>>)
    requires i < |carts|
    ensures r.Some? ==> |r.value| == |carts|
  {
    match Heading(grid, carts, i)
    case None => None
    case Some((next, p)) =>
      match FirstAt(carts, p)
      case Some(other) =>
        var flagged := carts[i := carts[i].(crashed := true)];
        Some(flagged[other := flagged[other].(crashed := true)])
      case None => Some(carts[i := next.(position := p)])
  }

  function Tick2From(grid: map<Point, Track>, carts: seq<Cart>, i: nat): (r: Option<seq<Cart>>)
    requires i <= |carts|
    ensures r.Some? ==> |r.value| == |carts|
    decreases |carts| - i
  {
    if i == |carts| then Some(carts)
    else
      match Step2(grid, carts, i)
      case None => None
      case Some(next) => Tick2From(grid, next, i + 1)
  }

  /** `retain(|c| !c.crashed)`. */
  function Uncrashed(carts: seq<Cart>): (r: seq<Cart>)
    ensures |r| <= |carts|
  {
    if carts == [] then []
    else
      var rest := Uncrashed(carts[1..]);
      if carts[0].crashed then rest else [carts[0]] + rest
  }

  /** `retain` keeps exactly the carts that have not crashed, in order. */
  lemma {:induction false} UncrashedKeepsLive(carts: seq<Cart>)
    ensures forall c :: c in Uncrashed(carts) <==> c in carts && !c.crashed
    ensures forall c :: c in carts && !c.crashed ==> c in Uncrashed(carts)
  {
    if carts != [] {
      UncrashedKeepsLive(carts[1..]);
      assert carts == [carts[0]] + carts[1..];
    }
  }

  /** `part2`'s loop, for at most `fuel` ticks: the position of the only
      cart left after a tick, or None when the program panics or no tick
      within the fuel leaves exactly one. */
  function LastCart(grid: map<Point, Track>, carts: seq<Cart>, fuel: nat): Option<Point>
    decreases fuel
  {
    if fuel == 0 then None
    else
      match Tick2From(grid, SortCarts(carts), 0)
      case None => None
      case Some(ticked) =>
        var left := Uncrashed(ticked);
        if |left| == 1 then Some(left[0].position) else LastCart(grid, left, fuel - 1)
  }

  /** A collision flags the mover and the first cart on the cell it was
      entering and changes nothing else: the mover keeps its cell,
      direction and turn state.  Without one only the mover changes. */
  lemma Step2Effects(grid: map<Point, Track>, carts: seq<Cart>, i: nat)
    requires i < |carts| && Heading(grid, carts, i).Some?
    ensures var (next, p) := Heading(grid, carts, i).value;
            var r := Step2(grid, carts, i).value;
            match FirstAt(carts, p)
            case Some(other) =>
              other != i && r[i] == carts[i].(crashed := true) && r[other] == carts[other].(crashed := true)
              && forall j :: 0 <= j < |carts| && j != i && j != other ==> r[j] == carts[j]
            case None =>
              r == carts[i := next.(position := p)]
  {
    var (next, p) := Heading(grid, carts, i).value;
    NextPointMovesOne(carts[i].position, next);
  }

  /** A tick never clears a flag. */
  lemma {:induction false} Tick2KeepsFlags(grid: map<Point, Track>, carts: seq<Cart>, i: nat)
    requires i <= |carts|
    ensures Tick2From(grid, carts, i).Some? ==>
              forall j :: 0 <= j < |carts| && carts[j].crashed ==> Tick2From(grid, carts, i).value[j].crashed
    decreases |carts| - i
  {
    if i < |carts| && Step2(grid, carts, i).Some? {
      var next := Step2(grid, carts, i).value;
      var i1 := i + 1;
      Tick2KeepsFlags(grid, next, i1);
      if Heading(grid, carts, i).Some? {
        Step2Effects(grid, carts, i);
      }
    }
  }

  /** `part2`: sort, move every cart in order flagging collisions, drop the
      flagged carts, and stop once exactly one is left. */
  method Part2(grid: map<Point, Track>, carts: seq<Cart>, fuel: nat) returns (r: Option<Point>)
    ensures r == LastCart(grid, carts, fuel)
  {
    var cs := carts;
    var left := fuel;
    while left > 0
      invariant LastCart(grid, carts, fuel) == LastCart(grid, cs, left)
    {
      cs := SortCarts(cs);
      var ticked := Tick2(grid, cs);
      if ticked.None? {
        return None;
      }
      cs := Uncrashed(ticked.value);
      if |cs| == 1 {
        return Some(cs[0].position);
      }
      left := left - 1;
    }
    return None;
  }

  /** One tick of `part2`'s loop over carts already in order; None where
      the program panics. */
  method Tick2(grid: map<Point, Track>, carts: seq<Cart>) returns (r: Option<seq<Cart>>)
    ensures r == Tick2From(grid, carts, 0)
  {
    var cs := carts;
    for i := 0 to |cs|
      invariant |cs| == |carts|
      invariant Tick2From(grid, cs, i) == Tick2From(grid, carts, 0)
    {
      var step := Move2(grid, cs, i);
      if step.None? {
        return None;
      }
      cs := step.value;
    }
    return Some(cs);
  }

  /** The body of `part2`'s inner loop for cart `i`. */
  method Move2(grid: map<Point, Track>, carts: seq<Cart>, i: nat) returns (r: Option<seq<Cart>>)
    requires i < |carts|
    ensures r == Step2(grid, carts, i)
  {
    var cart := carts[i];
    if cart.position !in grid {
      return None;
    }
    var nextCart := CartNext(cart, grid[cart.position]);
    var nextPoint := NextPoint(cart.position, nextCart);
    if nextPoint.None? {
      return None;
    }
    assert Heading(grid, carts, i) == Some((nextCart, nextPoint.value));
    var cs := carts;
    var crashed := FirstAt(cs, nextPoint.value);
    if crashed.Some? {
      cs := cs[i := cs[i].(crashed := true)];
      cs := cs[crashed.value := cs[crashed.value].(crashed := true)];
    } else {
      cs := cs[i := nextCart];
      cs := cs[i := cs[i].(position := nextPoint.value)];
      assert cs == carts[i := nextCart.(position := nextPoint.value)];
    }
    return Some(cs);
  }

  // ---------------------------------------------------------------------
  // part2 with crashed carts removed at once

  /** The first cart on `p` that has not crashed. */
  function FirstLiveAt(carts: seq<Cart>, p: Point): (r: Option<nat>)
    ensures r.Some? ==> r.value < |carts| && carts[r.value].position == p && !carts[r.value].crashed
    ensures r.None? <==> forall j :: 0 <= j < |carts| ==> carts[j].position != p || carts[j].crashed
  {
    if carts == [] then None
    else if carts[0].position == p && !carts[0].crashed then Some(0)
    else
      match FirstLiveAt(carts[1..], p)
      case None => None
      case Some(k) => Some(k + 1)
  }

  /** Cart `i`'s move when a crashed cart leaves the track at once: a
      flagged cart neither moves nor is hit again. */
  function FixedStep2(grid: map<Point, Track>, carts: seq<Cart>, i: nat): (r: Option<seq<Cart>>)
    requires i < |carts|
    ensures r.Some? ==> |r.value| == |carts|
  {
    if carts[i].crashed then Some(carts)
    else
      match Heading(grid, carts, i)
      case None => None
      case Some((next, p)) =>
        match FirstLiveAt(carts, p)
        case Some(other) =>
          var flagged := carts[i := carts[i].(crashed := true)];
          Some(flagged[other := flagged[other].(crashed := true)])
        case None => Some(carts[i := next.(position := p)])
  }

  function FixedTick2From(grid: map<Point, Track>, carts: seq<Cart>, i: nat): (r: Option<seq<Cart>>)
    requires i <= |carts|
    ensures r.Some? ==> |r.value| == |carts|
    decreases |carts| - i
  {
    if i == |carts| then Some(carts)
    else
      match FixedStep2(grid, carts, i)
      case None => None
      case Some(next) => FixedTick2From(grid, next, i + 1)
  }

  function FixedLastCart(grid: map<Point, Track>, carts: seq<Cart>, fuel: nat): Option<Point>
    decreases fuel
  {
    if fuel == 0 then None
    else
      match FixedTick2From(grid, SortCarts(carts), 0)
      case None => None
      case Some(ticked) =>
        var left := Uncrashed(ticked);
        if |left| == 1 then Some(left[0].position) else FixedLastCart(grid, left, fuel - 1)
  }

  function Alive(c: Cart): nat {
    if c.crashed then 0 else 1
  }

  lemma {:induction false} UncrashedUpdate(carts: seq<Cart>, i: nat, c: Cart)
    requires i < |carts|
    ensures |Uncrashed(carts[i := c])| + Alive(carts[i]) == |Uncrashed(carts)| + Alive(c)
  {
    var updated := carts[i := c];
    if i == 0 {
      assert updated[1..] == carts[1..];
    } else {
      var i1 := i - 1;
      UncrashedUpdate(carts[1..], i1, c);
      assert updated[1..] == carts[1..][i1 := c];
    }
  }

  /** A corrected move removes no cart or exactly two live ones. */
  lemma FixedStep2RemovesPairs(grid: map<Point, Track>, carts: seq<Cart>, i: nat, r: seq<Cart>)
    requires i < |carts| && FixedStep2(grid, carts, i) == Some(r)
    ensures |Uncrashed(r)| == |Uncrashed(carts)| || |Uncrashed(r)| + 2 == |Uncrashed(carts)|
  {
    if !carts[i].crashed {
      var (next, p) := Heading(grid, carts, i).value;
      NextPointMovesOne(carts[i].position, next);
      CartNextEffects(carts[i], grid[carts[i].position]);
      match FirstLiveAt(carts, p)
      case Some(other) =>
        var flagged := carts[i := carts[i].(crashed := true)];
        UncrashedUpdate(carts, i, carts[i].(crashed := true));
        UncrashedUpdate(flagged, other, flagged[other].(crashed := true));
      case None =>
        UncrashedUpdate(carts, i, next.(position := p));
    }
  }

  /** Over a corrected tick the carts still running change by an even
      number. */
  lemma {:induction false} FixedTickKeepsParity(grid: map<Point, Track>, carts: seq<Cart>, i: nat, r: seq<Cart>)
    requires i <= |carts| && FixedTick2From(grid, carts, i) == Some(r)
    ensures |Uncrashed(r)| % 2 == |Uncrashed(carts)| % 2
    decreases |carts| - i
  {
    if i < |carts| {
      var next :| FixedStep2(grid, carts, i) == Some(next);
      FixedStep2RemovesPairs(grid, carts, i, next);
      var i1 := i + 1;
      assert FixedTick2From(grid, next, i1) == Some(r);
      FixedTickKeepsParity(grid, next, i1, r);
    }
  }

  lemma {:induction false} AllAlive(carts: seq<Cart>)
    requires forall c :: c in carts ==> !c.crashed
    ensures |Uncrashed(carts)| == |carts|
  {
    if carts != [] {
      assert forall c :: c in carts[1..] ==> c in carts;
      AllAlive(carts[1..]);
    }
  }

  lemma SortKeepsAlive(carts: seq<Cart>)
    requires forall c :: c in carts ==> !c.crashed
    ensures forall c :: c in SortCarts(carts) ==> !c.crashed
  {
    var sorted := SortCarts(carts);
    forall c | c in sorted ensures !c.crashed {
      assert c in multiset(sorted);
    }
  }

  /** A corrected round from carts that all run leaves carts that all run,
      changed in number by an even amount. */
  lemma FixedRoundParity(grid: map<Point, Track>, carts: seq<Cart>, ticked: seq<Cart>)
    requires forall c :: c in carts ==> !c.crashed
    requires FixedTick2From(grid, SortCarts(carts), 0) == Some(ticked)
    ensures |Uncrashed(ticked)| % 2 == |carts| % 2
    ensures forall c :: c in Uncrashed(ticked) ==> !c.crashed
  {
    var sorted := SortCarts(carts);
    SortKeepsAlive(carts);
    AllAlive(sorted);
    FixedTickKeepsParity(grid, sorted, 0, ticked);
    UncrashedKeepsLive(ticked);
  }

  /** With crashes removed in pairs a last cart can only be reported from an
      odd number of running carts. */
  lemma {:induction false} FixedLastCartNeedsOdd(grid: map<Point, Track>, carts: seq<Cart>, fuel: nat)
    requires forall c :: c in carts ==> !c.crashed
    ensures FixedLastCart(grid, carts, fuel).Some? ==> |carts| % 2 == 1
    decreases fuel
  {
    if fuel > 0 {
      var sorted := SortCarts(carts);
      var ticked := FixedTick2From(grid, sorted, 0);
      assert FixedLastCart(grid, carts, fuel) == match ticked
        case None => None
        case Some(t) => if |Uncrashed(t)| == 1 then Some(Uncrashed(t)[0].position) else FixedLastCart(grid, Uncrashed(t), fuel - 1);
      if ticked.Some? {
        FixedRoundParity(grid, carts, ticked.value);
        var left := Uncrashed(ticked.value);
        if |left| != 1 {
          var f1 := fuel - 1;
          FixedLastCartNeedsOdd(grid, left, f1);
        }
      }
    }
  }

  /** The track of the example below: a straight row. */
  const Row: map<Point, Track> :=
    map[Point(0, 0) := Straight, Point(1, 0) := Straight, Point(2, 0) := Straight,
        Point(3, 0) := Straight, Point(10, 0) := Straight, Point(11, 0) := Straight]

  const RowCarts: seq<Cart> :=
    [NewCart(Point(0, 0), Right), NewCart(Point(1, 0), Right), NewCart(Point(3, 0), Left), NewCart(Point(10, 0), Right)]

  lemma RowCartsSorted()
    ensures SortCarts(RowCarts) == RowCarts
  {
    assert SortedBy(RowCarts, RowMajor);
    SortBySorted(RowCarts, RowMajor);
  }

  /** The carts of the example halfway through the first tick as written:
      `a` and `b` flagged, and `b` moved on all the same. */
  const RowHalfway: seq<Cart> :=
    [RowCarts[0].(crashed := true), RowCarts[1].(crashed := true, position := Point(2, 0)), RowCarts[2], RowCarts[3]]

  lemma RowFirstHalf()
    ensures Tick2From(Row, RowCarts, 0) == Tick2From(Row, RowHalfway, 2)
  {
    var a, b := RowCarts[0], RowCarts[1];
    var af, bf := a.(crashed := true), b.(crashed := true);
    var s1 := [af, bf, RowCarts[2], RowCarts[3]];
    assert Step2(Row, RowCarts, 0) == Some(s1) by {
      assert Heading(Row, RowCarts, 0) == Some((a, Point(1, 0)));
      assert FirstAt(RowCarts, Point(1, 0)) == Some(1);
      assert RowCarts[0 := af][1 := bf] == s1;
    }
    assert Step2(Row, s1, 1) == Some(RowHalfway) by {
      assert Heading(Row, s1, 1) == Some((bf, Point(2, 0)));
      assert FirstAt(s1, Point(2, 0)) == None;
      assert s1[1 := bf.(position := Point(2, 0))] == RowHalfway;
    }
  }

  lemma RowSecondHalf()
    ensures Tick2From(Row, RowHalfway, 2).Some?
    ensures Uncrashed(Tick2From(Row, RowHalfway, 2).value) == [NewCart(Point(11, 0), Right)]
  {
    var s2 := RowHalfway;
    var c, d := s2[2], s2[3];
    var cf, d2 := c.(crashed := true), d.(position := Point(11, 0));
    var b3 := s2[1].(crashed := true);
    var s3 := [s2[0], b3, cf, d];
    var s4 := [s2[0], b3, cf, d2];
    assert Step2(Row, s2, 2) == Some(s3) by {
      assert Heading(Row, s2, 2) == Some((c, Point(2, 0)));
      assert FirstAt(s2, Point(2, 0)) == Some(1);
      assert s2[2 := cf][1 := b3] == s3;
    }
    assert Step2(Row, s3, 3) == Some(s4) by {
      assert Heading(Row, s3, 3) == Some((d, Point(11, 0)));
      assert FirstAt(s3, Point(11, 0)) == None;
      assert s3[3 := d2] == s4;
    }
    assert Tick2From(Row, s4, 4) == Some(s4);
    OnlyLastRuns(s4);
  }

  lemma OnlyLastRuns(carts: seq<Cart>)
    requires |carts| == 4 && carts[0].crashed && carts[1].crashed && carts[2].crashed && !carts[3].crashed
    ensures Uncrashed(carts) == [carts[3]]
  {
    assert carts[3..][1..] == [];
    assert Uncrashed(carts[3..]) == [carts[3]];
    assert carts[2..][1..] == carts[3..];
    assert Uncrashed(carts[2..]) == [carts[3]];
    assert carts[1..][1..] == carts[2..];
    assert Uncrashed(carts[1..]) == [carts[3]];
  }

  /** With crashed carts removed at once: `a` and `b` leave, `c` and `d`
      both move on. */
  lemma RowTickFixed()
    ensures FixedTick2From(Row, RowCarts, 0).Some?
    ensures |Uncrashed(FixedTick2From(Row, RowCarts, 0).value)| == 2
  {
    var a, b, c, d := RowCarts[0], RowCarts[1], RowCarts[2], RowCarts[3];
    var af, bf := a.(crashed := true), b.(crashed := true);
    var c2, d2 := c.(position := Point(2, 0)), d.(position := Point(11, 0));
    var t1 := [af, bf, c, d];
    var t3 := [af, bf, c2, d];
    var t4 := [af, bf, c2, d2];
    assert FixedStep2(Row, RowCarts, 0) == Some(t1) by {
      assert Heading(Row, RowCarts, 0) == Some((a, Point(1, 0)));
      assert FirstLiveAt(RowCarts, Point(1, 0)) == Some(1);
      assert RowCarts[0 := af][1 := bf] == t1;
    }
    assert FixedStep2(Row, t1, 1) == Some(t1);
    assert FixedStep2(Row, t1, 2) == Some(t3) by {
      assert Heading(Row, t1, 2) == Some((c, Point(2, 0)));
      assert FirstLiveAt(t1, Point(2, 0)) == None;
      assert t1[2 := c2] == t3;
    }
    assert FixedStep2(Row, t3, 3) == Some(t4) by {
      assert Heading(Row, t3, 3) == Some((d, Point(11, 0)));
      assert FirstLiveAt(t3, Point(11, 0)) == None;
      assert t3[3 := d2] == t4;
    }
    assert FixedTick2From(Row, t4, 4) == Some(t4);
    assert Uncrashed(t4[3..]) == [d2];
    assert Uncrashed(t4[2..]) == [c2, d2] by { assert t4[2..][1..] == t4[3..]; }
    assert Uncrashed(t4[1..]) == [c2, d2] by { assert t4[1..][1..] == t4[2..]; }
  }

  /** Four carts in a row on straight track: the program reports the last
      one after the first tick, while with crashed carts removed at once two
      are still running. */
  lemma FlaggedCartsKeepMoving()
    ensures LastCart(Row, RowCarts, 1) == Some(Point(11, 0))
    ensures FixedLastCart(Row, RowCarts, 1) == None
  {
    RowCartsSorted();
    RowFirstHalf();
    RowSecondHalf();
    RowTickFixed();
  }
}
