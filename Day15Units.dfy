/** Day 15, data model: grid points in reading order, the two races, and the
    combat units with their hit-taking rule.  The wall map is a
    `map<Point, bool>` whose value says whether the cell is open floor. */
module Day15Units {
  import opened Sorting

  datatype Point = Point(x: int, y: int)

  datatype Ordering = Less | Equal | Greater

  /** `Point::cmp`: rows first, then columns ("reading order"). */
  function Compare(a: Point, b: Point): Ordering {
    if a.y < b.y then Less
    else if a.y > b.y then Greater
    else if a.x < b.x then Less
    else if a.x > b.x then Greater
    else Equal
  }

  /** `a` comes strictly before `b` in reading order. */
  predicate Before(a: Point, b: Point) {
    Compare(a, b) == Less
  }

  /** `Compare` is a total order: equal only on equal points, antisymmetric,
      and transitive; so `Before` is a strict total order. */
  lemma CompareIsTotalOrder(a: Point, b: Point, c: Point)
    ensures Compare(a, b) == Equal <==> a == b
    ensures Compare(a, b) == Less <==> Compare(b, a) == Greater
    ensures a != b ==> Before(a, b) || Before(b, a)
    ensures Before(a, b) && Before(b, c) ==> Before(a, c)
  {
  }

  /** `Point::adjacent`: up, left, right, down. */
  function Adjacent(p: Point): seq<Point> {
    [Point(p.x, p.y - 1), Point(p.x - 1, p.y), Point(p.x + 1, p.y), Point(p.x, p.y + 1)]
  }

  function Abs(n: int): nat {
    if n < 0 then -n else n
  }

  /** The four neighbours are exactly the points at Manhattan distance 1, and
      they are listed in reading order. */
  lemma AdjacentIsNeighbourhood(p: Point, q: Point)
    ensures |Adjacent(p)| == 4
    ensures q in Adjacent(p) <==> Abs(q.x - p.x) + Abs(q.y - p.y) == 1
    ensures forall i, j :: 0 <= i < j < 4 ==> Before(Adjacent(p)[i], Adjacent(p)[j])
  {
    if Abs(q.x - p.x) + Abs(q.y - p.y) == 1 {
      if q.y < p.y {
        assert q == Adjacent(p)[0];
      } else if q.y > p.y {
        assert q == Adjacent(p)[3];
      } else if q.x < p.x {
        assert q == Adjacent(p)[1];
      } else {
        assert q == Adjacent(p)[2];
      }
    }
  }

  /** Adjacency is symmetric. */
  lemma AdjacentSymmetric(p: Point, q: Point)
    ensures q in Adjacent(p) <==> p in Adjacent(q)
  {
    AdjacentIsNeighbourhood(p, q);
    AdjacentIsNeighbourhood(q, p);
  }

  /** A point is open floor; a point outside the map counts as a wall. */
  predicate Open(grid: map<Point, bool>, p: Point) {
    p in grid && grid[p]
  }

  /** Every neighbour of an open cell is on the map, so the search's
      `self.grid[p]` lookups never miss (the parsed puzzle maps are walled). */
  predicate Walled(grid: map<Point, bool>) {
    forall p, q :: p in grid && grid[p] && q in Adjacent(p) ==> q in grid
  }

  datatype Race = Elf | Goblin

  /** `Race::enemy`. */
  function Enemy(r: Race): Race {
    match r
    case Elf => Goblin
    case Goblin => Elf
  }

  lemma EnemyIsInvolution(r: Race)
    ensures Enemy(Enemy(r)) == r && Enemy(r) != r
  {
  }

  datatype Character = Character(position: Point, race: Race, hitPoints: int, attackPower: int, dead: bool)

  const INITIAL_HIT_POINTS: int := 200
  const DEFAULT_ATTACK_POWER: int := 3

  /** `Character::new`. */
  function NewCharacter(race: Race, position: Point): (c: Character)
    ensures c.position == position && c.race == race && !c.dead
    ensures c.hitPoints == INITIAL_HIT_POINTS && c.attackPower == DEFAULT_ATTACK_POWER
  {
    Character(position, race, INITIAL_HIT_POINTS, DEFAULT_ATTACK_POWER, false)
  }

  predicate IsAlive(c: Character) {
    !c.dead
  }

  /** `Character::take_hit`: the hit points drop by exactly `attack`, the unit
      is dead afterwards iff it was dead already or its hit points reached 0
      or below, and nothing else changes. */
  function TakeHit(c: Character, attack: int): (r: Character)
    ensures r.hitPoints == c.hitPoints - attack
    ensures r.dead <==> c.dead || r.hitPoints <= 0
    ensures r.position == c.position && r.race == c.race && r.attackPower == c.attackPower
  {
    var hp := c.hitPoints - attack;
    c.(hitPoints := hp, dead := c.dead || hp <= 0)
  }

  // ---------------------------------------------------------------------
  // sort_by_key(position): a stable sort of the roster by reading order

  predicate SortedByPosition(cs: seq<Character>) {
    forall i, j :: 0 <= i < j < |cs| ==> !Before(cs[j].position, cs[i].position)
  }

  /** The reading-order key of a unit, `(y, x)` as a tuple key. */
  function ReadingKey(c: Character): seq<int> {
    [c.position.y, c.position.x]
  }

  /** Comparing keys is comparing positions in reading order. */
  lemma ReadingKeyOrders(c: Character, d: Character)
    ensures LexLess(ReadingKey(c), ReadingKey(d)) <==> Before(c.position, d.position)
  {
    var cx, dx := [c.position.x], [d.position.x];
    assert ReadingKey(c)[1..] == cx && ReadingKey(d)[1..] == dx;
    assert cx[1..] == [] && dx[1..] == [] && !LexLess([], []);
    assert LexLess(cx, dx) <==> c.position.x < d.position.x;
  }

  /** The roster sorted by position, stably: the shared stable sort with
      the reading-order key. */
  function SortByPosition(cs: seq<Character>): (r: seq<Character>)
    ensures SortedByPosition(r)
    ensures multiset(r) == multiset(cs)
    ensures |r| == |cs|
  {
    SortedInReadingOrder(SortBy(cs, ReadingKey));
    SortBy(cs, ReadingKey)
  }

  /** Sorted by the reading-order key is sorted by position. */
  lemma SortedInReadingOrder(cs: seq<Character>)
    requires SortedBy(cs, ReadingKey)
    ensures SortedByPosition(cs)
  {
    forall i, j | 0 <= i < j < |cs| ensures !Before(cs[j].position, cs[i].position) {
      ReadingKeyOrders(cs[j], cs[i]);
    }
  }
}
