/** Day 15, the roster as values: which units are alive, whether combat is
    over, whom a unit attacks, the total health, and the reference
    definitions of one turn, one round (`tick`) and a whole battle. */
module Day15Roster {
  import opened Wrappers
  import opened Day15Units
  import opened Day15Search
  import opened Sorting

  /** The cells of the living units (`blocked` in `find_move`). */
  function LivingPositions(cs: seq<Character>): set<Point> {
    set c | c in cs && IsAlive(c) :: c.position
  }

  /** The cells of the living enemies of `race` (`targets` in `find_move`). */
  function EnemyPositions(cs: seq<Character>, race: Race): set<Point> {
    set c | c in cs && IsAlive(c) && c.race == Enemy(race) :: c.position
  }

  /** What `find_move` searches for unit `c` of roster `cs`. */
  function SceneFor(grid: map<Point, bool>, cs: seq<Character>, c: Character): Scene {
    Scene(grid, LivingPositions(cs), EnemyPositions(cs, c.race), c.position)
  }

  /** The roster as the simulation keeps it: living units stand on open
      floor, no two of them on the same cell. */
  predicate ValidRoster(grid: map<Point, bool>, cs: seq<Character>) {
    && (forall i :: 0 <= i < |cs| && IsAlive(cs[i]) ==> Open(grid, cs[i].position))
    && (forall i, j :: 0 <= i < j < |cs| && IsAlive(cs[i]) && IsAlive(cs[j]) ==> cs[i].position != cs[j].position)
  }

  /** A roster extended at the end is valid iff the prefix is and a living
      newcomer stands on open floor no living unit of the prefix holds. */
  lemma ValidSnoc(grid: map<Point, bool>, cs: seq<Character>, c: Character)
    ensures ValidRoster(grid, cs + [c]) <==>
            ValidRoster(grid, cs) && (IsAlive(c) ==> Open(grid, c.position) && c.position !in LivingPositions(cs))
  {
    var ds := cs + [c];
    assert forall i :: 0 <= i < |cs| ==> ds[i] == cs[i];
    if ValidRoster(grid, ds) && IsAlive(c) {
      forall d | d in cs && IsAlive(d) ensures d.position != c.position {
        var i :| 0 <= i < |cs| && cs[i] == d;
        assert ds[i] == d && ds[|cs|] == c;
      }
    }
    assert ds[|cs|] == c;
    if ValidRoster(grid, cs) && (IsAlive(c) ==> Open(grid, c.position) && c.position !in LivingPositions(cs)) {
      forall i, j | 0 <= i < j < |ds| && IsAlive(ds[i]) && IsAlive(ds[j]) ensures ds[i].position != ds[j].position {
        if j == |cs| {
          assert ds[i] == cs[i] && ds[i] in cs;
        }
      }
    }
  }

  /** A roster extended at the front: the same condition. */
  lemma ValidCons(grid: map<Point, bool>, c: Character, cs: seq<Character>)
    ensures ValidRoster(grid, [c] + cs) <==>
            ValidRoster(grid, cs) && (IsAlive(c) ==> Open(grid, c.position) && c.position !in LivingPositions(cs))
  {
    if ValidRoster(grid, [c] + cs) {
      ValidConsSplit(grid, c, cs);
    }
    if ValidRoster(grid, cs) && (IsAlive(c) ==> Open(grid, c.position) && c.position !in LivingPositions(cs)) {
      ValidConsJoin(grid, c, cs);
    }
  }

  lemma ValidConsSplit(grid: map<Point, bool>, c: Character, cs: seq<Character>)
    requires ValidRoster(grid, [c] + cs)
    ensures ValidRoster(grid, cs) && (IsAlive(c) ==> Open(grid, c.position) && c.position !in LivingPositions(cs))
  {
    var ds := [c] + cs;
    assert forall i :: 0 <= i < |cs| ==> ds[i + 1] == cs[i];
    assert ds[0] == c;
    forall i, j | 0 <= i < j < |cs| && IsAlive(cs[i]) && IsAlive(cs[j]) ensures cs[i].position != cs[j].position {
      assert ds[i + 1] == cs[i] && ds[j + 1] == cs[j];
    }
    if IsAlive(c) {
      forall d | d in cs && IsAlive(d) ensures d.position != c.position {
        var i :| 0 <= i < |cs| && cs[i] == d;
        assert ds[i + 1] == d && ds[0] == c;
      }
    }
  }

  lemma ValidConsJoin(grid: map<Point, bool>, c: Character, cs: seq<Character>)
    requires ValidRoster(grid, cs) && (IsAlive(c) ==> Open(grid, c.position) && c.position !in LivingPositions(cs))
    ensures ValidRoster(grid, [c] + cs)
  {
    var ds := [c] + cs;
    assert forall i :: 0 < i < |ds| ==> ds[i] == cs[i - 1];
    forall i, j | 0 <= i < j < |ds| && IsAlive(ds[i]) && IsAlive(ds[j]) ensures ds[i].position != ds[j].position {
      if i == 0 {
        assert ds[j] in cs;
      }
    }
  }

  /** The living positions depend only on which units the roster holds. */
  lemma LivingPositionsOfMultiset(cs: seq<Character>, ds: seq<Character>)
    requires multiset(cs) == multiset(ds)
    ensures LivingPositions(cs) == LivingPositions(ds)
  {
    forall c ensures c in cs <==> c in ds {
      assert c in cs <==> c in multiset(cs);
      assert c in ds <==> c in multiset(ds);
    }
  }

  /** Inserting a unit that fits into a valid sorted roster keeps it valid. */
  lemma {:induction false} InsertKeepsValid(grid: map<Point, bool>, c: Character, sorted: seq<Character>)
    requires SortedBy(sorted, ReadingKey) && ValidRoster(grid, sorted)
    requires IsAlive(c) ==> Open(grid, c.position) && c.position !in LivingPositions(sorted)
    ensures ValidRoster(grid, InsertBy(c, sorted, ReadingKey))
  {
    if sorted == [] {
      ValidCons(grid, c, []);
    } else {
      InsertByCons(c, sorted, ReadingKey);
      if !Later(ReadingKey, sorted[0], c) {
        var tail := sorted[1..];
        assert sorted == [sorted[0]] + tail;
        ValidCons(grid, sorted[0], tail);
        assert LivingPositions(tail) <= LivingPositions(sorted);
        InsertKeepsValid(grid, c, tail);
        var rest := InsertBy(c, tail, ReadingKey);
        forall d | d in rest ensures d == c || d in tail {
          assert d in multiset(rest);
        }
        ValidCons(grid, sorted[0], rest);
      } else {
        ValidCons(grid, c, sorted);
      }
    }
  }

  /** Sorting by position keeps the roster valid. */
  lemma {:induction false} SortKeepsValid(grid: map<Point, bool>, cs: seq<Character>)
    requires ValidRoster(grid, cs)
    ensures ValidRoster(grid, SortByPosition(cs))
  {
    if cs != [] {
      var prefix := cs[..|cs| - 1];
      var last := cs[|cs| - 1];
      assert cs == prefix + [last];
      ValidSnoc(grid, prefix, last);
      SortKeepsValid(grid, prefix);
      LivingPositionsOfMultiset(prefix, SortBy(prefix, ReadingKey));
      InsertKeepsValid(grid, last, SortBy(prefix, ReadingKey));
      SortBySnoc(cs, ReadingKey);
    }
  }

  // ---------------------------------------------------------------------
  // is_complete

  /** `is_complete`: the roster is empty or every living unit has the race
      of the unit at index 0, which may itself be dead. */
  predicate Complete(cs: seq<Character>) {
    |cs| == 0 || forall i :: 0 <= i < |cs| && IsAlive(cs[i]) ==> cs[i].race == cs[0].race
  }

  /** A complete roster leaves no living unit a living enemy; when the unit
      at index 0 is alive the converse holds as well. */
  lemma CompleteMeansNoEnemies(cs: seq<Character>)
    ensures Complete(cs) ==> forall i :: 0 <= i < |cs| && IsAlive(cs[i]) ==> EnemyPositions(cs, cs[i].race) == {}
    ensures |cs| > 0 && IsAlive(cs[0]) && EnemyPositions(cs, cs[0].race) == {} ==> Complete(cs)
  {
    if Complete(cs) {
      forall i | 0 <= i < |cs| && IsAlive(cs[i]) ensures EnemyPositions(cs, cs[i].race) == {} {
        if d :| d in cs && IsAlive(d) && d.race == Enemy(cs[i].race) {
          var j :| 0 <= j < |cs| && cs[j] == d;
          EnemyIsInvolution(cs[0].race);
        }
      }
    }
    if |cs| > 0 && IsAlive(cs[0]) && EnemyPositions(cs, cs[0].race) == {} {
      var r0 := cs[0].race;
      forall c | c in cs && IsAlive(c) ensures c.race == r0 {
        assert c.race == Enemy(r0) ==> c.position in EnemyPositions(cs, r0);
      }
    }
  }

  /** Because the race compared against is that of index 0 even when that
      unit is dead, a roster whose living units all share one race need not
      be complete. */
  lemma CompleteLooksAtIndexZero()
    ensures var cs := [Character(Point(1, 1), Elf, -2, 3, true), NewCharacter(Goblin, Point(2, 1))];
            !Complete(cs) && forall c :: c in cs && IsAlive(c) ==> EnemyPositions(cs, c.race) == {}
  {
    var cs := [Character(Point(1, 1), Elf, -2, 3, true), NewCharacter(Goblin, Point(2, 1))];
    assert !Complete(cs) by {
      assert IsAlive(cs[1]) && cs[1].race != cs[0].race;
    }
    forall c | c in cs && IsAlive(c) ensures EnemyPositions(cs, c.race) == {} {
      assert c == cs[1];
    }
  }

  // ---------------------------------------------------------------------
  // remove_dead

  /** The living units, in roster order (`retain(is_alive)`). */
  function Living(cs: seq<Character>): (r: seq<Character>)
    ensures forall c :: c in r <==> c in cs && IsAlive(c)
    ensures forall i :: 0 <= i < |r| ==> IsAlive(r[i])
    ensures |r| <= |cs|
  {
    if cs == [] then []
    else
      var prefix := cs[..|cs| - 1];
      var last := cs[|cs| - 1];
      assert cs == prefix + [last];
      Living(prefix) + if IsAlive(last) then [last] else []
  }

  /** Removing the dead keeps the order: it distributes over concatenation. */
  lemma {:induction false} LivingAppend(a: seq<Character>, b: seq<Character>)
    ensures Living(a + b) == Living(a) + Living(b)
  {
    if b == [] {
      assert a + b == a;
    } else {
      var b' := b[..|b| - 1];
      var last := b[|b| - 1];
      var ab := a + b;
      assert ab[..|ab| - 1] == a + b' && ab[|ab| - 1] == last;
      LivingAppend(a, b');
      var tail := if IsAlive(last) then [last] else [];
      assert Living(ab) == Living(a + b') + tail;
      assert Living(b) == Living(b') + tail;
    }
  }

  /** A roster without dead units is left as it is. */
  lemma {:induction false} LivingOfAlive(cs: seq<Character>)
    requires forall i :: 0 <= i < |cs| ==> IsAlive(cs[i])
    ensures Living(cs) == cs
  {
    if cs != [] {
      var prefix := cs[..|cs| - 1];
      assert cs == prefix + [cs[|cs| - 1]];
      LivingOfAlive(prefix);
    }
  }

  /** Removing the dead keeps a valid roster valid. */
  lemma {:induction false} LivingKeepsValid(grid: map<Point, bool>, cs: seq<Character>)
    requires ValidRoster(grid, cs)
    ensures ValidRoster(grid, Living(cs))
  {
    if cs != [] {
      var prefix := cs[..|cs| - 1];
      var last := cs[|cs| - 1];
      assert cs == prefix + [last];
      ValidSnoc(grid, prefix, last);
      LivingKeepsValid(grid, prefix);
      var lp := Living(prefix);
      assert LivingPositions(lp) <= LivingPositions(prefix);
      if IsAlive(last) {
        ValidSnoc(grid, lp, last);
      }
    }
  }

  // ---------------------------------------------------------------------
  // total_health

  /** `total_health`: the hit points of the living units, summed. */
  function TotalHealth(cs: seq<Character>): int {
    if cs == [] then 0
    else
      var last := cs[|cs| - 1];
      TotalHealth(cs[..|cs| - 1]) + if IsAlive(last) then last.hitPoints else 0
  }

  /** The total health counts the living only, so removing the dead does not
      change it; with every living unit between 1 and 200 hit points it lies
      between the number of living units and 200 times that number. */
  lemma {:induction false} TotalHealthOfLiving(cs: seq<Character>)
    ensures TotalHealth(Living(cs)) == TotalHealth(cs)
  {
    if cs != [] {
      var prefix := cs[..|cs| - 1];
      var last := cs[|cs| - 1];
      TotalHealthOfLiving(prefix);
      var lp := Living(prefix);
      if IsAlive(last) {
        var lc := lp + [last];
        assert lc[..|lc| - 1] == lp && lc[|lc| - 1] == last;
        assert Living(cs) == lc;
      } else {
        assert Living(cs) == lp;
      }
    }
  }

  /** With every living unit between 1 and 200 hit points, the total health
      lies between the number of living units and 200 times that number. */
  lemma {:induction false} TotalHealthBounds(cs: seq<Character>)
    requires forall c :: c in cs && IsAlive(c) ==> 0 < c.hitPoints <= INITIAL_HIT_POINTS
    ensures |Living(cs)| <= TotalHealth(cs) <= INITIAL_HIT_POINTS * |Living(cs)|
  {
    if cs != [] {
      var prefix := cs[..|cs| - 1];
      var last := cs[|cs| - 1];
      assert forall c :: c in prefix ==> c in cs;
      TotalHealthBounds(prefix);
      if IsAlive(last) {
        assert |Living(cs)| == |Living(prefix)| + 1;
      } else {
        assert |Living(cs)| == |Living(prefix)|;
      }
    }
  }

  // ---------------------------------------------------------------------
  // find_enemy_to_attack

  /** Unit `c` is a living enemy of a unit of race `race` standing on `p`. */
  predicate EnemyOn(c: Character, race: Race, p: Point) {
    IsAlive(c) && c.race == Enemy(race) && c.position == p
  }

  /** The index `character_map` holds for `p`: the map is collected in
      roster order, so the last living enemy on `p` wins. */
  function EnemyAt(cs: seq<Character>, race: Race, p: Point): (r: Option<nat>)
    ensures r.Some? ==> (r.value < |cs| && EnemyOn(cs[r.value], race, p)
                         && forall j :: r.value < j < |cs| ==> !EnemyOn(cs[j], race, p))
    ensures r.None? <==> forall j :: 0 <= j < |cs| ==> !EnemyOn(cs[j], race, p)
  {
    if cs == [] then None
    else if EnemyOn(cs[|cs| - 1], race, p) then Some(|cs| - 1)
    else
      var r := EnemyAt(cs[..|cs| - 1], race, p);
      assert forall j :: 0 <= j < |cs| - 1 ==> cs[..|cs| - 1][j] == cs[j];
      r
  }

  /** The key of `min_by_key`: fewest hit points, then reading order. */
  predicate Weaker(a: Character, b: Character) {
    a.hitPoints < b.hitPoints || (a.hitPoints == b.hitPoints && Before(a.position, b.position))
  }

  /** The enemy `min_by_key` picks among those on the cells `ps`, the first
      of equally weak ones. */
  function Weakest(cs: seq<Character>, race: Race, ps: seq<Point>): (r: Option<nat>)
    ensures r.Some? ==> r.value < |cs| && exists k :: 0 <= k < |ps| && EnemyAt(cs, race, ps[k]) == r
    ensures r.Some? ==> forall k :: 0 <= k < |ps| && EnemyAt(cs, race, ps[k]).Some? ==>
                          !Weaker(cs[EnemyAt(cs, race, ps[k]).value], cs[r.value])
    ensures r.None? <==> forall k :: 0 <= k < |ps| ==> EnemyAt(cs, race, ps[k]).None?
  {
    if ps == [] then None
    else
      var rest := Weakest(cs, race, ps[1..]);
      assert forall k :: 0 < k < |ps| ==> ps[k] == ps[1..][k - 1];
      match EnemyAt(cs, race, ps[0])
      case None => rest
      case Some(i) =>
        if rest.Some? && Weaker(cs[rest.value], cs[i]) then
          forall k | 0 <= k < |ps| && EnemyAt(cs, race, ps[k]).Some?
            ensures !Weaker(cs[EnemyAt(cs, race, ps[k]).value], cs[rest.value])
          {
            if k == 0 {
              WeakerIsStrictOrder(cs[i], cs[rest.value], cs[i]);
            }
          }
          rest
        else
          forall k | 0 < k < |ps| && EnemyAt(cs, race, ps[k]).Some?
            ensures !Weaker(cs[EnemyAt(cs, race, ps[k]).value], cs[i])
          {
            var j := EnemyAt(cs, race, ps[k]).value;
            WeakerIsStrictOrder(cs[j], cs[rest.value], cs[i]);
            WeakerIsStrictOrder(cs[j], cs[i], cs[i]);
          }
          Some(i)
  }

  /** The key order is a strict total order on units on distinct cells. */
  lemma WeakerIsStrictOrder(a: Character, b: Character, c: Character)
    ensures !Weaker(a, a)
    ensures Weaker(a, b) && Weaker(b, c) ==> Weaker(a, c)
    ensures !Weaker(a, b) && !Weaker(b, c) ==> !Weaker(a, c)
    ensures a.position != b.position ==> Weaker(a, b) || Weaker(b, a)
  {
    CompareIsTotalOrder(a.position, b.position, c.position);
    CompareIsTotalOrder(b.position, c.position, a.position);
    CompareIsTotalOrder(c.position, a.position, b.position);
  }

  /** `find_enemy_to_attack`: the index of the enemy unit `c` attacks. */
  function EnemyToAttack(cs: seq<Character>, c: Character): Option<nat> {
    Weakest(cs, c.race, Adjacent(c.position))
  }

  /** In a roster whose living units stand on distinct cells, the unit
      attacked is a living enemy next to `c` and no living enemy next to `c`
      is weaker; there is none exactly when no living enemy is next to `c`. */
  lemma EnemyToAttackIsWeakest(grid: map<Point, bool>, cs: seq<Character>, c: Character)
    requires ValidRoster(grid, cs)
    ensures var r := EnemyToAttack(cs, c);
            r.Some? ==> (r.value < |cs| && IsAlive(cs[r.value]) && cs[r.value].race == Enemy(c.race)
                         && cs[r.value].position in Adjacent(c.position))
    ensures var r := EnemyToAttack(cs, c);
            r.Some? ==> forall j :: (0 <= j < |cs| && IsAlive(cs[j]) && cs[j].race == Enemy(c.race)
                                     && cs[j].position in Adjacent(c.position)) ==> !Weaker(cs[j], cs[r.value])
    ensures EnemyToAttack(cs, c).None? <==>
            forall j :: 0 <= j < |cs| ==> !(IsAlive(cs[j]) && cs[j].race == Enemy(c.race) && cs[j].position in Adjacent(c.position))
  {
    var ps := Adjacent(c.position);
    var r := EnemyToAttack(cs, c);
    forall j | 0 <= j < |cs| && IsAlive(cs[j]) && cs[j].race == Enemy(c.race) && cs[j].position in ps
      ensures EnemyAt(cs, c.race, cs[j].position) == Some(j)
    {
    }
    if r.Some? {
      var k :| 0 <= k < |ps| && EnemyAt(cs, c.race, ps[k]) == r;
      forall j | 0 <= j < |cs| && IsAlive(cs[j]) && cs[j].race == Enemy(c.race) && cs[j].position in ps
        ensures !Weaker(cs[j], cs[r.value])
      {
        var kj :| 0 <= kj < |ps| && ps[kj] == cs[j].position;
      }
    }
    if r.None? {
      forall j | 0 <= j < |cs| ensures !(IsAlive(cs[j]) && cs[j].race == Enemy(c.race) && cs[j].position in ps) {
      }
    }
  }

  // ---------------------------------------------------------------------
  // One turn, one round, a battle

  /** Unit `i` after taking the step `find_move` finds, if any. */
  ghost function Mover(grid: map<Point, bool>, cs: seq<Character>, i: nat): Character
    requires i < |cs|
  {
    match Move(SceneFor(grid, cs, cs[i]))
    case Some(p) => cs[i].(position := p)
    case None => cs[i]
  }

  /** Unit `i` hits the enemy `find_enemy_to_attack` picks, if any, with its
      attack power. */
  function Attack(cs: seq<Character>, i: nat): (r: seq<Character>)
    requires i < |cs|
    ensures |r| == |cs|
  {
    match EnemyToAttack(cs, cs[i])
    case None => cs
    case Some(j) => cs[j := TakeHit(cs[j], cs[i].attackPower)]
  }

  /** The turn of unit `i`: it moves, then attacks. */
  ghost function Turn(grid: map<Point, bool>, cs: seq<Character>, i: nat): (r: seq<Character>)
    requires i < |cs|
    ensures |r| == |cs|
  {
    Attack(cs[i := Mover(grid, cs, i)], i)
  }

  /** The rest of a round from index `i` on: dead units are skipped, and
      the round stops, reporting `true`, before the first living unit that
      finds the roster complete. */
  ghost function RoundFrom(grid: map<Point, bool>, cs: seq<Character>, i: nat): (r: (bool, seq<Character>))
    requires i <= |cs|
    ensures |r.1| == |cs|
    decreases |cs| - i
  {
    if i == |cs| then (false, cs)
    else if !IsAlive(cs[i]) then RoundFrom(grid, cs, i + 1)
    else if Complete(cs) then (true, cs)
    else RoundFrom(grid, Turn(grid, cs, i), i + 1)
  }

  /** `tick`: sort by position, play the round, remove the dead. */
  ghost function Round(grid: map<Point, bool>, cs: seq<Character>): (bool, seq<Character>) {
    var r := RoundFrom(grid, SortByPosition(cs), 0);
    (r.0, Living(r.1))
  }

  /** Rounds played by `step` from round `t` on, up to but not including
      round `limit`: the index of the round that reports the end, and the
      roster it leaves. */
  ghost function Run(step: seq<Character> -> (bool, seq<Character>), cs: seq<Character>, t: nat, limit: nat)
    : Option<(nat, seq<Character>)>
    decreases if t >= limit then 0 else limit - t
  {
    if t >= limit then None
    else
      var r := step(cs);
      if r.0 then Some((t, r.1)) else Run(step, r.1, t + 1, limit)
  }

  /** The roster after `n` rounds played by `step`. */
  ghost function Iterate(step: seq<Character> -> (bool, seq<Character>), cs: seq<Character>, n: nat): seq<Character> {
    if n == 0 then cs else step(Iterate(step, cs, n - 1)).1
  }

  /** `tick` as a step function over rosters. */
  ghost function RoundOf(grid: map<Point, bool>): seq<Character> -> (bool, seq<Character>) {
    cs => Round(grid, cs)
  }

  /** The battle of `part1`: rounds from `t` on, before round `limit`. */
  ghost function Battle(grid: map<Point, bool>, cs: seq<Character>, t: nat, limit: nat): Option<(nat, seq<Character>)> {
    Run(RoundOf(grid), cs, t, limit)
  }

  /** A move changes only the position, to a free open neighbour. */
  lemma MoverEffects(grid: map<Point, bool>, cs: seq<Character>, i: nat)
    requires i < |cs|
    ensures var m := Mover(grid, cs, i);
            m == cs[i].(position := m.position)
            && (m.position == cs[i].position
                || (m.position in Adjacent(cs[i].position) && Open(grid, m.position)
                    && m.position !in LivingPositions(cs)))
  {
    MoveIsTowardsNearest(SceneFor(grid, cs, cs[i]));
  }

  /** An attack leaves the attacker alone and hits at most one other unit,
      a living enemy beside it; nothing revives. */
  lemma AttackEffects(grid: map<Point, bool>, cs: seq<Character>, i: nat)
    requires i < |cs| && ValidRoster(grid, cs)
    ensures var r := Attack(cs, i);
            r[i] == cs[i]
            && forall k :: 0 <= k < |cs| && k != i && r[k] != cs[k] ==>
                 && r[k] == TakeHit(cs[k], cs[i].attackPower)
                 && IsAlive(cs[k]) && cs[k].race == Enemy(cs[i].race)
                 && cs[k].position in Adjacent(cs[i].position)
                 && forall k' :: 0 <= k' < |cs| && k' != k ==> r[k'] == cs[k']
  {
    EnemyToAttackIsWeakest(grid, cs, cs[i]);
    EnemyIsInvolution(cs[i].race);
  }

  /** A turn moves only the acting unit, to a free open neighbour, and hits
      at most one other unit, a living enemy beside its new cell. */
  lemma TurnEffects(grid: map<Point, bool>, cs: seq<Character>, i: nat)
    requires i < |cs| && ValidRoster(grid, cs)
    ensures var r := Turn(grid, cs, i);
            r[i] == cs[i].(position := r[i].position)
            && (r[i].position == cs[i].position
                || (r[i].position in Adjacent(cs[i].position) && Open(grid, r[i].position)
                    && r[i].position !in LivingPositions(cs)))
    ensures var r := Turn(grid, cs, i);
            forall k :: 0 <= k < |cs| && k != i && r[k] != cs[k] ==>
              && r[k] == TakeHit(cs[k], cs[i].attackPower)
              && IsAlive(cs[k]) && cs[k].race == Enemy(cs[i].race)
              && r[k].position in Adjacent(r[i].position)
              && forall k' :: 0 <= k' < |cs| && k' != i && k' != k ==> r[k'] == cs[k']
  {
    var mover := Mover(grid, cs, i);
    MoverEffects(grid, cs, i);
    var moved := cs[i := mover];
    MovedKeepsValid(grid, cs, i, mover);
    AttackEffects(grid, moved, i);
  }

  /** Moving a unit onto open floor no living unit holds keeps the roster
      valid. */
  lemma MovedKeepsValid(grid: map<Point, bool>, cs: seq<Character>, i: nat, mover: Character)
    requires i < |cs| && ValidRoster(grid, cs)
    requires mover == cs[i].(position := mover.position)
    requires mover.position == cs[i].position
             || (Open(grid, mover.position) && mover.position !in LivingPositions(cs))
    ensures ValidRoster(grid, cs[i := mover])
  {
    var moved := cs[i := mover];
    forall a, b | 0 <= a < b < |moved| && IsAlive(moved[a]) && IsAlive(moved[b])
      ensures moved[a].position != moved[b].position
    {
      if a == i { assert cs[b] in cs; } else if b == i { assert cs[a] in cs; }
    }
  }

  /** A turn keeps the roster valid. */
  lemma TurnKeepsValid(grid: map<Point, bool>, cs: seq<Character>, i: nat)
    requires i < |cs| && ValidRoster(grid, cs)
    ensures ValidRoster(grid, Turn(grid, cs, i))
  {
    TurnEffects(grid, cs, i);
    var r := Turn(grid, cs, i);
    var mover := r[i];
    MovedKeepsValid(grid, cs, i, mover);
    var moved := cs[i := mover];
    forall a, b | 0 <= a < b < |r| && IsAlive(r[a]) && IsAlive(r[b]) ensures r[a].position != r[b].position {
      assert r[a].position == moved[a].position && r[b].position == moved[b].position;
      assert IsAlive(moved[a]) && IsAlive(moved[b]);
    }
    forall a | 0 <= a < |r| && IsAlive(r[a]) ensures Open(grid, r[a].position) {
      assert r[a].position == moved[a].position && IsAlive(moved[a]);
    }
  }

  /** The rest of a round keeps the roster valid. */
  lemma {:induction false} RoundFromKeepsValid(grid: map<Point, bool>, cs: seq<Character>, i: nat)
    requires i <= |cs| && ValidRoster(grid, cs)
    ensures ValidRoster(grid, RoundFrom(grid, cs, i).1)
    decreases |cs| - i
  {
    if i < |cs| {
      var i1 := i + 1;
      if !IsAlive(cs[i]) {
        RoundFromKeepsValid(grid, cs, i1);
      } else if !Complete(cs) {
        var next := Turn(grid, cs, i);
        TurnKeepsValid(grid, cs, i);
        RoundFromKeepsValid(grid, next, i1);
      }
    }
  }

  /** A round keeps the roster valid, and afterwards every unit is alive. */
  lemma RoundKeepsValid(grid: map<Point, bool>, cs: seq<Character>)
    requires ValidRoster(grid, cs)
    ensures ValidRoster(grid, Round(grid, cs).1)
    ensures forall c :: c in Round(grid, cs).1 ==> IsAlive(c)
  {
    var sorted := SortByPosition(cs);
    SortKeepsValid(grid, cs);
    RoundFromKeepsValid(grid, sorted, 0);
    LivingKeepsValid(grid, RoundFrom(grid, sorted, 0).1);
  }

  /** One round of a battle, as `part1`'s loop plays it. */
  lemma BattleStep(grid: map<Point, bool>, cs: seq<Character>, t: nat, limit: nat, done: bool, next: seq<Character>)
    requires t < limit && Round(grid, cs) == (done, next)
    ensures Battle(grid, cs, t, limit) == if done then Some((t, next)) else Battle(grid, next, t + 1, limit)
  {
    RunStep(RoundOf(grid), cs, t, limit, done, next);
  }

  lemma RunStep(step: seq<Character> -> (bool, seq<Character>), cs: seq<Character>, t: nat, limit: nat,
                done: bool, next: seq<Character>)
    requires t < limit && step(cs) == (done, next)
    ensures Run(step, cs, t, limit) == if done then Some((t, next)) else Run(step, next, t + 1, limit)
  {
  }

  /** `part1`'s count: a run that ends reports the index of the first
      round that reports the end, and every earlier round completed. */
  lemma {:induction false} RunCountsRounds(step: seq<Character> -> (bool, seq<Character>),
                                           c0: seq<Character>, cs: seq<Character>, t0: nat, limit: nat)
    requires cs == Iterate(step, c0, t0)
    ensures var b := Run(step, cs, t0, limit);
            b.Some? ==> (t0 <= b.value.0 < limit
                         && step(Iterate(step, c0, b.value.0)) == (true, b.value.1)
                         && forall j :: t0 <= j < b.value.0 ==> !step(Iterate(step, c0, j)).0)
    ensures Run(step, cs, t0, limit).None? ==>
            forall j :: t0 <= j < limit ==> !step(Iterate(step, c0, j)).0
    decreases if t0 >= limit then 0 else limit - t0
  {
    if t0 < limit {
      var t1 := t0 + 1;
      var r := step(cs);
      if !r.0 {
        var next := r.1;
        assert Iterate(step, c0, t1) == next;
        RunCountsRounds(step, c0, next, t1, limit);
      }
    }
  }

  /** The same for the battle: its count is the number of rounds that
      completed before the one finding combat over. */
  lemma BattleCountsRounds(grid: map<Point, bool>, cs: seq<Character>, fuel: nat)
    ensures var b := Battle(grid, cs, 0, fuel);
            b.Some? ==> (b.value.0 < fuel
                         && Round(grid, Iterate(RoundOf(grid), cs, b.value.0)) == (true, b.value.1)
                         && forall j :: 0 <= j < b.value.0 ==> !Round(grid, Iterate(RoundOf(grid), cs, j)).0)
  {
    RunCountsRounds(RoundOf(grid), cs, cs, 0, fuel);
  }

  /** The answer `part1` prints for a finished battle. */
  function Outcome(b: Option<(nat, seq<Character>)>): Option<int> {
    match b
    case None => None
    case Some((t, fin)) => Some(t * TotalHealth(fin))
  }

  // ---------------------------------------------------------------------
  // part2: raising the elves' attack power

  /** The number of elves of a roster. */
  function ElfCount(cs: seq<Character>): nat {
    if cs == [] then 0
    else ElfCount(cs[..|cs| - 1]) + if cs[|cs| - 1].race == Elf then 1 else 0
  }

  /** A unit with the elves' attack power raised to `attack`. */
  function Armed(c: Character, attack: int): Character {
    if c.race == Elf then c.(attackPower := attack) else c
  }

  /** The roster `part2` starts a battle with. */
  function WithElfAttack(cs: seq<Character>, attack: int): (r: seq<Character>)
    ensures |r| == |cs| && forall i :: 0 <= i < |cs| ==> r[i] == Armed(cs[i], attack)
  {
    if cs == [] then []
    else WithElfAttack(cs[..|cs| - 1], attack) + [Armed(cs[|cs| - 1], attack)]
  }

  /** Arming the elves changes neither who stands where nor the number of
      elves. */
  lemma WithElfAttackKeepsValid(grid: map<Point, bool>, cs: seq<Character>, attack: int)
    ensures ValidRoster(grid, WithElfAttack(cs, attack)) <==> ValidRoster(grid, cs)
    ensures ElfCount(WithElfAttack(cs, attack)) == ElfCount(cs)
  {
    ArmedKeepsValid(grid, cs, attack);
    ArmedElfCount(cs, attack);
  }

  lemma ArmedKeepsValid(grid: map<Point, bool>, cs: seq<Character>, attack: int)
    ensures ValidRoster(grid, WithElfAttack(cs, attack)) <==> ValidRoster(grid, cs)
  {
    var r := WithElfAttack(cs, attack);
    assert forall i :: 0 <= i < |cs| ==> r[i].position == cs[i].position && r[i].dead == cs[i].dead;
  }

  lemma {:induction false} ArmedElfCount(cs: seq<Character>, attack: int)
    ensures ElfCount(WithElfAttack(cs, attack)) == ElfCount(cs)
  {
    if cs != [] {
      var prefix := cs[..|cs| - 1];
      var r := WithElfAttack(cs, attack);
      ArmedElfCount(prefix, attack);
      assert r[..|r| - 1] == WithElfAttack(prefix, attack);
    }
  }

  /** The first attack power from `attack` on, of at most `attackFuel`, whose
      battle (`battle`) ends with all `elves` elves left, scored. */
  ghost function FirstSparing(battle: int -> Option<(nat, seq<Character>)>, elves: nat, attack: int, attackFuel: nat)
    : Option<int>
    decreases attackFuel
  {
    if attackFuel == 0 then None
    else
      match battle(attack)
      case None => None
      case Some((t, fin)) =>
        if ElfCount(fin) == elves then Some(t * TotalHealth(fin))
        else FirstSparing(battle, elves, attack + 1, attackFuel - 1)
  }

  /** The battle `part2` fights with elf attack power `attack`. */
  ghost function ArmedBattle(grid: map<Point, bool>, cs: seq<Character>, attack: int, roundFuel: nat)
    : Option<(nat, seq<Character>)>
  {
    Battle(grid, WithElfAttack(cs, attack), 0, roundFuel)
  }

  /** The battles of `part2`, by attack power, at most `roundFuel` rounds
      each. */
  ghost function ArmedBattles(grid: map<Point, bool>, cs: seq<Character>, roundFuel: nat)
    : int -> Option<(nat, seq<Character>)>
  {
    a => ArmedBattle(grid, cs, a, roundFuel)
  }

  /** An answer of the search is the score of the battle at the first
      attack power from `attack` on that leaves every elf, and every lower
      power tried lost an elf. */
  lemma {:induction false} FirstSparingIsFirst(battle: int -> Option<(nat, seq<Character>)>, elves: nat,
                                               attack: int, attackFuel: nat)
    ensures var answer := FirstSparing(battle, elves, attack, attackFuel);
            answer.Some? ==> exists a :: (attack <= a < attack + attackFuel
              && battle(a).Some? && ElfCount(battle(a).value.1) == elves && answer == Outcome(battle(a))
              && forall b :: attack <= b < a ==> battle(b).Some? && ElfCount(battle(b).value.1) != elves)
    decreases attackFuel
  {
    if attackFuel > 0 && battle(attack).Some? && ElfCount(battle(attack).value.1) != elves {
      var a1 := attack + 1;
      var f1 := attackFuel - 1;
      FirstSparingIsFirst(battle, elves, a1, f1);
    }
  }
}
