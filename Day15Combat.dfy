/** Day 15, the combat simulation: the roster of units over a fixed wall
    map, the search for a unit's next step, the round (`tick`) in which
    every living unit, in reading order, moves one step towards the nearest
    enemy and then attacks, and the two battles the puzzle asks for. */
module Day15Combat {
  import opened Wrappers
  import opened Day15Units
  import opened Day15Search
  import opened Day15Bfs
  import opened Day15Roster

  /** The neighbours the search collects for a popped cell: those not yet in
      `came_from` that are open floor. */
  function Unvisited(grid: map<Point, bool>, cameFrom: map<Point, Point>, ps: seq<Point>): (r: seq<Point>)
    requires forall p :: p in ps ==> p in grid
    ensures forall x :: x in r <==> x in ps && x !in cameFrom && grid[x]
  {
    if ps == [] then []
    else
      var rest := Unvisited(grid, cameFrom, ps[1..]);
      if ps[0] !in cameFrom && grid[ps[0]] then [ps[0]] + rest else rest
  }

  /** One more found cell: its entry, its layer and its heap entry. */
  lemma FoundGrows(cameFrom: map<Point, Point>, depth: map<Point, nat>, heap: set<(nat, Point)>,
                   next: Point, distance: nat, found: set<Point>, n: Point)
    requires n != next
    ensures cameFrom + Labels(cameFrom, next, found + {n})
            == (cameFrom + Labels(cameFrom, next, found))[n := if next in cameFrom then cameFrom[next] else n]
    ensures depth + Depths(found + {n}, distance) == (depth + Depths(found, distance))[n := distance + 1]
    ensures heap + Pushed(found + {n}, distance) == heap + Pushed(found, distance) + {(distance + 1, n)}
  {
  }

  class Simulation {
    var characters: seq<Character>
    const grid: map<Point, bool>

    constructor (grid: map<Point, bool>, characters: seq<Character>)
      ensures this.grid == grid && this.characters == characters
    {
      this.grid := grid;
      this.characters := characters;
    }

    /** `remove_dead`: drops the dead units, keeping the order. */
    method RemoveDead()
      modifies this
      ensures characters == Living(old(characters))
    {
      var cs := characters;
      var kept: seq<Character> := [];
      for i := 0 to |cs|
        invariant kept == Living(cs[..i])
      {
        assert cs[..i + 1][..i] == cs[..i];
        if IsAlive(cs[i]) {
          kept := kept + [cs[i]];
        }
      }
      assert cs[..|cs|] == cs;
      characters := kept;
    }

    /** `tick`: sorts the roster by position, then plays the round. */
    method Tick() returns (done: bool)
      requires Walled(grid) && ValidRoster(grid, characters)
      modifies this
      ensures (done, characters) == Round(grid, old(characters))
      ensures ValidRoster(grid, characters)
    {
      SortKeepsValid(grid, characters);
      characters := SortByPosition(characters);
      done := PlayTurns();
    }

    /** The turn loop of `tick`: every living unit takes its turn in roster
        order, stopping before the first one that finds combat over; the
        dead are removed at the end either way. */
    method PlayTurns() returns (done: bool)
      requires Walled(grid) && ValidRoster(grid, characters)
      modifies this
      ensures done == RoundFrom(grid, old(characters), 0).0
      ensures characters == Living(RoundFrom(grid, old(characters), 0).1)
      ensures ValidRoster(grid, characters)
    {
      ghost var start := characters;
      for i := 0 to |characters|
        invariant |characters| == |start|
        invariant ValidRoster(grid, characters)
        invariant RoundFrom(grid, characters, i) == RoundFrom(grid, start, 0)
      {
        if !IsAlive(characters[i]) {
          continue;
        }
        if Complete(characters) {
          LivingKeepsValid(grid, characters);
          RemoveDead();
          return true;
        }
        TakeTurn(i);
      }
      LivingKeepsValid(grid, characters);
      RemoveDead();
      return false;
    }

    /** The `for t in 0..` loop of `part1` and `part2`, for at most `fuel`
        rounds: the number of rounds completed and the roster once a round
        finds combat over. */
    method Play(fuel: nat) returns (r: Option<(nat, seq<Character>)>)
      requires Walled(grid) && ValidRoster(grid, characters)
      modifies this
      ensures r == Battle(grid, old(characters), 0, fuel)
    {
      var t: nat := 0;
      while t < fuel
        invariant t <= fuel
        invariant ValidRoster(grid, characters)
        invariant Battle(grid, old(characters), 0, fuel) == Battle(grid, characters, t, fuel)
      {
        var done := PlayRound(t, fuel);
        if done {
          return Some((t, characters));
        }
        t := t + 1;
      }
      return None;
    }

    /** One round of `Play`: the battle from round `t` either ends with it
        or goes on from the next round. */
    method PlayRound(ghost t: nat, ghost limit: nat) returns (done: bool)
      requires t < limit
      requires Walled(grid) && ValidRoster(grid, characters)
      modifies this
      ensures ValidRoster(grid, characters)
      ensures Battle(grid, old(characters), t, limit)
              == if done then Some((t, characters)) else Battle(grid, characters, t + 1, limit)
    {
      ghost var before := characters;
      done := Tick();
      BattleStep(grid, before, t, limit, done, characters);
    }

    /** The body of `tick`'s loop for a living unit `i`: it moves, if it
        finds a step, then attacks, if an enemy stands beside it. */
    method TakeTurn(i: nat)
      requires Walled(grid) && ValidRoster(grid, characters)
      requires i < |characters| && IsAlive(characters[i])
      modifies this
      ensures characters == Turn(grid, old(characters), i)
      ensures ValidRoster(grid, characters)
    {
      ghost var before := characters;
      var nextMove := FindMove(characters[i]);
      if nextMove.Some? {
        characters := characters[i := characters[i].(position := nextMove.value)];
      }
      assert characters == before[i := Mover(grid, before, i)];
      var enemy := EnemyToAttack(characters, characters[i]);
      if enemy.Some? {
        var attack := characters[i].attackPower;
        characters := characters[enemy.value := TakeHit(characters[enemy.value], attack)];
      }
      TurnKeepsValid(grid, before, i);
    }

    /** `find_move`: the step unit `c` takes this turn, if any. */
    method FindMove(c: Character) returns (r: Option<Point>)
      requires Walled(grid) && ValidRoster(grid, characters)
      requires c in characters && IsAlive(c)
      ensures r == Move(SceneFor(grid, characters, c))
    {
      var targets := EnemyPositions(characters, c.race);
      var blocked := LivingPositions(characters);
      ghost var s := Scene(grid, blocked, targets, c.position);
      assert WellFormed(s);

      var cameFrom: map<Point, Point> := map[];
      var heap: set<(nat, Point)> := {(0, c.position)};
      ghost var depth: map<Point, nat> := map[];
      ghost var k: nat := 0;
      ghost var popped: set<Point> := {};
      InitialState(s);

      while heap != {}
        invariant SearchState(s, heap, cameFrom, depth, k, popped)
        decreases |Cells(s) - cameFrom.Keys|, |heap|
      {
        ghost var m := Pop(s, heap, cameFrom, depth, k, popped);
        var e :| IsMinEntry(e, heap);
        var (distance, next) := e;
        ghost var heap0, cf0, depth0 := heap, cameFrom, depth;
        heap := heap - {e};
        var neighbors := Unvisited(grid, cameFrom, Adjacent(next));
        NotOwnNeighbour(next);
        var hit;
        hit, cameFrom, heap, depth := RecordNeighbors(next, neighbors, targets, blocked, cameFrom, heap, distance, depth);
        if hit {
          ghost var i :| 0 <= i < |neighbors| && neighbors[i] in targets;
          Hit(s, heap0, cf0, depth0, k, popped, m, neighbors[i]);
          return if next in cameFrom then Some(cameFrom[next]) else None;
        }
        ghost var found := Discovered(blocked, neighbors);
        NoEnemyBeside(s, m, cf0, neighbors);
        assert forall x :: x in found <==> x in Adjacent(m) && x !in cf0 && Free(s, x);
        k, popped := Miss(s, heap0, cf0, depth0, k, popped, m, found);
      }
      Exhausted(s, heap, cameFrom, depth, k, popped);
      return None;
    }
  }

  /** The `for neighbor in neighbors` loop of `find_move`: it stops at the
      first neighbour holding an enemy (`hit`), skips those holding any
      other living unit, and records and pushes the rest. */
  method RecordNeighbors(next: Point, neighbors: seq<Point>, targets: set<Point>, blocked: set<Point>,
                         cameFrom: map<Point, Point>, heap: set<(nat, Point)>, distance: nat,
                         ghost depth: map<Point, nat>)
    returns (hit: bool, cameFrom': map<Point, Point>, heap': set<(nat, Point)>, ghost depth': map<Point, nat>)
    requires next !in neighbors
    ensures hit <==> exists i :: 0 <= i < |neighbors| && neighbors[i] in targets
    ensures next in cameFrom' <==> next in cameFrom
    ensures next in cameFrom ==> cameFrom'[next] == cameFrom[next]
    ensures !hit ==> cameFrom' == cameFrom + Labels(cameFrom, next, Discovered(blocked, neighbors))
    ensures !hit ==> depth' == depth + Depths(Discovered(blocked, neighbors), distance)
    ensures !hit ==> heap' == heap + Pushed(Discovered(blocked, neighbors), distance)
  {
    cameFrom', heap', depth' := cameFrom, heap, depth;
    var j := 0;
    while j < |neighbors|
      invariant 0 <= j <= |neighbors|
      invariant cameFrom' == cameFrom + Labels(cameFrom, next, Discovered(blocked, neighbors[..j]))
      invariant depth' == depth + Depths(Discovered(blocked, neighbors[..j]), distance)
      invariant heap' == heap + Pushed(Discovered(blocked, neighbors[..j]), distance)
      invariant forall i :: 0 <= i < j ==> neighbors[i] !in targets
    {
      var neighbor := neighbors[j];
      assert neighbors[..j + 1] == neighbors[..j] + [neighbor];
      if neighbor in targets {
        return true, cameFrom', heap', depth';
      } else if neighbor in blocked {
        assert Discovered(blocked, neighbors[..j + 1]) == Discovered(blocked, neighbors[..j]);
      } else {
        var prev := if next in cameFrom' then cameFrom'[next] else neighbor;
        FoundGrows(cameFrom, depth, heap, next, distance, Discovered(blocked, neighbors[..j]), neighbor);
        assert Discovered(blocked, neighbors[..j + 1]) == Discovered(blocked, neighbors[..j]) + {neighbor};
        cameFrom' := cameFrom'[neighbor := prev];
        depth' := depth'[neighbor := distance + 1];
        heap' := heap' + {(distance + 1, neighbor)};
      }
      j := j + 1;
    }
    assert neighbors[..j] == neighbors;
    hit := false;
  }

  /** No enemy among the open unrecorded neighbours means no enemy beside
      the cell at all, since recorded cells are never occupied. */
  lemma NoEnemyBeside(s: Scene, m: Point, cameFrom: map<Point, Point>, neighbors: seq<Point>)
    requires WellFormed(s) && forall n :: n in cameFrom ==> Free(s, n)
    requires forall x :: x in neighbors <==> x in Adjacent(m) && x !in cameFrom && Open(s.grid, x)
    requires forall i :: 0 <= i < |neighbors| ==> neighbors[i] !in s.targets
    ensures !NextToTarget(s, m)
  {
  }

  /** The grid lookups of the search never miss. */
  lemma AdjacentInGrid(s: Scene, p: Point)
    requires Walled(s.grid) && Open(s.grid, p)
    ensures forall q :: q in Adjacent(p) ==> q in s.grid
  {
  }

  lemma NotOwnNeighbour(p: Point)
    ensures p !in Adjacent(p)
  {
  }

  /** A fresh simulation of `characters`, played for at most `fuel`
      rounds. */
  method Fight(grid: map<Point, bool>, characters: seq<Character>, fuel: nat)
    returns (r: Option<(nat, seq<Character>)>)
    requires Walled(grid) && ValidRoster(grid, characters)
    ensures r == Battle(grid, characters, 0, fuel)
  {
    var simulation := new Simulation(grid, characters);
    r := simulation.Play(fuel);
  }

  /** `part1`: the number of full rounds times the health left. */
  method Part1(grid: map<Point, bool>, characters: seq<Character>, fuel: nat) returns (answer: Option<int>)
    requires Walled(grid) && ValidRoster(grid, characters)
    ensures answer == Outcome(Battle(grid, characters, 0, fuel))
  {
    var r := Fight(grid, characters, fuel);
    answer := if r.Some? then Some(r.value.0 * TotalHealth(r.value.1)) else None;
  }

  /** `part2`: from attack power 4 up, the first battle no elf dies in, scored
      as in `part1`; at most `attackFuel` powers are tried. */
  method Part2(grid: map<Point, bool>, characters: seq<Character>, attackFuel: nat, roundFuel: nat)
    returns (answer: Option<int>)
    requires Walled(grid) && ValidRoster(grid, characters)
    ensures answer == FirstSparing(ArmedBattles(grid, characters, roundFuel), ElfCount(characters), 4, attackFuel)
  {
    ghost var battles := ArmedBattles(grid, characters, roundFuel);
    var totalElfCount := ElfCount(characters);
    var attack := 4;
    var left: nat := attackFuel;
    while left > 0
      invariant FirstSparing(battles, totalElfCount, 4, attackFuel) == FirstSparing(battles, totalElfCount, attack, left)
    {
      var armed := WithElfAttack(characters, attack);
      WithElfAttackKeepsValid(grid, characters, attack);
      var r := Fight(grid, armed, roundFuel);
      assert r == battles(attack);
      if r.None? {
        assert FirstSparing(battles, totalElfCount, attack, left) == None;
        return None;
      }
      var (t, survivors) := r.value;
      assert FirstSparing(battles, totalElfCount, attack, left)
          == if ElfCount(survivors) == totalElfCount then Some(t * TotalHealth(survivors))
             else FirstSparing(battles, totalElfCount, attack + 1, left - 1);
      if ElfCount(survivors) == totalElfCount {
        return Some(t * TotalHealth(survivors));
      }
      attack := attack + 1;
      left := left - 1;
    }
    return None;
  }
}
