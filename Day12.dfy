/** Day 12: Subterranean Sustainability.  A row of pots evolves as a
    one-dimensional cellular automaton: the next state of each pot is the
    rule for the five pots centred on it.  Part 1 sums the numbers of the
    pots holding a plant after 20 generations; part 2 runs until the sum
    grows by the same amount twice in a row and extrapolates that growth to
    generation 50 000 000 000. */
module Day12 {
  import opened Wrappers
  import opened Text
  import opened Maxima

  /** Pot number to its character.  The initial state lists its `.` pots
      as well; the states `calculate` returns hold only `#` pots. */
  type Pots = map<int, char>

  /** Five-character window to the next character of the centre pot. */
  type Rules = map<string, char>

  // ---------------------------------------------------------------------
  // one generation

  /** `state.get(&j).cloned().unwrap_or('.')`. */
  function Pot(state: Pots, i: int): char {
    if i in state then state[i] else '.'
  }

  /** The pots `i - 2 ..= i + 2` as a string. */
  function Window(state: Pots, i: int): string {
    [Pot(state, i - 2), Pot(state, i - 1), Pot(state, i), Pot(state, i + 1), Pot(state, i + 2)]
  }

  /** The rule for a window, `.` when there is none. */
  function NextPot(rules: Rules, w: string): char {
    if w in rules then rules[w] else '.'
  }

  /** The automaton gives pot `i` a plant in the next generation. */
  predicate Grows(rules: Rules, state: Pots, i: int) {
    NextPot(rules, Window(state, i)) == '#'
  }

  /** The pots of `start ..= end` that grow, each mapped to `#`: the
      `map`, `filter` and `collect` over the range. */
  function Generation(rules: Rules, state: Pots, start: int, end: int): Pots
    decreases end - start
  {
    if start > end then map[]
    else
      var rest := Generation(rules, state, start + 1, end);
      if Grows(rules, state, start) then rest[start := '#'] else rest
  }

  /** `calculate`: the pots from one before the least to one after the
      greatest pot number that grow.  An empty state has no least pot
      (`min().unwrap()` panics) and gives None. */
  function Calculate(rules: Rules, state: Pots): Option<Pots> {
    if state.Keys == {} then None
    else Some(Generation(rules, state, Least(state.Keys) - 1, Greatest(state.Keys) + 1))
  }

  /** `calculate` looking two pots beyond each end, far enough for every
      window that reaches a listed pot. */
  function CalculateFull(rules: Rules, state: Pots): Option<Pots> {
    if state.Keys == {} then None
    else Some(Generation(rules, state, Least(state.Keys) - 2, Greatest(state.Keys) + 2))
  }

  lemma {:induction false} GenerationMeans(rules: Rules, state: Pots, start: int, end: int)
    ensures forall i :: i in Generation(rules, state, start, end) <==> start <= i <= end && Grows(rules, state, i)
    ensures forall i :: i in Generation(rules, state, start, end) ==> Generation(rules, state, start, end)[i] == '#'
    decreases end - start
  {
    if start <= end {
      GenerationMeans(rules, state, start + 1, end);
    }
  }

  /** Far from every listed pot the window is five empty pots. */
  lemma EmptyWindow(state: Pots, i: int)
    requires state.Keys != {}
    requires i < Least(state.Keys) - 2 || i > Greatest(state.Keys) + 2
    ensures Window(state, i) == "....."
  {
    var l := Least(state.Keys);
    var g := Greatest(state.Keys);
    assert forall j :: i - 2 <= j <= i + 2 ==> j !in state;
  }

  /** When the rule for five empty pots gives no plant, the corrected
      generation is exactly the automaton's next generation at every pot. */
  lemma CalculateFullIsStep(rules: Rules, state: Pots)
    requires state.Keys != {} && NextPot(rules, ".....") != '#'
    ensures forall i :: i in CalculateFull(rules, state).value <==> Grows(rules, state, i)
    ensures forall i :: i in CalculateFull(rules, state).value ==> CalculateFull(rules, state).value[i] == '#'
  {
    var l := Least(state.Keys);
    var g := Greatest(state.Keys);
    GenerationMeans(rules, state, l - 2, g + 2);
    forall i | Grows(rules, state, i) ensures l - 2 <= i <= g + 2 {
      if i < l - 2 || i > g + 2 {
        EmptyWindow(state, i);
      }
    }
  }

  /** As written, `calculate` misses a plant that grows two pots beyond an
      end: from the single plant at 0, the rule `....# => #` puts a plant at
      -2, which the range `-1 ..= 1` does not reach. */
  lemma NarrowMissesPlant()
    ensures Grows(map["....#" := '#'], map[0 := '#'], -2)
    ensures -2 !in Calculate(map["....#" := '#'], map[0 := '#']).value
  {
    var state := map[0 := '#'];
    assert state.Keys == {0};
    assert Least(state.Keys) == 0;
    assert Window(state, -2) == "....#";
  }

  /** Rules under which no plant grows two pots beyond the ends. */
  predicate EdgesQuiet(rules: Rules) {
    NextPot(rules, ".....") != '#' && NextPot(rules, "....#") != '#' && NextPot(rules, "#....") != '#'
  }

  /** Every pot is `#` or `.`. */
  predicate Binary(state: Pots) {
    forall i :: i in state ==> state[i] == '#' || state[i] == '.'
  }

  /** Under those rules the program's `calculate` is the corrected one. */
  lemma CalculateAgrees(rules: Rules, state: Pots)
    requires state.Keys != {} && EdgesQuiet(rules) && Binary(state)
    ensures Calculate(rules, state) == CalculateFull(rules, state)
  {
    var l := Least(state.Keys);
    var g := Greatest(state.Keys);
    GenerationMeans(rules, state, l - 1, g + 1);
    GenerationMeans(rules, state, l - 2, g + 2);
    assert !Grows(rules, state, l - 2) by {
      assert l - 4 !in state && l - 3 !in state && l - 2 !in state && l - 1 !in state;
      assert Window(state, l - 2) == "...." + [Pot(state, l)];
    }
    assert !Grows(rules, state, g + 2) by {
      assert g + 4 !in state && g + 3 !in state && g + 2 !in state && g + 1 !in state;
      assert Window(state, g + 2) == [Pot(state, g)] + "....";
    }
    var narrow := Generation(rules, state, l - 1, g + 1);
    var wide := Generation(rules, state, l - 2, g + 2);
    assert forall i :: i in narrow <==> i in wide;
    assert forall i :: i in narrow ==> narrow[i] == wide[i];
    assert narrow == wide;
  }

  // ---------------------------------------------------------------------
  // part 1

  /** The state after `n` generations, None when a generation panics. */
  function Iterate(rules: Rules, state: Pots, n: nat): Option<Pots> {
    if n == 0 then Some(state)
    else
      match Iterate(rules, state, n - 1)
      case None => None
      case Some(s) => Calculate(rules, s)
  }

  /** The numbers of the pots holding a plant. */
  function Plants(state: Pots): set<int> {
    set i | i in state && state[i] == '#'
  }

  /** The sum of a set of numbers, taken least first. */
  function SetSum(s: set<int>): int
    decreases |s|
  {
    if s == {} then 0 else var m := Least(s); m + SetSum(s - {m})
  }

  /** The sum does not depend on the order: any element may be taken first,
      so the `HashMap`'s iteration order does not change the answer. */
  lemma {:induction false} SetSumRemove(s: set<int>, x: int)
    requires x in s
    ensures SetSum(s) == x + SetSum(s - {x})
    decreases |s|
  {
    var m := Least(s);
    if x != m {
      SetSumRemove(s - {m}, x);
      SetSumRemove(s - {x}, m);
      assert Least(s - {x}) == m;
      assert s - {m} - {x} == s - {x} - {m};
    }
  }

  /** `filter(#).map(i).sum()`. */
  function PlantSum(state: Pots): int {
    SetSum(Plants(state))
  }

  /** part 1: the plant sum after 20 generations. */
  function Part1(rules: Rules, initial: Pots): Option<int> {
    match Iterate(rules, initial, 20)
    case None => None
    case Some(s) => Some(PlantSum(s))
  }

  /** One generation reaches at most one pot beyond each end, and keeps
      only plants. */
  lemma CalculateRange(rules: Rules, state: Pots)
    requires state.Keys != {}
    ensures forall i :: i in Calculate(rules, state).value ==>
              Least(state.Keys) - 1 <= i <= Greatest(state.Keys) + 1 && Calculate(rules, state).value[i] == '#'
  {
    GenerationMeans(rules, state, Least(state.Keys) - 1, Greatest(state.Keys) + 1);
  }

  /** After `n` generations every pot lies within `n` of the initial ends
      and holds a plant. */
  lemma {:induction false} IterateRange(rules: Rules, initial: Pots, n: nat)
    requires initial.Keys != {} && Iterate(rules, initial, n).Some?
    ensures forall i :: i in Iterate(rules, initial, n).value ==>
              Least(initial.Keys) - n <= i <= Greatest(initial.Keys) + n
    ensures n > 0 ==> forall i :: i in Iterate(rules, initial, n).value ==> Iterate(rules, initial, n).value[i] == '#'
  {
    if n > 0 {
      IterateRange(rules, initial, n - 1);
      var s := Iterate(rules, initial, n - 1).value;
      CalculateRange(rules, s);
      var l := Least(s.Keys);
      var g := Greatest(s.Keys);
      assert Least(initial.Keys) - (n - 1) <= l && g <= Greatest(initial.Keys) + (n - 1);
    }
  }

  // ---------------------------------------------------------------------
  // shifting a state

  /** `t` is `s` moved `k` to the right. */
  ghost predicate MovedSet(s: set<int>, t: set<int>, k: int) {
    forall i, j :: j == i + k ==> (i in s <==> j in t)
  }

  /** State `b` is state `a` moved `k` pots to the right. */
  ghost predicate Moved(a: Pots, b: Pots, k: int) {
    MovedSet(a.Keys, b.Keys, k) && forall i, j :: j == i + k && i in a && j in b ==> b[j] == a[i]
  }

  lemma MovedSetAt(s: set<int>, t: set<int>, k: int, i: int)
    requires MovedSet(s, t, k)
    ensures i in s <==> i + k in t
  {
    var j := i + k;
    assert i in s <==> j in t;
  }

  lemma MovedAt(a: Pots, b: Pots, k: int, i: int)
    requires Moved(a, b, k)
    ensures i in a <==> i + k in b
    ensures i in a ==> b[i + k] == a[i]
  {
    var j := i + k;
    assert i in a.Keys <==> j in b.Keys;
    if i in a {
      assert b[j] == a[i];
    }
  }

  lemma MovedTrans(a: Pots, b: Pots, c: Pots, k: int, l: int)
    requires Moved(a, b, k) && Moved(b, c, l)
    ensures Moved(a, c, k + l)
  {
    forall i, j | j == i + (k + l) ensures i in a <==> j in c {
      MovedAt(a, b, k, i);
      MovedAt(b, c, l, i + k);
    }
    forall i, j | j == i + (k + l) && i in a && j in c ensures c[j] == a[i] {
      MovedAt(a, b, k, i);
      MovedAt(b, c, l, i + k);
    }
  }

  lemma MovedUpdate(a: Pots, b: Pots, k: int, i: int, c: char)
    requires Moved(a, b, k)
    ensures Moved(a[i := c], b[i + k := c], k)
  {
    var a', b' := a[i := c], b[i + k := c];
    forall x, y | y == x + k ensures x in a' <==> y in b' {
      MovedAt(a, b, k, x);
    }
    forall x, y | y == x + k && x in a' && y in b' ensures b'[y] == a'[x] {
      MovedAt(a, b, k, x);
    }
  }

  /** The least and greatest of a moved set move with it. */
  lemma ExtremesMoved(s: set<int>, t: set<int>, k: int)
    requires s != {} && MovedSet(s, t, k)
    ensures t != {}
    ensures Least(t) == Least(s) + k && Greatest(t) == Greatest(s) + k
  {
    var l, g := Least(s), Greatest(s);
    MovedSetAt(s, t, k, l);
    MovedSetAt(s, t, k, g);
    forall y | y in t ensures l + k <= y <= g + k {
      MovedSetAt(s, t, k, y - k);
    }
    assert IsLeast(l + k, t);
    assert IsGreatest(g + k, t);
  }

  lemma PotMoved(a: Pots, b: Pots, k: int, j: int)
    requires Moved(a, b, k)
    ensures Pot(b, j + k) == Pot(a, j)
  {
    MovedAt(a, b, k, j);
  }

  lemma WindowMoved(a: Pots, b: Pots, k: int, i: int)
    requires Moved(a, b, k)
    ensures Window(b, i + k) == Window(a, i)
  {
    PotMoved(a, b, k, i - 2);
    PotMoved(a, b, k, i - 1);
    PotMoved(a, b, k, i);
    PotMoved(a, b, k, i + 1);
    PotMoved(a, b, k, i + 2);
    assert i - 2 + k == i + k - 2 && i - 1 + k == i + k - 1;
    assert i + 1 + k == i + k + 1 && i + 2 + k == i + k + 2;
  }

  lemma {:induction false} GenerationMoved(rules: Rules, a: Pots, b: Pots, k: int, start: int, end: int)
    requires Moved(a, b, k)
    ensures Moved(Generation(rules, a, start, end), Generation(rules, b, start + k, end + k), k)
    decreases end - start
  {
    if start > end {
      assert start + k > end + k;
    } else {
      GenerationMoved(rules, a, b, k, start + 1, end);
      WindowMoved(a, b, k, start);
      var restA := Generation(rules, a, start + 1, end);
      var restB := Generation(rules, b, start + 1 + k, end + k);
      assert start + 1 + k == start + k + 1;
      assert Generation(rules, b, start + k, end + k)
          == if Grows(rules, b, start + k) then restB[start + k := '#'] else restB;
      MovedUpdate(restA, restB, k, start, '#');
    }
  }

  /** The automaton does not depend on where the pots are: one generation
      of a moved state is the moved generation. */
  lemma CalculateMoved(rules: Rules, a: Pots, b: Pots, k: int)
    requires Moved(a, b, k)
    ensures Calculate(rules, b).Some? <==> Calculate(rules, a).Some?
    ensures Calculate(rules, a).Some? ==>
              Moved(Calculate(rules, a).value, Calculate(rules, b).value, k)
  {
    if a.Keys != {} {
      ExtremesMoved(a.Keys, b.Keys, k);
      var l, g := Least(a.Keys), Greatest(a.Keys);
      GenerationMoved(rules, a, b, k, l - 1, g + 1);
      assert l - 1 + k == Least(b.Keys) - 1 && g + 1 + k == Greatest(b.Keys) + 1;
    } else {
      forall y | y in b.Keys ensures false {
        MovedSetAt(a.Keys, b.Keys, k, y - k);
      }
      assert b.Keys == {};
    }
  }

  /** A state whose next generation is itself moved by `d` glides: after
      `n` generations it has moved by `n * d`. */
  lemma {:induction false} Glide(rules: Rules, state: Pots, next: Pots, d: int, n: nat)
    requires Calculate(rules, state) == Some(next) && Moved(state, next, d)
    ensures Iterate(rules, state, n).Some? && Moved(state, Iterate(rules, state, n).value, n * d)
  {
    if n == 0 {
      forall i, j | j == i + 0 * d && i in state ensures j in state && state[j] == state[i] {
      }
    } else {
      Glide(rules, state, next, d, n - 1);
      var s := Iterate(rules, state, n - 1).value;
      var e := (n - 1) * d;
      CalculateMoved(rules, state, s, e);
      MovedTrans(state, next, Calculate(rules, s).value, d, e);
      assert d + e == n * d;
    }
  }

  /** `a + b` generations are `a` generations and then `b` more. */
  lemma {:induction false} IterateAdd(rules: Rules, initial: Pots, a: nat, b: nat)
    requires Iterate(rules, initial, a).Some?
    ensures Iterate(rules, initial, a + b) == Iterate(rules, Iterate(rules, initial, a).value, b)
  {
    if b > 0 {
      IterateAdd(rules, initial, a, b - 1);
    }
  }

  /** Moving every number by `k` adds `k` to the sum once per number. */
  lemma {:induction false} SetSumMoved(s: set<int>, t: set<int>, k: int)
    requires MovedSet(s, t, k)
    ensures |t| == |s|
    ensures SetSum(t) == SetSum(s) + k * |s|
    decreases |s|
  {
    if s == {} {
      MovedEmpty(s, t, k);
    } else {
      var m := Least(s);
      var rest, restT := s - {m}, t - {m + k};
      MovedRemove(s, t, k, m);
      SetSumMoved(rest, restT, k);
      SetSumRemove(t, m + k);
      SetSumRemove(s, m);
      Distribute(k, |rest|);
    }
  }

  lemma Distribute(k: int, n: int)
    ensures k * (n + 1) == k * n + k
  {
  }

  /** Nothing moves to nothing. */
  lemma MovedEmpty(s: set<int>, t: set<int>, k: int)
    requires MovedSet(s, t, k) && s == {}
    ensures t == {}
  {
    forall y | y in t ensures false {
      MovedSetAt(s, t, k, y - k);
    }
  }

  /** Taking a number out of a set and its image out of the moved set
      keeps them moved. */
  lemma MovedRemove(s: set<int>, t: set<int>, k: int, m: int)
    requires MovedSet(s, t, k) && m in s
    ensures m + k in t && |t - {m + k}| == |t| - 1 && |s - {m}| == |s| - 1
    ensures MovedSet(s - {m}, t - {m + k}, k)
  {
    MovedSetAt(s, t, k, m);
    var rest, restT := s - {m}, t - {m + k};
    forall i, j | j == i + k ensures i in rest <==> j in restT {
      MovedSetAt(s, t, k, i);
    }
  }

  /** The plant sum of a moved state. */
  lemma PlantSumMoved(a: Pots, b: Pots, k: int)
    requires Moved(a, b, k)
    ensures |Plants(b)| == |Plants(a)|
    ensures PlantSum(b) == PlantSum(a) + k * |Plants(a)|
  {
    assert MovedSet(Plants(a), Plants(b), k) by {
      forall i, j | j == i + k ensures i in Plants(a) <==> j in Plants(b) {
        MovedAt(a, b, k, i);
      }
    }
    SetSumMoved(Plants(a), Plants(b), k);
  }

  // ---------------------------------------------------------------------
  // part 2

  const Target := 50_000_000_000

  /** The `try_fold` over generations `g = 1, 2, ...`: the accumulator is
      the previous growth and sum (both 0 at the start, whatever the
      initial state) and the previous state; the fold stops with
      `(g, growth, sum)` at the first generation whose growth equals the
      previous one.  `limit` bounds the unbounded range. */
  function Stop(rules: Rules, state: Pots, g: nat, lastGrowth: int, lastSum: int, limit: nat): Option<(nat, int, int)>
    decreases if g > limit then 0 else limit + 1 - g
  {
    if g > limit then None
    else
      match Calculate(rules, state)
      case None => None
      case Some(next) =>
        var sum := PlantSum(next);
        var growth := sum - lastSum;
        if lastGrowth == growth then Some((g, growth, sum))
        else Stop(rules, next, g + 1, growth, sum, limit)
  }

  /** `sum + (50_000_000_000 - generation) * growth`. */
  function Extrapolate(sum: int, growth: int, g: int): int {
    sum + (Target - g) * growth
  }

  /** part 2: the last sum plus the last growth for each remaining
      generation. */
  function Part2(rules: Rules, initial: Pots, limit: nat): Option<int> {
    match Stop(rules, initial, 1, 0, 0, limit)
    case None => None
    case Some((g, growth, sum)) => Some(Extrapolate(sum, growth, g))
  }

  /** The sum the fold holds after generation `g`; the seed counts as 0. */
  function SeedSum(rules: Rules, initial: Pots, g: nat): Option<int> {
    if g == 0 then Some(0)
    else
      match Iterate(rules, initial, g)
      case None => None
      case Some(s) => Some(PlantSum(s))
  }

  /** The growth the fold computes at generation `g`; the seed counts as 0. */
  function Growth(rules: Rules, initial: Pots, g: nat): Option<int> {
    if g == 0 then Some(0)
    else
      var a := SeedSum(rules, initial, g);
      var b := SeedSum(rules, initial, g - 1);
      if a.Some? && b.Some? then Some(a.value - b.value) else None
  }

  /** Generation `g` grows as much as the one before. */
  predicate Steady(rules: Rules, initial: Pots, g: nat) {
    g >= 1 && Growth(rules, initial, g).Some? && Growth(rules, initial, g) == Growth(rules, initial, g - 1)
  }

  /** Every generation from 1 to `g - 1` was computed and was not steady. */
  predicate UnsteadyBefore(rules: Rules, initial: Pots, g: nat) {
    g <= 1 || (UnsteadyBefore(rules, initial, g - 1) && Growth(rules, initial, g - 1).Some? && !Steady(rules, initial, g - 1))
  }

  predicate FirstSteady(rules: Rules, initial: Pots, g: nat) {
    Steady(rules, initial, g) && UnsteadyBefore(rules, initial, g)
  }

  lemma {:induction false} IterateSome(rules: Rules, initial: Pots, g: nat, h: nat)
    requires h <= g && Iterate(rules, initial, g).Some?
    ensures Iterate(rules, initial, h).Some?
    decreases g
  {
    if h < g {
      IterateSome(rules, initial, g - 1, h);
    }
  }

  /** The fold as it stands after generation `g`, about to compute
      generation `g + 1`. */
  function StopAt(rules: Rules, initial: Pots, g: nat, limit: nat): Option<(nat, int, int)>
    requires Iterate(rules, initial, g).Some? && Growth(rules, initial, g).Some?
  {
    Stop(rules, Iterate(rules, initial, g).value, g + 1,
         Growth(rules, initial, g).value, SeedSum(rules, initial, g).value, limit)
  }

  lemma GrowthSome(rules: Rules, initial: Pots, g: nat)
    requires Iterate(rules, initial, g).Some?
    ensures Growth(rules, initial, g).Some?
  {
    if g > 0 {
      IterateSome(rules, initial, g, g - 1);
    }
  }

  /** One step of the fold, in terms of the generations. */
  lemma StopAtStep(rules: Rules, initial: Pots, g: nat, limit: nat)
    requires Iterate(rules, initial, g).Some? && Growth(rules, initial, g).Some?
    ensures g + 1 > limit || Iterate(rules, initial, g + 1).None? ==> StopAt(rules, initial, g, limit).None?
    ensures g + 1 <= limit && Steady(rules, initial, g + 1) ==>
              StopAt(rules, initial, g, limit) == Some((g + 1, Growth(rules, initial, g + 1).value, SeedSum(rules, initial, g + 1).value))
    ensures g + 1 <= limit && Iterate(rules, initial, g + 1).Some? && !Steady(rules, initial, g + 1) ==>
              Growth(rules, initial, g + 1).Some? && StopAt(rules, initial, g, limit) == StopAt(rules, initial, g + 1, limit)
  {
    var state := Iterate(rules, initial, g).value;
    IterateNext(rules, initial, g);
    if g + 1 <= limit && Iterate(rules, initial, g + 1).Some? {
      SeedSumNext(rules, initial, g);
      GrowthNext(rules, initial, g);
      StopUnfold(rules, state, g + 1, Growth(rules, initial, g).value, SeedSum(rules, initial, g).value, limit);
    }
  }

  lemma IterateNext(rules: Rules, initial: Pots, g: nat)
    requires Iterate(rules, initial, g).Some?
    ensures Iterate(rules, initial, g + 1) == Calculate(rules, Iterate(rules, initial, g).value)
  {
  }

  lemma SeedSumNext(rules: Rules, initial: Pots, g: nat)
    requires Iterate(rules, initial, g + 1).Some?
    ensures SeedSum(rules, initial, g + 1) == Some(PlantSum(Iterate(rules, initial, g + 1).value))
  {
  }

  lemma GrowthNext(rules: Rules, initial: Pots, g: nat)
    requires Iterate(rules, initial, g).Some? && Iterate(rules, initial, g + 1).Some?
    ensures Growth(rules, initial, g + 1) == Some(SeedSum(rules, initial, g + 1).value - SeedSum(rules, initial, g).value)
  {
  }

  lemma StopUnfold(rules: Rules, state: Pots, g: nat, lastGrowth: int, lastSum: int, limit: nat)
    requires g <= limit && Calculate(rules, state).Some?
    ensures var next := Calculate(rules, state).value;
            var growth := PlantSum(next) - lastSum;
            Stop(rules, state, g, lastGrowth, lastSum, limit)
            == if lastGrowth == growth then Some((g, growth, PlantSum(next)))
               else Stop(rules, next, g + 1, growth, PlantSum(next), limit)
  {
  }

  /** The fold standing after generation `g` stops at the first steady
      generation after `g`. */
  lemma {:induction false} StopFrom(rules: Rules, initial: Pots, g: nat, limit: nat)
    requires Iterate(rules, initial, g).Some? && Growth(rules, initial, g).Some?
    requires UnsteadyBefore(rules, initial, g + 1)
    ensures StopAt(rules, initial, g, limit).Some? ==>
              var r := StopAt(rules, initial, g, limit).value;
              g < r.0 <= limit && FirstSteady(rules, initial, r.0)
              && Growth(rules, initial, r.0) == Some(r.1) && SeedSum(rules, initial, r.0) == Some(r.2)
    ensures StopAt(rules, initial, g, limit).None? ==>
              forall h :: g < h <= limit ==> !FirstSteady(rules, initial, h)
    decreases if g >= limit then 0 else limit - g
  {
    StopAtStep(rules, initial, g, limit);
    var g' := g + 1;
    if g' <= limit {
      if Iterate(rules, initial, g').None? {
        forall h | g < h <= limit ensures !FirstSteady(rules, initial, h) {
          NotSteadyAfterNone(rules, initial, g', h);
        }
      } else if !Steady(rules, initial, g') {
        StopFrom(rules, initial, g', limit);
      }
    }
  }

  /** Once a generation panics, no later one is steady. */
  lemma NotSteadyAfterNone(rules: Rules, initial: Pots, g: nat, h: nat)
    requires 1 <= g <= h && Iterate(rules, initial, g).None?
    ensures !FirstSteady(rules, initial, h)
  {
    if Iterate(rules, initial, h).Some? {
      IterateSome(rules, initial, h, g);
    }
  }

  /** Part 2 stops at the first generation `g` whose growth equals the
      previous one (generation 1's growth is its sum, compared with 0), and
      answers that generation's sum plus its growth once for each of the
      `50 000 000 000 - g` remaining generations; None means no generation
      within the limit is such a first steady one. */
  lemma Part2Means(rules: Rules, initial: Pots, limit: nat)
    ensures Part2(rules, initial, limit).Some? ==>
              exists g :: 1 <= g <= limit && FirstSteady(rules, initial, g)
                       && Part2(rules, initial, limit) == Some(Extrapolate(SeedSum(rules, initial, g).value, Growth(rules, initial, g).value, g))
    ensures Part2(rules, initial, limit).None? ==> forall g :: 1 <= g <= limit ==> !FirstSteady(rules, initial, g)
  {
    StopAtStart(rules, initial, limit);
    StopFrom(rules, initial, 0, limit);
    var r := Stop(rules, initial, 1, 0, 0, limit);
    if r.Some? {
      var (g, growth, sum) := r.value;
      assert SeedSum(rules, initial, g).value == sum && Growth(rules, initial, g).value == growth;
    }
  }

  /** The fold starts as if standing after a generation 0 with sum and
      growth 0. */
  lemma StopAtStart(rules: Rules, initial: Pots, limit: nat)
    ensures Iterate(rules, initial, 0) == Some(initial)
    ensures Growth(rules, initial, 0) == Some(0) && SeedSum(rules, initial, 0) == Some(0)
    ensures StopAt(rules, initial, 0, limit) == Stop(rules, initial, 1, 0, 0, limit)
  {
  }

  /** Before the first steady generation no generation from 1 on is steady. */
  lemma {:induction false} UnsteadyBeforeMeans(rules: Rules, initial: Pots, g: nat, h: nat)
    requires UnsteadyBefore(rules, initial, g) && 1 <= h < g
    ensures !Steady(rules, initial, h)
    decreases g
  {
    if h < g - 1 {
      UnsteadyBeforeMeans(rules, initial, g - 1, h);
    }
  }

  /** Only one generation is the first steady one. */
  lemma FirstSteadyUnique(rules: Rules, initial: Pots, g: nat, h: nat)
    requires FirstSteady(rules, initial, g) && FirstSteady(rules, initial, h)
    ensures g == h
  {
    if g < h {
      UnsteadyBeforeMeans(rules, initial, h, g);
    } else if h < g {
      UnsteadyBeforeMeans(rules, initial, g, h);
    }
  }

  /** When the state of generation `g` glides, the next one being itself
      moved by `d` pots, the sum at generation 50 000 000 000 is the sum at
      `g` plus the growth from `g` to `g + 1` for each remaining generation. */
  lemma ExtrapolationExact(rules: Rules, initial: Pots, g: nat, d: int)
    requires g <= Target
    requires Iterate(rules, initial, g).Some? && Iterate(rules, initial, g + 1).Some?
    requires Moved(Iterate(rules, initial, g).value, Iterate(rules, initial, g + 1).value, d)
    ensures Iterate(rules, initial, Target).Some?
    ensures var s, next := Iterate(rules, initial, g).value, Iterate(rules, initial, g + 1).value;
            PlantSum(Iterate(rules, initial, Target).value)
            == PlantSum(s) + (Target - g) * (PlantSum(next) - PlantSum(s))
  {
    var s, next := Iterate(rules, initial, g).value, Iterate(rules, initial, g + 1).value;
    var n: nat := Target - g;
    IterateNext(rules, initial, g);
    Glide(rules, s, next, d, n);
    IterateAdd(rules, initial, g, n);
    var far := Iterate(rules, s, n).value;
    PlantSumMoved(s, next, d);
    PlantSumMoved(s, far, n * d);
    var p := |Plants(s)|;
    assert (n * d) * p == n * (d * p);
    assert g + n == Target;
  }

  /** Part 2 answers from the first steady generation, whichever it is. */
  lemma Part2At(rules: Rules, initial: Pots, limit: nat, g: nat)
    requires 1 <= g <= limit && FirstSteady(rules, initial, g)
    ensures Part2(rules, initial, limit)
            == Some(Extrapolate(SeedSum(rules, initial, g).value, Growth(rules, initial, g).value, g))
  {
    StopAtStart(rules, initial, limit);
    StopFrom(rules, initial, 0, limit);
    var r := Stop(rules, initial, 1, 0, 0, limit);
    if r.Some? {
      FirstSteadyUnique(rules, initial, g, r.value.0);
    }
  }

  /** Extrapolating from generation `g` with the growth into it is
      extrapolating from `g - 1` one generation further. */
  lemma OneStepLater(before: int, at: int, t: int, h: int, g: int)
    requires g == h + 1
    ensures at + (t - g) * (at - before) == before + (t - h) * (at - before)
  {
    var growth := at - before;
    assert (t - h) * growth == (t - g) * growth + growth;
  }

  lemma GrowthOf(rules: Rules, initial: Pots, h: nat, g: nat)
    requires g == h + 1 && Iterate(rules, initial, h).Some? && Iterate(rules, initial, g).Some?
    ensures SeedSum(rules, initial, g) == Some(PlantSum(Iterate(rules, initial, g).value))
    ensures h >= 1 ==> Growth(rules, initial, g)
                       == Some(PlantSum(Iterate(rules, initial, g).value) - PlantSum(Iterate(rules, initial, h).value))
  {
  }

  /** Part 2's extrapolation is exact when the pattern already glides at
      the generation where the loop stops: the answer is then the plant sum
      after 50 000 000 000 generations.  (When two equal growths in a row
      come before the pattern glides, the answer may be off.) */
  lemma Part2Exact(rules: Rules, initial: Pots, limit: nat, g: nat, d: int)
    requires 2 <= g <= limit && g <= Target && FirstSteady(rules, initial, g)
    requires Iterate(rules, initial, g - 1).Some? && Iterate(rules, initial, g).Some?
    requires Moved(Iterate(rules, initial, g - 1).value, Iterate(rules, initial, g).value, d)
    ensures Iterate(rules, initial, Target).Some?
    ensures Part2(rules, initial, limit) == Some(PlantSum(Iterate(rules, initial, Target).value))
  {
    var h: nat := g - 1;
    var s, next := Iterate(rules, initial, h), Iterate(rules, initial, g);
    assert h + 1 == g;
    ExtrapolationExact(rules, initial, h, d);
    Part2At(rules, initial, limit, g);
    GrowthOf(rules, initial, h, g);
    OneStepLater(PlantSum(s.value), PlantSum(next.value), Target, h, g);
  }

  // ---------------------------------------------------------------------
  // input

  /** The first line, `initial state: #..#.`: the piece after the first
      `": "`, each character at its index, the `.` pots included.  A line
      without `": "` has no such piece (the `unwrap` panics): None. */
  function ParseInitial(line: string): Option<Pots> {
    var parts := SplitStr(line, ": ");
    if |parts| < 2 then None
    else Some(map i | 0 <= i < |parts[1]| :: parts[1][i])
  }

  /** A rule line `..#.# => #`: the piece before the first `" => "` and the
      first character of the piece after it.  None when there is no such
      character (the `unwrap` panics). */
  function ParseRule(line: string): Option<(string, char)> {
    var parts := SplitStr(line, " => ");
    if |parts| < 2 || |parts[1]| == 0 then None
    else Some((parts[0], parts[1][0]))
  }

  /** `collect` into a `HashMap`: a later rule for the same window replaces
      an earlier one. */
  function RulesOf(pairs: seq<(string, char)>): Rules {
    if pairs == [] then map[]
    else
      var last := pairs[|pairs| - 1];
      RulesOf(pairs[..|pairs| - 1])[last.0 := last.1]
  }

  /** The lines after the state line and the blank line that follows it. */
  function ParseRules(lines: seq<string>): Option<Rules> {
    var parsed := Collect(seq(|lines|, i requires 0 <= i < |lines| => ParseRule(lines[i])));
    if parsed.None? then None else Some(RulesOf(parsed.value))
  }

  /** `main`'s parsing: the state from the first line, the second line
      skipped, the rules from the rest.  None when there is no first line
      or a line does not parse. */
  function ParseInput(lines: seq<string>): Option<(Rules, Pots)> {
    if lines == [] then None
    else
      var initial := ParseInitial(lines[0]);
      var rules := if |lines| < 2 then Some(map[]) else ParseRules(lines[2..]);
      if initial.None? || rules.None? then None else Some((rules.value, initial.value))
  }

  /** The state line parses to every character of the pattern at its
      index, for any pattern without a colon. */
  lemma ParseInitialFormat(s: string)
    requires ':' !in s
    ensures ParseInitial("initial state: " + s).Some?
    ensures var pots := ParseInitial("initial state: " + s).value;
            (forall i :: i in pots <==> 0 <= i < |s|) && forall i :: 0 <= i < |s| ==> pots[i] == s[i]
  {
    var head := "initial state";
    SplitStrAt(head, s, ": ");
    SplitStrNone(s, ": ");
    assert "initial state: " + s == head + ": " + s;
  }

  /** A rule line parses back to its window and result, for any window
      without a space. */
  lemma ParseRuleFormat(w: string, c: char)
    requires ' ' !in w
    ensures ParseRule(w + " => " + [c]) == Some((w, c))
  {
    SplitStrAt(w, [c], " => ");
    assert SplitStr([c], " => ") == [[c]];
  }

  /** A window has a rule iff some line gives one, and then the last such
      line decides it. */
  lemma {:induction false} RulesOfLastWins(pairs: seq<(string, char)>, w: string)
    ensures w in RulesOf(pairs) <==> exists i :: 0 <= i < |pairs| && pairs[i].0 == w
    ensures w in RulesOf(pairs) ==>
              exists i :: 0 <= i < |pairs| && pairs[i] == (w, RulesOf(pairs)[w])
                       && forall j :: i < j < |pairs| ==> pairs[j].0 != w
  {
    if pairs != [] {
      var n := |pairs| - 1;
      var front := pairs[..n];
      RulesOfLastWins(front, w);
      if pairs[n].0 != w {
        if w in RulesOf(pairs) {
          var i :| 0 <= i < |front| && front[i] == (w, RulesOf(front)[w])
                   && forall j :: i < j < |front| ==> front[j].0 != w;
          assert pairs[i] == front[i];
        }
        forall i | 0 <= i < |front| && front[i].0 == w ensures pairs[i].0 == w {
        }
        assert (exists i :: 0 <= i < |pairs| && pairs[i].0 == w) ==> exists i :: 0 <= i < |front| && front[i].0 == w;
      } else {
        assert pairs[n] == (w, RulesOf(pairs)[w]);
      }
    }
  }
}
