/** Day 9: Marble Mania.  Players take turns placing marbles 1, 2, ... into
    a circle.  A marble that is a multiple of 23 is kept instead: its player
    scores it together with the marble seven places counter-clockwise, which
    leaves the circle.  The circle is kept with the current marble at the
    front and the rest following clockwise. */
module Day09 {
  import opened Wrappers
  import opened Maxima

  /** The circle, the scores by player, and (for the proofs) the marbles
      taken out of the circle so far, in order. */
  datatype Game = Game(circle: seq<nat>, scores: map<nat, nat>, removed: seq<nat>)

  function Start(): Game {
    Game([0], map[], [])
  }

  function Score(scores: map<nat, nat>, player: nat): nat {
    if player in scores then scores[player] else 0
  }

  /** `s` read from position `k` round to position `k - 1`. */
  function Rotate(s: seq<nat>, k: nat): seq<nat>
    requires k <= |s|
  {
    s[k..] + s[..k]
  }

  /** One turn of `play`: marble `m` played by `player`. */
  function Turn(g: Game, m: nat, player: nat): (r: Game)
    requires |g.circle| >= 1 && (m % 23 == 0 ==> |g.circle| >= 7)
    ensures |r.circle| == if m % 23 == 0 then |g.circle| - 1 else |g.circle| + 1
  {
    var c := g.circle;
    if m % 23 == 0 then
      var head, tail := c[..|c| - 7], c[|c| - 7..];
      var other := tail[0];
      Game(tail[1..] + head, g.scores[player := Score(g.scores, player) + m + other], g.removed + [other])
    else
      var current := c[0];
      var rest := c[1..];
      if rest == [] then
        Game([m] + [current], g.scores, g.removed)
      else
        var next := rest[0];
        Game([m] + rest[1..] + [current] + [next], g.scores, g.removed)
  }

  /** A marble that is not a multiple of 23 goes in between the marbles
      one and two places clockwise of the current one and becomes current;
      nobody scores. */
  lemma TurnPlace(g: Game, m: nat, player: nat)
    requires |g.circle| >= 1 && m % 23 != 0
    ensures Turn(g, m, player).circle[0] == m
    ensures |g.circle| >= 2 ==> var r := Turn(g, m, player).circle;
      Rotate(r, |r| - 2) == g.circle[..2] + [m] + g.circle[2..]
    ensures Turn(g, m, player).scores == g.scores && Turn(g, m, player).removed == g.removed
  {
    var c := g.circle;
    if |c| >= 2 {
      var r := Turn(g, m, player).circle;
      assert r == [m] + c[2..] + [c[0], c[1]];
      var k := |r| - 2;
      assert r[k..] == [c[0], c[1]];
      assert r[..k] == [m] + c[2..];
      assert c[..2] == [c[0], c[1]];
    }
  }

  /** A multiple of 23 takes out the marble seven places counter-clockwise
      of the current one; the marble after it becomes current, and the
      player scores both. */
  lemma TurnKeep(g: Game, m: nat, player: nat)
    requires |g.circle| >= 7 && m % 23 == 0
    ensures var other := g.circle[|g.circle| - 7];
      && Rotate(g.circle, |g.circle| - 7) == [other] + Turn(g, m, player).circle
      && Turn(g, m, player).removed == g.removed + [other]
      && Turn(g, m, player).scores == g.scores[player := Score(g.scores, player) + m + other]
  {
  }

  /** The player who plays marble `m`: `(1..=players).cycle()` zipped with
      the marbles. */
  function Player(m: nat, players: nat): (p: nat)
    requires m >= 1 && players >= 1
    ensures 1 <= p <= players
  {
    if m == 1 then 1
    else
      var previous := Player(m - 1, players);
      if previous == players then 1 else previous + 1
  }

  /** The first `players` marbles go to players 1, 2, ... in order. */
  lemma {:induction false} PlayerFirstRound(m: nat, players: nat)
    requires 1 <= m <= players
    ensures Player(m, players) == m
  {
    if m > 1 {
      PlayerFirstRound(m - 1, players);
    }
  }

  /** After that the turns repeat with period `players`. */
  lemma {:induction false} PlayerPeriodic(m: nat, players: nat)
    requires m >= 1 && players >= 1
    ensures Player(m + players, players) == Player(m, players)
  {
    if m == 1 {
      PlayerFirstRound(players, players);
    } else {
      PlayerPeriodic(m - 1, players);
    }
  }

  /** How many marbles the circle holds after marble `m`. */
  function Size(m: nat): int {
    if m == 0 then 1 else Size(m - 1) + (if m % 23 == 0 then -1 else 1)
  }

  /** The circle holds `m + 1 - 2 * (m / 23)` marbles after marble `m`. */
  lemma {:induction false} SizeClosedForm(m: nat)
    ensures Size(m) == m + 1 - 2 * (m / 23)
  {
    if m > 0 {
      SizeClosedForm(m - 1);
      if m % 23 == 0 {
        assert (m - 1) / 23 == m / 23 - 1;
      } else {
        assert (m - 1) / 23 == m / 23;
      }
    }
  }

  /** The circle is big enough for the marble seven counter-clockwise
      whenever a multiple of 23 comes up. */
  lemma SizeBeforeKeep(m: nat)
    requires m >= 1
    ensures Size(m - 1) >= 1
    ensures m % 23 == 0 ==> Size(m - 1) >= 7
  {
    SizeClosedForm(m - 1);
    if m % 23 == 0 {
      assert (m - 1) / 23 == m / 23 - 1;
    }
  }

  /** The game from marble `m` on, starting in state `g`, up to marble
      `last`; marble `m` is played by `Player(m, players)`. */
  function RunFrom(g: Game, m: nat, last: nat, players: nat): (r: Game)
    requires players >= 1 && 1 <= m <= last + 1 && |g.circle| == Size(m - 1)
    ensures |r.circle| == Size(last)
    decreases last + 1 - m
  {
    if m > last then g
    else
      SizeBeforeKeep(m);
      RunFrom(Turn(g, m, Player(m, players)), m + 1, last, players)
  }

  /** The game goes on from the turn of marble `m`. */
  lemma RunFromStep(g: Game, m: nat, last: nat, players: nat) returns (next: Game)
    requires players >= 1 && 1 <= m <= last && |g.circle| == Size(m - 1)
    ensures |g.circle| >= 1 && (m % 23 == 0 ==> |g.circle| >= 7)
    ensures next == Turn(g, m, Player(m, players)) && |next.circle| == Size(m)
    ensures RunFrom(g, m, last, players) == RunFrom(next, m + 1, last, players)
  {
    SizeBeforeKeep(m);
    next := Turn(g, m, Player(m, players));
  }

  /** The game after marbles `1..=last`.  With no players the zip is empty
      and nothing is played. */
  function Run(players: nat, last: nat): (g: Game)
    ensures |g.circle| == if players == 0 then 1 else Size(last)
  {
    if players == 0 then Start() else RunFrom(Start(), 1, last, players)
  }

  /** `play`: the scores after marbles `1..=last`. */
  method Play(players: nat, last: nat) returns (scores: map<nat, nat>)
    ensures scores == Run(players, last).scores
  {
    var circle: seq<nat> := [0];
    scores := map[];
    if players == 0 {
      return;
    }
    ghost var removed: seq<nat> := [];
    var marble := 1;
    var player := 1;
    while marble <= last
      invariant 1 <= marble <= last + 1
      invariant player == Player(marble, players)
      invariant |circle| == Size(marble - 1)
      invariant RunFrom(Game(circle, scores, removed), marble, last, players) == Run(players, last)
      decreases last + 1 - marble
    {
      ghost var next := RunFromStep(Game(circle, scores, removed), marble, last, players);
      circle, scores, removed := PlayTurn(circle, scores, removed, marble, player);
      player := if player == players then 1 else player + 1;
      marble := marble + 1;
    }
  }

  /** One iteration of the `for` loop of `play`, on the linked list's
      contents: the `split_off`, `pop_front` and `append` for a multiple of
      23, or the two `pop_front`s and three pushes otherwise. */
  method PlayTurn(circle: seq<nat>, scores: map<nat, nat>, ghost removed: seq<nat>, m: nat, player: nat)
    returns (circle': seq<nat>, scores': map<nat, nat>, ghost removed': seq<nat>)
    requires |circle| >= 1 && (m % 23 == 0 ==> |circle| >= 7)
    ensures Game(circle', scores', removed') == Turn(Game(circle, scores, removed), m, player)
  {
    circle', scores', removed' := circle, scores, removed;
    if m % 23 == 0 {
      var tail := circle'[|circle'| - 7..];
      circle' := circle'[..|circle'| - 7];
      var other := tail[0];
      tail := tail[1..] + circle';
      circle' := tail;
      scores' := scores'[player := Score(scores', player) + m + other];
      removed' := removed' + [other];
    } else {
      var current := circle'[0];
      circle' := circle'[1..];
      var next: Option<nat> := None;
      if circle' != [] {
        next := Some(circle'[0]);
        circle' := circle'[1..];
      }
      circle' := [m] + circle';
      circle' := circle' + [current];
      if next.Some? {
        circle' := circle' + [next.value];
      }
    }
  }

  // ---------------------------------------------------------------------
  // What the circle holds

  /** Marble `x` has been placed by marble `m`: 0 is there from the start,
      multiples of 23 are never placed. */
  predicate Placed(m: nat, x: nat) {
    x == 0 || (x <= m && x % 23 != 0)
  }

  /** The marbles placed by marble `m`, each once. */
  function PlacedUpTo(m: nat): multiset<nat> {
    if m == 0 then multiset{0}
    else if m % 23 == 0 then PlacedUpTo(m - 1)
    else PlacedUpTo(m - 1) + multiset{m}
  }

  /** `PlacedUpTo(m)` holds exactly the placed marbles, once each. */
  lemma {:induction false} PlacedUpToMeans(m: nat, x: nat)
    ensures PlacedUpTo(m)[x] == if Placed(m, x) then 1 else 0
  {
    if m > 0 {
      PlacedUpToMeans(m - 1, x);
    }
  }

  /** Every placed marble is in the circle or among the removed ones, once,
      and nothing else is in either. */
  ghost predicate Accounted(g: Game, m: nat) {
    multiset(g.circle) + multiset(g.removed) == PlacedUpTo(m)
  }

  /** One turn keeps the circle and the removed marbles accounted for. */
  lemma TurnAccounted(g: Game, m: nat, player: nat)
    requires m >= 1 && |g.circle| >= 1 && (m % 23 == 0 ==> |g.circle| >= 7)
    requires Accounted(g, m - 1)
    ensures Accounted(Turn(g, m, player), m)
  {
    if m % 23 == 0 {
      KeepAccounted(g, m, player);
    } else {
      PlaceAccounted(g, m, player);
    }
  }

  lemma KeepAccounted(g: Game, m: nat, player: nat)
    requires m >= 1 && |g.circle| >= 7 && m % 23 == 0
    requires Accounted(g, m - 1)
    ensures Accounted(Turn(g, m, player), m)
  {
    var r := Turn(g, m, player);
    var c := g.circle;
    TurnKeep(g, m, player);
    var other := c[|c| - 7];
    RotateMultiset(c, |c| - 7);
    assert multiset([other] + r.circle) == multiset(c);
    assert multiset(r.removed) == multiset(g.removed) + multiset{other};
  }

  lemma PlaceAccounted(g: Game, m: nat, player: nat)
    requires m >= 1 && |g.circle| >= 1 && m % 23 != 0
    requires Accounted(g, m - 1)
    ensures Accounted(Turn(g, m, player), m)
  {
    var r := Turn(g, m, player);
    TurnPlace(g, m, player);
    PlaceMultiset(g.circle, m, r.circle);
  }

  lemma RotateMultiset(s: seq<nat>, k: nat)
    requires k <= |s|
    ensures multiset(Rotate(s, k)) == multiset(s)
  {
    assert s == s[..k] + s[k..];
  }

  /** The circle after placing `m` holds one more marble, `m`. */
  lemma PlaceMultiset(c: seq<nat>, m: nat, r: seq<nat>)
    requires |r| == |c| + 1 && |c| >= 1 && r[0] == m
    requires |c| >= 2 ==> Rotate(r, |r| - 2) == c[..2] + [m] + c[2..]
    requires |c| == 1 ==> r == [m] + c
    ensures multiset(r) == multiset(c) + multiset{m}
  {
    if |c| >= 2 {
      RotateMultiset(r, |r| - 2);
      assert c == c[..2] + c[2..];
      assert multiset(c[..2] + [m] + c[2..]) == multiset(c[..2]) + multiset{m} + multiset(c[2..]);
    }
  }

  /** Each placed marble that has not been removed is in the circle exactly
      once; each removed one is removed once and not in the circle. */
  lemma {:induction false} RunAccounted(players: nat, last: nat)
    requires players >= 1
    ensures Accounted(Run(players, last), last)
  {
    assert [0][..0] == [];
    AccountedFrom(Start(), 1, last, players);
  }

  /** After marble `last`, each marble is in the circle or among the removed
      ones exactly once if it has been placed, and nowhere otherwise. */
  lemma RunHoldsPlaced(players: nat, last: nat, x: nat)
    requires players >= 1
    ensures multiset(Run(players, last).circle)[x] + multiset(Run(players, last).removed)[x]
      == if Placed(last, x) then 1 else 0
  {
    RunAccounted(players, last);
    PlacedUpToMeans(last, x);
  }

  lemma {:induction false} AccountedFrom(g: Game, m: nat, last: nat, players: nat)
    requires players >= 1 && 1 <= m <= last + 1 && |g.circle| == Size(m - 1)
    requires Accounted(g, m - 1)
    ensures Accounted(RunFrom(g, m, last, players), last)
    decreases last + 1 - m
  {
    if m <= last {
      var next := RunFromStep(g, m, last, players);
      TurnAccounted(g, m, Player(m, players));
      AccountedFrom(next, m + 1, last, players);
    }
  }

  // ---------------------------------------------------------------------
  // Scores

  /** The scores of players `1..=n` added up. */
  function ScoreTotal(scores: map<nat, nat>, n: nat): nat {
    if n == 0 then 0 else ScoreTotal(scores, n - 1) + Score(scores, n)
  }

  lemma {:induction false} ScoreTotalAdd(scores: map<nat, nat>, n: nat, player: nat, d: nat)
    requires 1 <= player <= n
    ensures ScoreTotal(scores[player := Score(scores, player) + d], n) == ScoreTotal(scores, n) + d
  {
    if n > player {
      ScoreTotalAdd(scores, n - 1, player, d);
    } else {
      ScoreTotalSame(scores, n - 1, player, Score(scores, player) + d);
    }
  }

  lemma {:induction false} ScoreTotalSame(scores: map<nat, nat>, n: nat, player: nat, v: nat)
    requires n < player
    ensures ScoreTotal(scores[player := v], n) == ScoreTotal(scores, n)
  {
    if n > 0 {
      ScoreTotalSame(scores, n - 1, player, v);
    }
  }

  /** The multiples of 23 up to `m`, added up. */
  function Kept(m: nat): nat {
    if m == 0 then 0 else Kept(m - 1) + (if m % 23 == 0 then m else 0)
  }

  function Total(xs: seq<nat>): nat {
    if xs == [] then 0 else Total(xs[..|xs| - 1]) + xs[|xs| - 1]
  }

  /** Every point scored so far is a kept multiple of 23 up to `m` or a
      removed marble, and only players `1..=players` have scored. */
  ghost predicate ScoresBalance(g: Game, m: nat, players: nat) {
    && ScoreTotal(g.scores, players) == Kept(m) + Total(g.removed)
    && forall p :: p in g.scores ==> 1 <= p <= players
  }

  /** One turn keeps the points balanced. */
  lemma TurnScores(g: Game, m: nat, player: nat, players: nat)
    requires m >= 1 && |g.circle| >= 1 && (m % 23 == 0 ==> |g.circle| >= 7)
    requires 1 <= player <= players
    requires ScoresBalance(g, m - 1, players)
    ensures ScoresBalance(Turn(g, m, player), m, players)
  {
    var r := Turn(g, m, player);
    if m % 23 == 0 {
      TurnKeep(g, m, player);
      var other := g.circle[|g.circle| - 7];
      ScoreTotalAdd(g.scores, players, player, m + other);
      TotalSnoc(g.removed, other);
    } else {
      TurnPlace(g, m, player);
    }
  }

  lemma RunScores(players: nat, last: nat)
    requires players >= 1
    ensures ScoresBalance(Run(players, last), last, players)
  {
    ScoreTotalEmpty(players);
    ScoresFrom(Start(), 1, last, players);
  }

  lemma {:induction false} ScoresFrom(g: Game, m: nat, last: nat, players: nat)
    requires players >= 1 && 1 <= m <= last + 1 && |g.circle| == Size(m - 1)
    requires ScoresBalance(g, m - 1, players)
    ensures ScoresBalance(RunFrom(g, m, last, players), last, players)
    decreases last + 1 - m
  {
    if m <= last {
      var next := RunFromStep(g, m, last, players);
      TurnScores(g, m, Player(m, players), players);
      ScoresFrom(next, m + 1, last, players);
    }
  }

  lemma {:induction false} ScoreTotalEmpty(n: nat)
    ensures ScoreTotal(map[], n) == 0
  {
    if n > 0 {
      ScoreTotalEmpty(n - 1);
    }
  }

  lemma TotalSnoc(xs: seq<nat>, x: nat)
    ensures Total(xs + [x]) == Total(xs) + x
  {
    assert (xs + [x])[..|xs|] == xs;
  }

  // ---------------------------------------------------------------------
  // part1 / part2

  /** `scores.values().max().unwrap()`: None when nobody scored. */
  function HighScore(scores: map<nat, nat>): (r: Option<nat>)
    ensures r.None? <==> scores == map[]
    ensures r.Some? ==> exists p :: p in scores && scores[p] == r.value
    ensures r.Some? ==> forall p :: p in scores ==> scores[p] <= r.value
  {
    if scores == map[] then None
    else
      var values := set p | p in scores :: scores[p];
      var p :| p in scores;
      assert scores[p] in values;
      assert forall q :: q in scores ==> scores[q] in values;
      var best := Greatest(values);
      Some(best)
  }

  function Part1(players: nat, last: nat): Option<nat> {
    HighScore(Run(players, last).scores)
  }

  function Part2(players: nat, last: nat): Option<nat> {
    HighScore(Run(players, last * 100).scores)
  }

  /** Nobody scores before marble 23. */
  lemma NoScoreBefore23(players: nat, last: nat)
    requires last < 23
    ensures Part1(players, last).None?
  {
    if players > 0 {
      NoScoreRun(players, last);
    }
  }

  lemma {:induction false} NoScoreRun(players: nat, last: nat)
    requires players >= 1 && last < 23
    ensures Run(players, last).scores == map[]
  {
    NoScoreFrom(Start(), 1, last, players);
  }

  lemma {:induction false} NoScoreFrom(g: Game, m: nat, last: nat, players: nat)
    requires players >= 1 && 1 <= m <= last + 1 && |g.circle| == Size(m - 1)
    requires last < 23 && g.scores == map[]
    ensures RunFrom(g, m, last, players).scores == map[]
    decreases last + 1 - m
  {
    if m <= last {
      SizeBeforeKeep(m);
      var player := Player(m, players);
      TurnPlace(g, m, player);
      NoScoreFrom(Turn(g, m, player), m + 1, last, players);
    }
  }
}
