/** Day 7: steps with prerequisites.  Part 1 lists the steps in the order
    obtained by always taking the alphabetically first step whose
    prerequisites are done; part 2 runs the same order on five workers, each
    step taking 60 seconds plus its letter's position in the alphabet. */
module Day07 {
  import opened Wrappers
  import opened Text

  /** `completion_time`: `step as usize - 64 + 60`, the character code less
      4, so `A` takes 61.  The `usize` subtraction underflows (a panic) for
      a character below `@`, which is None here. */
  function CompletionTime(step: char): (r: Option<nat>)
    ensures r.Some? <==> '@' <= step
    ensures r.Some? ==> r.value == step as int - 4
  {
    if step < '@' then None else Some(step as int - 64 + 60)
  }

  /** The letters take 61 to 86 seconds, later letters longer. */
  lemma LetterTimes(a: char, b: char)
    requires 'A' <= a < b <= 'Z'
    ensures CompletionTime('A') == Some(61) && CompletionTime('Z') == Some(86)
    ensures 61 <= CompletionTime(a).value < CompletionTime(b).value <= 86
  {
  }

  // ---------------------------------------------------------------------
  // parse_step

  /** `parse_step`: the first characters of whitespace tokens 1 and 7
      (`nth(1)` and then `nth(5)` of the same iterator); a line with fewer
      tokens is None (`unwrap`). */
  function ParseStep(line: string): Option<(char, char)> {
    var words := SplitWhitespace(line);
    if |words| < 8 then None else Some((words[1][0], words[7][0]))
  }

  /** The puzzle's sentence for "`step` must be finished before `block`". */
  function StepLine(step: char, block: char): string {
    Unwords(["Step", [step], "must", "be", "finished", "before", "step", [block], "can", "begin."])
  }

  /** Parsing a sentence gives back its two steps, for any two
      non-whitespace characters. */
  lemma ParseStepLine(step: char, block: char)
    requires !IsWhitespace(step) && !IsWhitespace(block)
    ensures ParseStep(StepLine(step, block)) == Some((step, block))
  {
    var words := ["Step", [step], "must", "be", "finished", "before", "step", [block], "can", "begin."];
    forall i | 0 <= i < |words| ensures IsWord(words[i]) {
      if i != 1 && i != 7 {
        assert Printable(words[i]);
        PrintableIsWord(words[i]);
      }
    }
    SplitWhitespaceOfUnwords(words);
  }

  // ---------------------------------------------------------------------
  // main: the dependency maps

  /** `step_blocks` (step to the steps it blocks, in input order) and
      `step_blocked_by` (step to its prerequisites, in input order). */
  datatype Graph = Graph(blocks: map<char, seq<char>>, blockedBy: map<char, seq<char>>)

  /** The steps that `s` blocks, in input order. */
  function ChildrenIn(input: seq<(char, char)>, s: char): seq<char> {
    if input == [] then []
    else ChildrenIn(input[..|input| - 1], s) + (if input[|input| - 1].0 == s then [input[|input| - 1].1] else [])
  }

  /** The prerequisites of `c`, in input order. */
  function ParentsIn(input: seq<(char, char)>, c: char): seq<char> {
    if input == [] then []
    else ParentsIn(input[..|input| - 1], c) + (if input[|input| - 1].1 == c then [input[|input| - 1].0] else [])
  }

  lemma {:induction false} ChildrenInMeans(input: seq<(char, char)>, s: char, c: char)
    ensures c in ChildrenIn(input, s) <==> (s, c) in input
  {
    if input != [] {
      var init := input[..|input| - 1];
      ChildrenInMeans(init, s, c);
      assert input == init + [input[|input| - 1]];
    }
  }

  lemma {:induction false} ParentsInMeans(input: seq<(char, char)>, s: char, c: char)
    ensures s in ParentsIn(input, c) <==> (s, c) in input
  {
    if input != [] {
      var init := input[..|input| - 1];
      ParentsInMeans(init, s, c);
      assert input == init + [input[|input| - 1]];
    }
  }

  /** The maps `main` builds from the edges. */
  predicate Built(input: seq<(char, char)>, g: Graph) {
    BlocksBuilt(input, g.blocks) && BlockedByBuilt(input, g.blockedBy)
  }

  /** `step_blocks` lists, for each step of an edge, its blocks. */
  predicate BlocksBuilt(input: seq<(char, char)>, blocks: map<char, seq<char>>) {
    && blocks.Keys == Firsts(input)
    && (forall s :: s in blocks ==> blocks[s] == ChildrenIn(input, s))
  }

  /** `step_blocked_by` lists, for each blocked step, its prerequisites. */
  predicate BlockedByBuilt(input: seq<(char, char)>, blockedBy: map<char, seq<char>>) {
    && blockedBy.Keys == Seconds(input)
    && (forall c :: c in blockedBy ==> blockedBy[c] == ParentsIn(input, c))
  }

  /** The steps that block something. */
  function Firsts(input: seq<(char, char)>): set<char> {
    set e | e in input :: e.0
  }

  /** The steps that something blocks. */
  function Seconds(input: seq<(char, char)>): set<char> {
    set e | e in input :: e.1
  }

  /** The list under `k`, empty when absent (`or_insert_with(Vec::new)`). */
  function ListAt(m: map<char, seq<char>>, k: char): seq<char> {
    if k in m then m[k] else []
  }

  /** The `for` loop of `main`: each edge pushes its block onto the step's
      list and its step onto the block's list. */
  method BuildGraph(input: seq<(char, char)>) returns (g: Graph)
    ensures Built(input, g)
  {
    var blocks: map<char, seq<char>> := map[];
    var blockedBy: map<char, seq<char>> := map[];
    for k := 0 to |input|
      invariant Built(input[..k], Graph(blocks, blockedBy))
    {
      var (step, block) := input[k];
      ghost var before := Graph(blocks, blockedBy);
      blocks := blocks[step := ListAt(blocks, step) + [block]];
      blockedBy := blockedBy[block := ListAt(blockedBy, block) + [step]];
      BuiltSnoc(input[..k], before, input[k]);
      assert input[..k + 1] == input[..k] + [input[k]];
    }
    assert input[..|input|] == input;
    g := Graph(blocks, blockedBy);
  }

  /** One more edge extends both lists. */
  lemma BuiltSnoc(input: seq<(char, char)>, g: Graph, e: (char, char))
    requires Built(input, g)
    ensures Built(input + [e], Graph(g.blocks[e.0 := ListAt(g.blocks, e.0) + [e.1]],
                                     g.blockedBy[e.1 := ListAt(g.blockedBy, e.1) + [e.0]]))
  {
    BlocksSnoc(input, g.blocks, e);
    BlockedBySnoc(input, g.blockedBy, e);
  }

  lemma BlocksSnoc(input: seq<(char, char)>, blocks: map<char, seq<char>>, e: (char, char))
    requires BlocksBuilt(input, blocks)
    ensures BlocksBuilt(input + [e], blocks[e.0 := ListAt(blocks, e.0) + [e.1]])
  {
    var blocks' := blocks[e.0 := ListAt(blocks, e.0) + [e.1]];
    EdgesSnoc(input, e);
    forall s | s in blocks' ensures blocks'[s] == ChildrenIn(input + [e], s) {
      ListsSnoc(input, e, s, s);
      if s !in blocks {
        ListsAbsent(input, s, s);
      }
    }
  }

  lemma BlockedBySnoc(input: seq<(char, char)>, blockedBy: map<char, seq<char>>, e: (char, char))
    requires BlockedByBuilt(input, blockedBy)
    ensures BlockedByBuilt(input + [e], blockedBy[e.1 := ListAt(blockedBy, e.1) + [e.0]])
  {
    var blockedBy' := blockedBy[e.1 := ListAt(blockedBy, e.1) + [e.0]];
    EdgesSnoc(input, e);
    forall c | c in blockedBy' ensures blockedBy'[c] == ParentsIn(input + [e], c) {
      ListsSnoc(input, e, c, c);
      if c !in blockedBy {
        ListsAbsent(input, c, c);
      }
    }
  }

  lemma EdgesSnoc(input: seq<(char, char)>, e: (char, char))
    ensures Firsts(input + [e]) == Firsts(input) + {e.0}
    ensures Seconds(input + [e]) == Seconds(input) + {e.1}
  {
  }

  lemma ListsSnoc(input: seq<(char, char)>, e: (char, char), s: char, c: char)
    ensures ChildrenIn(input + [e], s) == ChildrenIn(input, s) + (if e.0 == s then [e.1] else [])
    ensures ParentsIn(input + [e], c) == ParentsIn(input, c) + (if e.1 == c then [e.0] else [])
  {
    assert (input + [e])[..|input|] == input;
  }

  /** A step without edges has empty lists. */
  lemma {:induction false} ListsAbsent(input: seq<(char, char)>, s: char, c: char)
    ensures s !in Firsts(input) ==> ChildrenIn(input, s) == []
    ensures c !in Seconds(input) ==> ParentsIn(input, c) == []
  {
    if input != [] {
      var init := input[..|input| - 1];
      ListsAbsent(init, s, c);
      assert Firsts(input) == Firsts(init) + {input[|input| - 1].0} by {
        assert input == init + [input[|input| - 1]];
      }
      assert Seconds(input) == Seconds(init) + {input[|input| - 1].1} by {
        assert input == init + [input[|input| - 1]];
      }
    }
  }

  /** Every edge is recorded in both directions. */
  predicate Consistent(g: Graph) {
    forall s, c :: s in g.blocks && c in g.blocks[s] <==> c in g.blockedBy && s in g.blockedBy[c]
  }

  lemma BuiltConsistent(input: seq<(char, char)>, g: Graph)
    requires Built(input, g)
    ensures Consistent(g)
  {
    forall s, c ensures s in g.blocks && c in g.blocks[s] <==> c in g.blockedBy && s in g.blockedBy[c] {
      ChildrenInMeans(input, s, c);
      ParentsInMeans(input, s, c);
    }
  }

  /** The initial `ready` set: the steps of the edges that no edge blocks. */
  function Roots(input: seq<(char, char)>, g: Graph): set<char> {
    set i | 0 <= i < |input| && input[i].0 !in g.blockedBy :: input[i].0
  }

  /** A root is a step that blocks something and is blocked by nothing. */
  lemma RootsMeans(input: seq<(char, char)>, g: Graph, x: char)
    requires Built(input, g)
    ensures x in Roots(input, g) <==> x in Firsts(input) && x !in Seconds(input)
    ensures x in Roots(input, g) ==> x !in g.blockedBy
  {
    if x in Firsts(input) {
      var e :| e in input && e.0 == x;
      var i :| 0 <= i < |input| && input[i] == e;
    }
  }

  // ---------------------------------------------------------------------
  // part1

  /** The steps `step` blocks (`get(&step)`, or none). */
  function Children(g: Graph, step: char): seq<char> {
    ListAt(g.blocks, step)
  }

  /** `c` may start once `done` are finished: it has no prerequisite list,
      or every step on it is in `done` (the `if let` and `all` of the inner
      loop). */
  predicate Unblocked(g: Graph, c: char, done: set<char>) {
    c !in g.blockedBy || forall p :: p in g.blockedBy[c] ==> p in done
  }

  /** The children the inner `for` loop inserts into `ready`. */
  function Released(g: Graph, children: seq<char>, done: set<char>): set<char> {
    set c | c in children && Unblocked(g, c, done)
  }

  /** The inner `for &child in children` loop shared by both parts. */
  method ReleaseChildren(g: Graph, children: seq<char>, completed: set<char>, ready: set<char>) returns (r: set<char>)
    ensures r == ready + Released(g, children, completed)
  {
    r := ready;
    for k := 0 to |children|
      invariant r == ready + Released(g, children[..k], completed)
    {
      var child := children[k];
      assert children[..k + 1] == children[..k] + [child];
      if child in g.blockedBy {
        if forall p :: p in g.blockedBy[child] ==> p in completed {
          r := r + {child};
        }
      } else {
        r := r + {child};
      }
    }
    assert children[..|children|] == children;
  }

  /** `ready.iter().min()` on a non-empty set. */
  method Least(s: set<char>) returns (m: char)
    requires s != {}
    ensures IsLeast(m, s)
  {
    m :| m in s;
    var rest := s - {m};
    while rest != {}
      invariant rest <= s && m in s
      invariant forall x :: x in s && x !in rest ==> m <= x
      decreases |rest|
    {
      var x :| x in rest;
      if x < m {
        m := x;
      }
      rest := rest - {x};
    }
  }

  predicate IsLeast(m: char, s: set<char>) {
    m in s && forall x :: x in s ==> m <= x
  }

  /** The roots and every step some step blocks. */
  function Steps(g: Graph, roots: set<char>): set<char> {
    roots + set s, c | s in g.blocks && c in g.blocks[s] :: c
  }

  /** No root has prerequisites, as `main` chooses them. */
  predicate RootsFree(g: Graph, roots: set<char>) {
    forall x :: x in roots ==> x !in g.blockedBy
  }

  /** The steps that are ready once `done` are finished. */
  function ReadySet(g: Graph, roots: set<char>, done: set<char>): set<char> {
    set x | x in Steps(g, roots) && x !in done && Unblocked(g, x, done)
  }

  /** The steps of a sequence. */
  function Done(s: seq<char>): set<char> {
    set x | x in s
  }

  /** Every finished step had its prerequisites finished. */
  predicate Closed(g: Graph, done: set<char>) {
    forall y :: y in done ==> Unblocked(g, y, done)
  }

  /** The order of part 1: each step is the alphabetically least ready
      one, and nothing is left ready at the end. */
  predicate Order(g: Graph, roots: set<char>, answer: seq<char>) {
    && (forall i :: 0 <= i < |answer| ==> Greedy(g, roots, answer, i))
    && ReadySet(g, roots, Done(answer)) == {}
  }

  /** Step `i` of `answer` is the least step ready after the ones before it. */
  predicate Greedy(g: Graph, roots: set<char>, answer: seq<char>, i: nat)
    requires i < |answer|
  {
    IsLeast(answer[i], ReadySet(g, roots, Done(answer[..i])))
  }

  /** At the start, exactly the roots are ready. */
  lemma ReadyInitially(g: Graph, roots: set<char>)
    requires Consistent(g) && RootsFree(g, roots)
    ensures ReadySet(g, roots, {}) == roots
  {
    forall x | x in Steps(g, roots) && x !in roots ensures !Unblocked(g, x, {}) {
      var s :| s in g.blocks && x in g.blocks[s];
      assert s in g.blockedBy[x];
    }
  }

  /** Finishing a ready step makes ready exactly the other ready steps and
      the children it releases. */
  lemma ReadyAfter(g: Graph, roots: set<char>, done: set<char>, step: char)
    requires Consistent(g) && RootsFree(g, roots) && Closed(g, done)
    requires step in ReadySet(g, roots, done)
    ensures ReadySet(g, roots, done + {step})
         == ReadySet(g, roots, done) - {step} + Released(g, Children(g, step), done + {step})
    ensures Closed(g, done + {step})
  {
    var done' := done + {step};
    forall x | x in ReadySet(g, roots, done') ensures x in Released(g, Children(g, step), done') || x in ReadySet(g, roots, done) {
      if !Unblocked(g, x, done) {
        var p :| p in g.blockedBy[x] && p !in done;
        assert x in g.blocks[step];
      }
    }
    forall x | x in Released(g, Children(g, step), done') ensures x in ReadySet(g, roots, done') {
      assert x in g.blocks[step];
      assert step in g.blockedBy[x];
    }
  }

  /** `part1`: repeatedly finish the least ready step and release its
      children; the answer is the greedy order. */
  method Part1(g: Graph, roots: set<char>) returns (answer: string)
    requires Consistent(g) && RootsFree(g, roots)
    ensures Order(g, roots, answer)
  {
    answer := [];
    var completed: set<char> := {};
    var ready := roots;
    ReadyInitially(g, roots);
    while ready != {}
      invariant completed == Done(answer)
      invariant completed <= Steps(g, roots)
      invariant Closed(g, completed)
      invariant ready == ReadySet(g, roots, completed)
      invariant forall i :: 0 <= i < |answer| ==> Greedy(g, roots, answer, i)
      decreases |Steps(g, roots) - completed|
    {
      var step := Least(ready);
      Part1Step(g, roots, answer, step);
      answer := answer + [step];
      ready := ready - {step};
      completed := completed + {step};
      ready := ReleaseChildren(g, Children(g, step), completed, ready);
    }
  }

  /** One turn of the `while let` loop keeps the loop's invariants. */
  lemma Part1Step(g: Graph, roots: set<char>, answer: seq<char>, step: char)
    requires Consistent(g) && RootsFree(g, roots) && Closed(g, Done(answer))
    requires forall i :: 0 <= i < |answer| ==> Greedy(g, roots, answer, i)
    requires IsLeast(step, ReadySet(g, roots, Done(answer)))
    ensures Done(answer + [step]) == Done(answer) + {step}
    ensures Closed(g, Done(answer + [step]))
    ensures ReadySet(g, roots, Done(answer + [step]))
         == ReadySet(g, roots, Done(answer)) - {step} + Released(g, Children(g, step), Done(answer + [step]))
    ensures forall i :: 0 <= i < |answer| + 1 ==> Greedy(g, roots, answer + [step], i)
  {
    PrefixesOfSnoc(answer, step);
    ReadyAfter(g, roots, Done(answer), step);
    forall i | 0 <= i < |answer| + 1 ensures Greedy(g, roots, answer + [step], i) {
      if i < |answer| {
        assert Greedy(g, roots, answer, i);
      }
    }
  }

  /** Appending keeps the earlier prefixes and adds one element. */
  lemma PrefixesOfSnoc(s: seq<char>, x: char)
    ensures forall i :: 0 <= i <= |s| ==> (s + [x])[..i] == s[..i]
    ensures Done(s + [x]) == Done(s) + {x}
  {
  }

  /** Part 1 lists no step twice. */
  lemma OrderDistinct(g: Graph, roots: set<char>, answer: seq<char>)
    requires Order(g, roots, answer)
    ensures forall i, j :: 0 <= i < j < |answer| ==> answer[i] != answer[j]
  {
    forall i, j | 0 <= i < j < |answer| ensures answer[i] != answer[j] {
      assert answer[i] in answer[..j] && Greedy(g, roots, answer, j);
    }
  }

  /** Part 1 lists every step after all of its prerequisites. */
  lemma OrderRespects(g: Graph, roots: set<char>, answer: seq<char>, j: int, p: char)
    requires Order(g, roots, answer)
    requires 0 <= j < |answer| && answer[j] in g.blockedBy && p in g.blockedBy[answer[j]]
    ensures p in answer[..j]
  {
    assert Greedy(g, roots, answer, j);
  }

  /** The greedy order is unique. */
  lemma {:induction false} OrderUnique(g: Graph, roots: set<char>, a: seq<char>, b: seq<char>)
    requires Order(g, roots, a) && Order(g, roots, b)
    ensures a == b
  {
    var n := 0;
    while n < |a| && n < |b|
      invariant n <= |a| && n <= |b| && a[..n] == b[..n]
    {
      GreedyAgree(g, roots, a, b, n);
      n := n + 1;
    }
    OrderGoesOn(g, roots, a, n);
    OrderGoesOn(g, roots, b, n);
  }

  /** Two greedy orders that agree up to `n` agree on the next step. */
  lemma GreedyAgree(g: Graph, roots: set<char>, a: seq<char>, b: seq<char>, n: nat)
    requires Order(g, roots, a) && Order(g, roots, b)
    requires n < |a| && n < |b| && a[..n] == b[..n]
    ensures a[..n + 1] == b[..n + 1]
  {
    assert Greedy(g, roots, a, n) && Greedy(g, roots, b, n);
    assert a[..n + 1] == a[..n] + [a[n]] && b[..n + 1] == b[..n] + [b[n]];
  }

  /** Before its end, the order still has a ready step; at its end it is
      the whole order. */
  lemma OrderGoesOn(g: Graph, roots: set<char>, a: seq<char>, n: nat)
    requires Order(g, roots, a)
    ensures n < |a| ==> ReadySet(g, roots, Done(a[..n])) != {}
    ensures n == |a| ==> a[..n] == a
  {
    if n < |a| {
      assert Greedy(g, roots, a, n);
    }
  }

  // ---------------------------------------------------------------------
  // part2

  /** A least element exists in every non-empty set of steps. */
  lemma {:induction false} LeastExists(s: set<char>)
    requires s != {}
    ensures exists m :: IsLeast(m, s)
    decreases |s|
  {
    var x :| x in s;
    if s != {x} {
      LeastExists(s - {x});
      var m :| IsLeast(m, s - {x});
      assert forall y :: y in s ==> y == x || y in s - {x};
      if x < m {
        assert IsLeast(x, s);
      } else {
        assert IsLeast(m, s);
      }
    } else {
      assert IsLeast(x, s);
    }
  }

  /** The least ready step, as `ready.iter().min()` finds it. */
  function LeastOf(s: set<char>): (m: char)
    requires s != {}
    ensures IsLeast(m, s)
  {
    LeastExists(s);
    var m :| IsLeast(m, s); m
  }

  /** The state of `part2` between two workers: the ready and completed
      sets and the five workers, each idle or holding a step and the
      second it is done. */
  datatype Sim = Sim(ready: set<char>, completed: set<char>, workers: seq<Option<(char, nat)>>)

  /** The assignment at the end of a worker's turn: the least ready step
      with its finishing time, or idle when nothing is ready.  None is the
      panic of `completion_time`. */
  function Assign(t: nat, s: Sim, i: nat): (r: Option<Sim>)
    requires i < |s.workers|
    ensures r.Some? ==> |r.value.workers| == |s.workers|
  {
    if s.ready == {} then Some(s.(workers := s.workers[i := None]))
    else
      var m := LeastOf(s.ready);
      match CompletionTime(m)
      case None => None
      case Some(d) => Some(Sim(s.ready - {m}, s.completed, s.workers[i := Some((m, t + d))]))
  }

  /** One worker's turn at second `t`: a worker done now completes its
      step and releases its children, then takes new work; an idle worker
      takes new work; a busy one is skipped (`continue`). */
  function WorkerStep(g: Graph, t: nat, s: Sim, i: nat): (r: Option<Sim>)
    requires i < |s.workers|
    ensures r.Some? ==> |r.value.workers| == |s.workers|
  {
    match s.workers[i]
    case None => Assign(t, s, i)
    case Some((step, done)) =>
      if t == done then
        var completed := s.completed + {step};
        Assign(t, Sim(s.ready + Released(g, Children(g, step), completed), completed, s.workers), i)
      else Some(s)
  }

  /** The turns of workers `i` onwards. */
  function TickFrom(g: Graph, t: nat, s: Sim, i: nat): (r: Option<Sim>)
    requires i <= |s.workers|
    ensures r.Some? ==> |r.value.workers| == |s.workers|
    decreases |s.workers| - i
  {
    if i == |s.workers| then Some(s)
    else
      match WorkerStep(g, t, s, i)
      case None => None
      case Some(s') => TickFrom(g, t, s', i + 1)
  }

  /** `max_steps`: the steps named in either map. */
  function MaxSteps(g: Graph): nat {
    |g.blocks.Keys + g.blockedBy.Keys|
  }

  /** The `for t in 0..` loop from second `t`, with at most `fuel` more
      seconds: the first second at whose end every step is complete. */
  function Simulate(g: Graph, s: Sim, t: nat, fuel: nat): Option<nat>
    decreases fuel
  {
    match TickFrom(g, t, s, 0)
    case None => None
    case Some(s') =>
      if |s'.completed| == MaxSteps(g) then Some(t)
      else if fuel == 0 then None
      else Simulate(g, s', t + 1, fuel - 1)
  }

  /** Five idle workers and the roots ready. */
  function Start(roots: set<char>): Sim {
    Sim(roots, {}, [None, None, None, None, None])
  }

  /** The steps the workers hold. */
  function Busy(w: seq<Option<(char, nat)>>): set<char> {
    set j | 0 <= j < |w| && w[j].Some? :: w[j].value.0
  }

  /** No two workers hold the same step. */
  predicate Distinct(w: seq<Option<(char, nat)>>) {
    forall j, k :: 0 <= j < |w| && 0 <= k < |w| && j != k && w[j].Some? && w[k].Some? ==> w[j].value.0 != w[k].value.0
  }

  /** What `part2` keeps between turns: every completed step had its
      prerequisites completed, and every step whose prerequisites are
      complete is either ready or held by one worker, never both. */
  predicate Scheduled(g: Graph, roots: set<char>, s: Sim) {
    && Closed(g, s.completed)
    && ReadySet(g, roots, s.completed) == s.ready + Busy(s.workers)
    && s.ready !! Busy(s.workers)
    && Distinct(s.workers)
  }

  /** Worker `i` freed: the rest of `s` is scheduled without it. */
  predicate FreedAt(g: Graph, roots: set<char>, s: Sim, i: nat)
    requires i < |s.workers|
  {
    Scheduled(g, roots, s.(workers := s.workers[i := None]))
  }

  /** Setting one worker changes the held steps by that worker only. */
  lemma BusySet(w: seq<Option<(char, nat)>>, i: nat, v: Option<(char, nat)>)
    requires i < |w|
    ensures Busy(w[i := v]) == Busy(w[i := None]) + (if v.Some? then {v.value.0} else {})
  {
    var w' := w[i := v];
    var n := w[i := None];
    forall x | x in Busy(w') ensures x in Busy(n) + (if v.Some? then {v.value.0} else {}) {
      var j :| 0 <= j < |w'| && w'[j].Some? && w'[j].value.0 == x;
      if j != i {
        assert n[j] == w[j];
      }
    }
    forall x | x in Busy(n) ensures x in Busy(w') {
      var j :| 0 <= j < |n| && n[j].Some? && n[j].value.0 == x;
      assert w'[j] == w[j];
    }
    if v.Some? {
      assert w'[i] == v;
    }
  }

  /** A worker holding a step it alone holds: freeing it frees that step. */
  lemma BusyFree(w: seq<Option<(char, nat)>>, i: nat)
    requires i < |w| && w[i].Some? && Distinct(w)
    ensures Busy(w[i := None]) == Busy(w) - {w[i].value.0}
    ensures Distinct(w[i := None])
  {
    BusySet(w, i, w[i]);
    assert w[i := w[i]] == w;
    var n := w[i := None];
    forall j | 0 <= j < |n| && n[j].Some? ensures n[j].value.0 != w[i].value.0 {
      assert n[j] == w[j];
    }
  }

  /** The assignment ends a worker's turn with the schedule kept. */
  lemma AssignKeeps(g: Graph, roots: set<char>, t: nat, s: Sim, i: nat)
    requires i < |s.workers| && FreedAt(g, roots, s, i)
    ensures Assign(t, s, i).Some? ==> Scheduled(g, roots, Assign(t, s, i).value)
  {
    var n := s.workers[i := None];
    if s.ready == {} {
      assert n[i := None] == n;
    } else {
      var m := LeastOf(s.ready);
      if CompletionTime(m).Some? {
        var v: Option<(char, nat)> := Some((m, t + CompletionTime(m).value));
        BusySet(s.workers, i, v);
        var w' := s.workers[i := v];
        forall j, k | 0 <= j < |w'| && 0 <= k < |w'| && j != k && w'[j].Some? && w'[k].Some?
          ensures w'[j].value.0 != w'[k].value.0
        {
          if j != i && k != i {
            assert n[j] == w'[j] && n[k] == w'[k];
          } else if j == i {
            assert n[k] == w'[k];
            assert w'[k].value.0 in Busy(n);
          } else {
            assert n[j] == w'[j];
            assert w'[j].value.0 in Busy(n);
          }
        }
      }
    }
  }

  /** Completing a held step releases only steps that were not yet
      ready, since each of them waited on it. */
  lemma ReleasedNew(g: Graph, roots: set<char>, done: set<char>, step: char)
    requires Consistent(g) && step !in done
    ensures Released(g, Children(g, step), done + {step}) !! ReadySet(g, roots, done)
  {
    forall c | c in Released(g, Children(g, step), done + {step}) ensures !Unblocked(g, c, done) {
      assert step in g.blockedBy[c];
    }
  }

  /** One worker's turn keeps the schedule. */
  lemma WorkerStepKeeps(g: Graph, roots: set<char>, t: nat, s: Sim, i: nat)
    requires Consistent(g) && RootsFree(g, roots)
    requires i < |s.workers| && Scheduled(g, roots, s)
    ensures WorkerStep(g, t, s, i).Some? ==> Scheduled(g, roots, WorkerStep(g, t, s, i).value)
  {
    match s.workers[i]
    case None =>
      assert s.workers[i := None] == s.workers;
      AssignKeeps(g, roots, t, s, i);
    case Some((step, done)) =>
      if t == done {
        var completed := s.completed + {step};
        var released := Released(g, Children(g, step), completed);
        var s' := Sim(s.ready + released, completed, s.workers);
        assert step in Busy(s.workers);
        BusyFree(s.workers, i);
        ReadyAfter(g, roots, s.completed, step);
        ReleasedNew(g, roots, s.completed, step);
        AssignKeeps(g, roots, t, s', i);
      }
  }

  /** A whole second keeps the schedule. */
  lemma {:induction false} TickKeeps(g: Graph, roots: set<char>, t: nat, s: Sim, i: nat)
    requires Consistent(g) && RootsFree(g, roots)
    requires i <= |s.workers| && Scheduled(g, roots, s)
    ensures TickFrom(g, t, s, i).Some? ==> Scheduled(g, roots, TickFrom(g, t, s, i).value)
    decreases |s.workers| - i
  {
    if i < |s.workers| {
      WorkerStepKeeps(g, roots, t, s, i);
      if WorkerStep(g, t, s, i).Some? {
        TickKeeps(g, roots, t, WorkerStep(g, t, s, i).value, i + 1);
      }
    }
  }

  /** The schedule holds at the start. */
  lemma StartScheduled(g: Graph, roots: set<char>)
    requires Consistent(g) && RootsFree(g, roots)
    ensures Scheduled(g, roots, Start(roots))
  {
    ReadyInitially(g, roots);
    assert Busy(Start(roots).workers) == {};
  }

  /** The state at the end of second `t + k`, starting from `s` at `t`. */
  function After(g: Graph, s: Sim, t: nat, k: nat): Option<Sim>
    decreases k
  {
    match TickFrom(g, t, s, 0)
    case None => None
    case Some(s') => if k == 0 then Some(s') else After(g, s', t + 1, k - 1)
  }

  /** Every step is complete. */
  predicate Finished(g: Graph, r: Option<Sim>) {
    r.Some? && |r.value.completed| == MaxSteps(g)
  }

  /** The simulation stops at the first second at whose end every step is
      complete, if that is within the fuel, and only then. */
  lemma {:induction false} SimulateMeans(g: Graph, s: Sim, t: nat, fuel: nat, k: nat)
    ensures Simulate(g, s, t, fuel) == Some(t + k)
        <==> k <= fuel && Finished(g, After(g, s, t, k))
             && Unfinished(g, s, t, k)
    decreases fuel
  {
    match TickFrom(g, t, s, 0)
    case None =>
      assert After(g, s, t, 0).None?;
    case Some(s') =>
      if |s'.completed| != MaxSteps(g) && fuel != 0 {
        SimulateFrom(g, s', t + 1, fuel - 1);
        if k != 0 {
          SimulateMeans(g, s', t + 1, fuel - 1, k - 1);
          UnfinishedStep(g, s, t, k, s');
          AfterStep(g, s, t, k, s');
        }
      } else if k != 0 {
        assert After(g, s, t, 0) == Some(s');
      }
  }

  /** The states at the end of seconds `t` to `t + k - 1` all exist and
      leave some step incomplete. */
  predicate Unfinished(g: Graph, s: Sim, t: nat, k: nat) {
    forall j :: 0 <= j < k ==> After(g, s, t, j).Some? && !Finished(g, After(g, s, t, j))
  }

  lemma AfterStep(g: Graph, s: Sim, t: nat, k: nat, s': Sim)
    requires k >= 1 && TickFrom(g, t, s, 0) == Some(s')
    ensures After(g, s, t, k) == After(g, s', t + 1, k - 1)
  {
  }

  lemma UnfinishedStep(g: Graph, s: Sim, t: nat, k: nat, s': Sim)
    requires k >= 1 && TickFrom(g, t, s, 0) == Some(s')
    ensures Unfinished(g, s, t, k) <==> |s'.completed| != MaxSteps(g) && Unfinished(g, s', t + 1, k - 1)
  {
    if |s'.completed| != MaxSteps(g) && Unfinished(g, s', t + 1, k - 1) {
      forall j | 0 <= j < k ensures After(g, s, t, j).Some? && !Finished(g, After(g, s, t, j)) {
        if j > 0 {
          AfterStep(g, s, t, j, s');
        }
      }
    }
    if Unfinished(g, s, t, k) {
      assert After(g, s, t, 0) == Some(s');
      var t' := t + 1;
      forall j | 0 <= j < k - 1 ensures After(g, s', t', j).Some? && !Finished(g, After(g, s', t', j)) {
        var j' := j + 1;
        AfterStep(g, s, t, j', s');
      }
    }
  }

  /** The simulation ends no earlier than it starts and within its fuel. */
  lemma {:induction false} SimulateFrom(g: Graph, s: Sim, t: nat, fuel: nat)
    ensures Simulate(g, s, t, fuel).Some? ==> t <= Simulate(g, s, t, fuel).value <= t + fuel
    decreases fuel
  {
    match TickFrom(g, t, s, 0)
    case None =>
    case Some(s') =>
      if |s'.completed| != MaxSteps(g) && fuel != 0 {
        SimulateFrom(g, s', t + 1, fuel - 1);
      }
  }

  /** Every state the simulation reaches keeps the schedule. */
  lemma {:induction false} AfterKeeps(g: Graph, roots: set<char>, s: Sim, t: nat, k: nat)
    requires Consistent(g) && RootsFree(g, roots) && Scheduled(g, roots, s)
    ensures After(g, s, t, k).Some? ==> Scheduled(g, roots, After(g, s, t, k).value)
    decreases k
  {
    TickKeeps(g, roots, t, s, 0);
    match TickFrom(g, t, s, 0)
    case None =>
    case Some(s') =>
      if k != 0 {
        AfterKeeps(g, roots, s', t + 1, k - 1);
      }
  }

  /** The worker loop of one second, on the `workers` array. */
  method TickWorkers(g: Graph, t: nat, ready0: set<char>, completed0: set<char>, workers: array<Option<(char, nat)>>)
    returns (ok: bool, ready: set<char>, completed: set<char>)
    modifies workers
    ensures ok <==> TickFrom(g, t, Sim(ready0, completed0, old(workers[..])), 0).Some?
    ensures ok ==> TickFrom(g, t, Sim(ready0, completed0, old(workers[..])), 0) == Some(Sim(ready, completed, workers[..]))
  {
    ready, completed := ready0, completed0;
    for i := 0 to workers.Length
      invariant TickFrom(g, t, Sim(ready0, completed0, old(workers[..])), 0) == TickFrom(g, t, Sim(ready, completed, workers[..]), i)
    {
      ghost var s := Sim(ready, completed, workers[..]);
      match workers[i] {
        case Some((step, done)) =>
          if t == done {
            completed := completed + {step};
            ready := ReleaseChildren(g, Children(g, step), completed, ready);
          } else {
            continue;
          }
        case None =>
      }
      if ready != {} {
        var m := Least(ready);
        ready := ready - {m};
        var d := CompletionTime(m);
        if d.None? {
          assert WorkerStep(g, t, s, i).None?;
          return false, ready, completed;
        }
        workers[i] := Some((m, t + d.value));
      } else {
        workers[i] := None;
      }
      assert WorkerStep(g, t, s, i) == Some(Sim(ready, completed, workers[..]));
    }
    ok := true;
  }

  /** `part2`: the `for t in 0..` loop over the worker array, stopping when
      every step is complete; it runs for at most `fuel + 1` seconds. */
  method Part2(g: Graph, roots: set<char>, fuel: nat) returns (r: Option<nat>)
    ensures r == Simulate(g, Start(roots), 0, fuel)
  {
    var completed: set<char> := {};
    var ready := roots;
    var workers := new Option<(char, nat)>[5](_ => None);
    assert workers[..] == Start(roots).workers;
    var maxSteps := |g.blocks.Keys + g.blockedBy.Keys|;
    var t := 0;
    while true
      invariant t <= fuel
      invariant Simulate(g, Start(roots), 0, fuel) == Simulate(g, Sim(ready, completed, workers[..]), t, fuel - t)
      decreases fuel - t
    {
      var ok;
      ok, ready, completed := TickWorkers(g, t, ready, completed, workers);
      if !ok {
        return None;
      }
      if |completed| == maxSteps {
        return Some(t);
      }
      if t == fuel {
        return None;
      }
      t := t + 1;
    }
  }

  // ---------------------------------------------------------------------
  // main

  /** The edges of the input lines, None when a line does not parse. */
  function ParseAll(lines: seq<string>): (r: Option<seq<(char, char)>>)
    ensures r.Some? <==> forall i :: 0 <= i < |lines| ==> ParseStep(lines[i]).Some?
    ensures r.Some? ==> |r.value| == |lines| && forall i :: 0 <= i < |lines| ==> ParseStep(lines[i]) == Some(r.value[i])
  {
    var parsed := seq(|lines|, i requires 0 <= i < |lines| => ParseStep(lines[i]));
    assert forall i :: 0 <= i < |lines| ==> parsed[i] == ParseStep(lines[i]);
    Collect(parsed)
  }

  /** The maps are determined by the edges. */
  lemma BuiltUnique(input: seq<(char, char)>, g1: Graph, g2: Graph)
    requires Built(input, g1) && Built(input, g2)
    ensures g1 == g2
  {
  }

  /** `main`: parse, build the maps, pick the roots, run both parts. */
  method Solve(lines: seq<string>, fuel: nat) returns (r: Option<(string, Option<nat>)>)
    ensures r.Some? <==> ParseAll(lines).Some?
    ensures r.Some? ==> forall g :: Built(ParseAll(lines).value, g) ==>
      && Order(g, Roots(ParseAll(lines).value, g), r.value.0)
      && r.value.1 == Simulate(g, Start(Roots(ParseAll(lines).value, g)), 0, fuel)
  {
    var input := ParseAll(lines);
    if input.None? {
      return None;
    }
    var g := BuildGraph(input.value);
    BuiltConsistent(input.value, g);
    var roots := Roots(input.value, g);
    var answer := Part1(g, roots);
    var time := Part2(g, roots, fuel);
    r := Some((answer, time));
    forall g' | Built(input.value, g') ensures g' == g {
      BuiltUnique(input.value, g', g);
    }
  }
}
