/** Day 5: Alchemical Reduction.  A polymer is a string of units; two
    adjacent units of the same letter in opposite case react and vanish.
    Part 1 is the length of the fully reacted polymer; part 2 removes both
    cases of one letter first and takes the shortest result over the 26
    letters. */
module Day05 {
  import opened Wrappers
  import opened Maxima

  predicate IsUpper(c: char) {
    'A' <= c <= 'Z'
  }

  predicate IsLower(c: char) {
    'a' <= c <= 'z'
  }

  /** `char::to_ascii_lowercase`: other characters are unchanged. */
  function ToLower(c: char): (r: char)
    ensures IsUpper(c) ==> IsLower(r)
    ensures !IsUpper(c) ==> r == c
  {
    if IsUpper(c) then (c as int + 32) as char else c
  }

  /** `char::to_ascii_uppercase`. */
  function ToUpper(c: char): (r: char)
    ensures IsLower(c) ==> IsUpper(r)
    ensures !IsLower(c) ==> r == c
  {
    if IsLower(c) then (c as int - 32) as char else c
  }

  /** `is_reacting`: an uppercase unit reacts with its lowercase, any other
      unit with its uppercase. */
  predicate IsReacting(a: char, b: char) {
    if IsUpper(a) then ToLower(a) == b else ToUpper(a) == b
  }

  /** On a letter, reacting means the other unit is the same letter in the
      other case. */
  lemma ReactingLetter(a: char, b: char)
    requires IsUpper(a) || IsLower(a)
    ensures IsReacting(a, b) <==> a != b && ToLower(a) == ToLower(b)
  {
  }

  /** Any other character reacts only with itself. */
  lemma ReactingOther(a: char, b: char)
    requires !IsUpper(a) && !IsLower(a)
    ensures IsReacting(a, b) <==> a == b
  {
  }

  /** Reacting is symmetric. */
  lemma ReactingSymmetric(a: char, b: char)
    ensures IsReacting(a, b) <==> IsReacting(b, a)
  {
  }

  // ---------------------------------------------------------------------
  // fully_react

  /** No two adjacent units react. */
  predicate Inert(s: seq<char>) {
    forall i :: 0 <= i < |s| - 1 ==> !IsReacting(s[i], s[i + 1])
  }

  /** `tuple_windows().position(...)` from window `i` on: the first window at
      or after `i` whose two units react. */
  function ReactingFrom(s: seq<char>, i: nat): (r: Option<nat>)
    requires i <= |s|
    ensures r.Some? ==> i <= r.value && r.value + 1 < |s| && IsReacting(s[r.value], s[r.value + 1])
    ensures r.Some? ==> forall j :: i <= j < r.value ==> !IsReacting(s[j], s[j + 1])
    ensures r.None? ==> forall j :: i <= j < |s| - 1 ==> !IsReacting(s[j], s[j + 1])
    decreases |s| - i
  {
    if i + 1 >= |s| then None
    else if IsReacting(s[i], s[i + 1]) then Some(i)
    else ReactingFrom(s, i + 1)
  }

  /** The leftmost reacting pair, if any. */
  function FirstReacting(s: seq<char>): (r: Option<nat>)
    ensures r.None? <==> Inert(s)
    ensures r.Some? ==> r.value + 1 < |s| && IsReacting(s[r.value], s[r.value + 1])
    ensures r.Some? ==> forall j :: 0 <= j < r.value ==> !IsReacting(s[j], s[j + 1])
  {
    ReactingFrom(s, 0)
  }

  /** The polymer without the two units at `p` and `p + 1`: the
      `split_off`, two `pop_front`s and `append` of one iteration. */
  function RemovePair(s: seq<char>, p: nat): (r: seq<char>)
    requires p + 1 < |s|
    ensures |r| == |s| - 2
    ensures forall j :: 0 <= j < p ==> r[j] == s[j]
    ensures forall j :: p <= j < |r| ==> r[j] == s[j + 2]
  {
    s[..p] + s[p + 2..]
  }

  /** The polymer after removing the leftmost reacting pair until none is
      left. */
  function Reduce(s: seq<char>): (r: seq<char>)
    ensures Inert(r)
    ensures |r| <= |s| && (|s| - |r|) % 2 == 0
    decreases |s|
  {
    match FirstReacting(s)
    case None => s
    case Some(p) => Reduce(RemovePair(s, p))
  }

  /** A polymer with no reacting pair is already fully reacted. */
  lemma ReduceInert(s: seq<char>)
    requires Inert(s)
    ensures Reduce(s) == s
  {
  }

  /** Reacting fully twice is the same as once. */
  lemma ReduceIdempotent(s: seq<char>)
    ensures Reduce(Reduce(s)) == Reduce(s)
  {
    ReduceInert(Reduce(s));
  }

  /** `fully_react`: the length of the polymer left when no reacting pair
      remains; each iteration removes the leftmost reacting pair. */
  method FullyReact(input: seq<char>) returns (n: nat)
    ensures n == |Reduce(input)|
  {
    var polymer := input;
    var p := FirstReacting(polymer);
    while p.Some?
      invariant Reduce(polymer) == Reduce(input)
      invariant p == FirstReacting(polymer)
      decreases |polymer|
    {
      polymer := polymer[..p.value] + polymer[p.value + 2..];
      p := FirstReacting(polymer);
    }
    n := |polymer|;
  }

  // ---------------------------------------------------------------------
  // part2

  /** The polymer without the units `u` with `u == c` or
      `u.to_ascii_lowercase() == c`. */
  function Strip(s: seq<char>, c: char): (r: seq<char>)
    ensures |r| <= |s|
    ensures forall i :: 0 <= i < |r| ==> r[i] in s && r[i] != c && ToLower(r[i]) != c
    ensures forall i :: 0 <= i < |s| && s[i] != c && ToLower(s[i]) != c ==> s[i] in r
    decreases |s|
  {
    if s == [] then []
    else if s[0] != c && ToLower(s[0]) != c then [s[0]] + Strip(s[1..], c)
    else
      assert forall i :: 1 <= i < |s| ==> s[i] == s[1..][i - 1];
      Strip(s[1..], c)
  }

  /** A single unit is kept exactly when it passes the filter. */
  lemma StripUnit(u: char, c: char)
    ensures Strip([u], c) == if u != c && ToLower(u) != c then [u] else []
  {
    assert [u][1..] == [];
  }

  /** The filter works unit by unit: stripping two polymers put together
      is stripping each and putting the results together, so order and
      multiplicity of the kept units are those of the input. */
  lemma {:induction false} StripConcat(a: seq<char>, b: seq<char>, c: char)
    ensures Strip(a + b, c) == Strip(a, c) + Strip(b, c)
    decreases |a|
  {
    if a == [] {
      assert a + b == b;
    } else {
      assert (a + b)[0] == a[0];
      assert (a + b)[1..] == a[1..] + b;
      StripConcat(a[1..], b, c);
    }
  }

  /** Stripping a polymer is the same as stripping it unit by unit, left
      to right: `Strip(s, c)` is the concatenation of the stripped units. */
  lemma {:induction false} StripSnoc(s: seq<char>, u: char, c: char)
    ensures Strip(s + [u], c) == Strip(s, c) + if u != c && ToLower(u) != c then [u] else []
  {
    StripConcat(s, [u], c);
    StripUnit(u, c);
  }

  /** For a lowercase letter, a unit is kept exactly when it is not that
      letter in either case. */
  lemma StripLetter(s: seq<char>, c: char, u: char)
    requires IsLower(c) && u in s
    ensures u in Strip(s, c) <==> u != c && u != ToUpper(c)
  {
    var i :| 0 <= i < |s| && s[i] == u;
    if u in Strip(s, c) {
      var k :| 0 <= k < |Strip(s, c)| && Strip(s, c)[k] == u;
    }
  }

  /** The `k`-th lowercase letter, `(97 + k) as char`. */
  function Letter(k: nat): (c: char)
    requires k < 26
    ensures IsLower(c)
  {
    (97 + k) as char
  }

  /** The fully reacted length of each of the 26 stripped polymers. */
  function StrippedLengths(input: seq<char>): (r: seq<int>)
    ensures |r| == 26
    ensures forall k :: 0 <= k < 26 ==> r[k] == |Reduce(Strip(input, Letter(k)))|
  {
    seq(26, k requires 0 <= k < 26 => |Reduce(Strip(input, Letter(k)))|)
  }

  /** part 2: the shortest fully reacted polymer over the 26 letters
      removed. */
  function Part2(input: seq<char>): (r: nat)
    ensures exists k :: 0 <= k < 26 && r == |Reduce(Strip(input, Letter(k)))|
    ensures forall k :: 0 <= k < 26 ==> r <= |Reduce(Strip(input, Letter(k)))|
    ensures r <= |input|
  {
    var lengths := StrippedLengths(input);
    var k := FirstMin(lengths, (n: int) => n);
    assert lengths[k] == |Reduce(Strip(input, Letter(k)))|;
    lengths[k]
  }
}
