/** Day 10: points of light drifting at constant velocities.  The message
    appears at the second at which the points are closest together; the
    program stops when the bounding box starts to grow again.  Rust's
    `isize` is 64 bits wide here, and its arithmetic is checked: an
    overflow is a panic in a debug build, and None in this model. */
module Day10 {
  import opened Wrappers

  const ISIZE_MIN: int := -0x8000_0000_0000_0000
  const ISIZE_MAX: int := 0x7fff_ffff_ffff_ffff

  newtype isize = x: int | -0x8000_0000_0000_0000 <= x <= 0x7fff_ffff_ffff_ffff

  /** A point of light: where it is and how far it moves each second. */
  datatype Particle = Particle(position: (isize, isize), velocity: (isize, isize))

  /** `isize` arithmetic on an exact result: None when it overflows. */
  function Checked(x: int): (r: Option<isize>)
    ensures r.Some? <==> ISIZE_MIN <= x <= ISIZE_MAX
    ensures r.Some? ==> r.value as int == x
  {
    if ISIZE_MIN <= x <= ISIZE_MAX then Some(x as isize) else None
  }

  // ---------------------------------------------------------------------
  // tick

  /** One particle a second later. */
  function Move(p: Particle): Option<Particle> {
    var x := Checked(p.position.0 as int + p.velocity.0 as int);
    var y := Checked(p.position.1 as int + p.velocity.1 as int);
    if x.None? || y.None? then None else Some(Particle((x.value, y.value), p.velocity))
  }

  /** `tick`: the `map` of `Move` over the particles, collected. */
  function Tick(ps: seq<Particle>): Option<seq<Particle>> {
    if ps == [] then Some([])
    else match (Tick(ps[..|ps| - 1]), Move(ps[|ps| - 1]))
      case (Some(init), Some(p)) => Some(init + [p])
      case _ => None
  }

  /** The tick succeeds unless a coordinate overflows; then each particle
      has moved by its velocity, kept it and kept its place. */
  lemma {:induction false} TickMoves(ps: seq<Particle>)
    ensures Tick(ps).Some? <==> forall i :: 0 <= i < |ps| ==> Move(ps[i]).Some?
    ensures Tick(ps).Some? ==> |Tick(ps).value| == |ps|
    ensures Tick(ps).Some? ==> forall i :: 0 <= i < |ps| ==>
      && Tick(ps).value[i].velocity == ps[i].velocity
      && Tick(ps).value[i].position.0 as int == ps[i].position.0 as int + ps[i].velocity.0 as int
      && Tick(ps).value[i].position.1 as int == ps[i].position.1 as int + ps[i].velocity.1 as int
  {
    if ps != [] {
      var init := ps[..|ps| - 1];
      TickMoves(init);
      assert forall i :: 0 <= i < |init| ==> init[i] == ps[i];
    }
  }

  /** `n` ticks. */
  function Ticks(ps: seq<Particle>, n: nat): Option<seq<Particle>>
    decreases n
  {
    if n == 0 then Some(ps)
    else match Ticks(ps, n - 1)
      case None => None
      case Some(q) => Tick(q)
  }

  /** After `n` ticks every particle has moved by `n` times its velocity. */
  lemma {:induction false} TicksMove(ps: seq<Particle>, n: nat, i: int)
    requires Ticks(ps, n).Some? && 0 <= i < |ps|
    ensures |Ticks(ps, n).value| == |ps|
    ensures Ticks(ps, n).value[i].velocity == ps[i].velocity
    ensures Ticks(ps, n).value[i].position.0 as int == ps[i].position.0 as int + n * ps[i].velocity.0 as int
    ensures Ticks(ps, n).value[i].position.1 as int == ps[i].position.1 as int + n * ps[i].velocity.1 as int
  {
    if n > 0 {
      var m := n - 1;
      TicksMove(ps, m, i);
      var q := Ticks(ps, m).value;
      assert Ticks(ps, n) == Tick(q);
      TickMoves(q);
      var v0, v1 := ps[i].velocity.0 as int, ps[i].velocity.1 as int;
      Times(n, m, v0);
      Times(n, m, v1);
    }
  }

  lemma Times(n: int, m: int, v: int)
    requires n == m + 1
    ensures n * v == m * v + v
  {
  }

  // ---------------------------------------------------------------------
  // bounds

  /** Least x, least y, greatest x, greatest y. */
  type Box = (isize, isize, isize, isize)

  /** `min` on `isize`, which as a newtype does not share `Maxima.Min`. */
  function Min(a: isize, b: isize): isize {
    if a <= b then a else b
  }

  function Max(a: isize, b: isize): isize {
    if a >= b then a else b
  }

  /** The fold's seed: the empty box. */
  const Empty: Box := (ISIZE_MAX as isize, ISIZE_MAX as isize, ISIZE_MIN as isize, ISIZE_MIN as isize)

  /** `bounds`: the fold widening the seed by each position in turn. */
  function Bounds(ps: seq<Particle>): Box {
    if ps == [] then Empty
    else
      var b := Bounds(ps[..|ps| - 1]);
      var (x, y) := ps[|ps| - 1].position;
      (Min(x, b.0), Min(y, b.1), Max(x, b.2), Max(y, b.3))
  }

  /** The box of no particles is the seed; every particle lies inside its
      list's box. */
  lemma {:induction false} BoundsContain(ps: seq<Particle>)
    ensures ps == [] ==> Bounds(ps) == Empty
    ensures forall i :: 0 <= i < |ps| ==>
      Bounds(ps).0 <= ps[i].position.0 <= Bounds(ps).2 && Bounds(ps).1 <= ps[i].position.1 <= Bounds(ps).3
  {
    if ps != [] {
      var init := ps[..|ps| - 1];
      BoundsContain(init);
      assert forall i :: 0 <= i < |init| ==> init[i] == ps[i];
    }
  }

  /** Each side of the box of a non-empty list touches a particle. */
  lemma {:induction false} BoundsAttained(ps: seq<Particle>)
    requires ps != []
    ensures exists i :: 0 <= i < |ps| && ps[i].position.0 == Bounds(ps).0
    ensures exists i :: 0 <= i < |ps| && ps[i].position.1 == Bounds(ps).1
    ensures exists i :: 0 <= i < |ps| && ps[i].position.0 == Bounds(ps).2
    ensures exists i :: 0 <= i < |ps| && ps[i].position.1 == Bounds(ps).3
  {
    var n := |ps| - 1;
    var init := ps[..n];
    var (x, y) := ps[n].position;
    if init == [] {
      assert ps[0].position == (Bounds(ps).0, Bounds(ps).1) == (Bounds(ps).2, Bounds(ps).3);
    } else {
      BoundsAttained(init);
      var b := Bounds(init);
      assert forall i :: 0 <= i < |init| ==> init[i] == ps[i];
      var i0 :| 0 <= i0 < |init| && init[i0].position.0 == b.0;
      var i1 :| 0 <= i1 < |init| && init[i1].position.1 == b.1;
      var i2 :| 0 <= i2 < |init| && init[i2].position.0 == b.2;
      var i3 :| 0 <= i3 < |init| && init[i3].position.1 == b.3;
      assert Bounds(ps) == (Min(x, b.0), Min(y, b.1), Max(x, b.2), Max(y, b.3));
      assert ps[if x <= b.0 then n else i0].position.0 == Bounds(ps).0;
      assert ps[if y <= b.1 then n else i1].position.1 == Bounds(ps).1;
      assert ps[if x >= b.2 then n else i2].position.0 == Bounds(ps).2;
      assert ps[if y >= b.3 then n else i3].position.1 == Bounds(ps).3;
    }
  }

  /** Width and height of the bounding box (`endx - startx`,
      `endy - starty`), None when either subtraction overflows. */
  function Extent(ps: seq<Particle>): Option<(isize, isize)> {
    var b := Bounds(ps);
    var w := Checked(b.2 as int - b.0 as int);
    var h := Checked(b.3 as int - b.1 as int);
    if w.None? || h.None? then None else Some((w.value, h.value))
  }

  /** The empty list's box is the seed, whose width overflows. */
  lemma ExtentEmpty()
    ensures Extent([]) == None
  {
  }

  /** The width and height are the spread of the coordinates. */
  lemma ExtentSpread(ps: seq<Particle>, i: int, j: int)
    requires 0 <= i < |ps| && 0 <= j < |ps| && Extent(ps).Some?
    ensures ps[i].position.0 as int - ps[j].position.0 as int <= Extent(ps).value.0 as int
    ensures ps[i].position.1 as int - ps[j].position.1 as int <= Extent(ps).value.1 as int
    ensures 0 <= Extent(ps).value.0 && 0 <= Extent(ps).value.1
  {
    BoundsContain(ps);
  }

  // ---------------------------------------------------------------------
  // main

  /** The box of the next second is wider or taller. */
  predicate Grows(e: (isize, isize), next: (isize, isize)) {
    next.0 > e.0 || next.1 > e.1
  }

  /** Width and height at the end of second `j`, when they exist. */
  function ExtentAt(input: seq<Particle>, j: nat): Option<(isize, isize)> {
    match Ticks(input, j)
    case None => None
    case Some(ps) => Extent(ps)
  }

  /** Second `j` is accepted: the box does not grow. */
  predicate Calm(input: seq<Particle>, j: nat) {
    ExtentAt(input, j).Some? && ExtentAt(input, j + 1).Some? && !Grows(ExtentAt(input, j).value, ExtentAt(input, j + 1).value)
  }

  /** The box grows after second `t`. */
  predicate Stops(input: seq<Particle>, t: nat) {
    ExtentAt(input, t).Some? && ExtentAt(input, t + 1).Some? && Grows(ExtentAt(input, t).value, ExtentAt(input, t + 1).value)
  }

  /** Seconds `0` to `t - 1` are all accepted. */
  predicate CalmBefore(input: seq<Particle>, t: nat) {
    t == 0 || (CalmBefore(input, t - 1) && Calm(input, t - 1))
  }

  lemma {:induction false} CalmBeforeMeans(input: seq<Particle>, t: nat)
    ensures CalmBefore(input, t) <==> forall j :: 0 <= j < t ==> Calm(input, j)
  {
    if t > 0 {
      CalmBeforeMeans(input, t - 1);
    }
  }

  /** The loop stops at second `t`: the box grows, and it did not before. */
  predicate FirstStop(input: seq<Particle>, t: nat) {
    Stops(input, t) && CalmBefore(input, t)
  }

  /** Only one second is the first at which the box grows. */
  lemma FirstStopUnique(input: seq<Particle>, t: nat, u: nat)
    requires FirstStop(input, t) && FirstStop(input, u)
    ensures t == u
  {
    CalmBeforeMeans(input, t);
    CalmBeforeMeans(input, u);
    assert t < u ==> Calm(input, t);
    assert u < t ==> Calm(input, u);
  }

  /** Up to the stop the box never grows: its width and height at a later
      second are at most those at an earlier one. */
  lemma {:induction false} Shrinking(input: seq<Particle>, t: nat, j: nat, k: nat)
    requires forall i :: 0 <= i < t ==> Calm(input, i)
    requires j <= k <= t && ExtentAt(input, j).Some? && ExtentAt(input, k).Some?
    ensures ExtentAt(input, k).value.0 <= ExtentAt(input, j).value.0
    ensures ExtentAt(input, k).value.1 <= ExtentAt(input, j).value.1
    decreases k - j
  {
    if j < k {
      var j' := j + 1;
      assert Calm(input, j);
      Shrinking(input, t, j', k);
    }
  }

  /** If every second before `t` was accepted and `t` failed, or was
      accepted with no fuel left, no second up to `fuel` is the first stop. */
  lemma NoStop(input: seq<Particle>, t: nat, fuel: nat)
    requires CalmBefore(input, t)
    requires !Stops(input, t) && (fuel <= t || !Calm(input, t))
    ensures forall u :: 0 <= u <= fuel ==> !FirstStop(input, u)
  {
    CalmBeforeMeans(input, t);
    forall u | 0 <= u <= fuel ensures !FirstStop(input, u) {
      CalmBeforeMeans(input, u);
      if u < t {
        assert Calm(input, u);
      } else if u > t {
        assert !Calm(input, t);
      }
    }
  }

  /** The `for t in 0..` loop of `main`, for at most `fuel + 1` seconds:
      the first second at which the box grows, with the particles before
      that tick (the ones `draw` prints). */
  method Message(input: seq<Particle>, fuel: nat) returns (r: Option<(nat, seq<Particle>)>)
    ensures r.Some? ==> r.value.0 <= fuel && FirstStop(input, r.value.0) && Ticks(input, r.value.0) == Some(r.value.1)
    ensures r.None? ==> forall u :: 0 <= u <= fuel ==> !FirstStop(input, u)
  {
    var b := Bounds(input);
    var w := Checked(b.2 as int - b.0 as int);
    var h := Checked(b.3 as int - b.1 as int);
    if w.None? || h.None? {
      NoStop(input, 0, fuel);
      return None;
    }
    var particles := input;
    var width, height := w.value, h.value;
    var t := 0;
    while true
      invariant t <= fuel
      invariant Ticks(input, t) == Some(particles) && ExtentAt(input, t) == Some((width, height))
      invariant CalmBefore(input, t)
      decreases fuel - t
    {
      var next := Tick(particles);
      assert Ticks(input, t + 1) == next;
      if next.None? {
        NoStop(input, t, fuel);
        return None;
      }
      var nb := Bounds(next.value);
      var nw := Checked(nb.2 as int - nb.0 as int);
      var nh := Checked(nb.3 as int - nb.1 as int);
      if nw.None? || nh.None? {
        NoStop(input, t, fuel);
        return None;
      }
      assert ExtentAt(input, t + 1) == Some((nw.value, nh.value));
      if nw.value > width || nh.value > height {
        return Some((t, particles));
      }
      if t == fuel {
        NoStop(input, t, fuel);
        return None;
      }
      particles, width, height := next.value, nw.value, nh.value;
      t := t + 1;
    }
  }
}
