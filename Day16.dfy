/** Day 16: a four-register machine with sixteen opcodes.  `part1` counts
    the sample instructions that behave like three or more opcodes; `part2`
    works out which number is which opcode by elimination and runs the
    program on it. */
module Day16 {
  import opened Wrappers
  import opened Text

  datatype Opcode =
    | Addr | Addi | Mulr | Muli | Banr | Bani | Borr | Bori
    | Setr | Seti | Gtir | Gtri | Gtrr | Eqir | Eqri | Eqrr

  /** `ALL_OPCODES`, in declaration order. */
  const AllOpcodes: seq<Opcode> :=
    [Addr, Addi, Mulr, Muli, Banr, Bani, Borr, Bori, Setr, Seti, Gtir, Gtri, Gtrr, Eqir, Eqri, Eqrr]

  predicate Distinct<T(==)>(xs: seq<T>) {
    forall i, j :: 0 <= i < j < |xs| ==> xs[i] != xs[j]
  }

  /** Every opcode is listed exactly once. */
  lemma AllOpcodesListed(op: Opcode)
    ensures op in AllOpcodes && Distinct(AllOpcodes) && |AllOpcodes| == 16
  {
  }

  datatype Instruction = Instruction(op: Opcode, a: nat, b: nat, c: nat)

  // ---------------------------------------------------------------------
  // Bitwise and and or on naturals, one bit at a time

  function BitAnd(x: nat, y: nat): nat
    decreases x
  {
    if x == 0 || y == 0 then 0 else 2 * BitAnd(x / 2, y / 2) + (x % 2) * (y % 2)
  }

  function BitOr(x: nat, y: nat): nat
    decreases x + y
  {
    if x == 0 then y
    else if y == 0 then x
    else 2 * BitOr(x / 2, y / 2) + (if x % 2 == 1 || y % 2 == 1 then 1 else 0)
  }

  /** And and or are commutative. */
  lemma {:induction false} BitSymmetry(x: nat, y: nat)
    ensures BitAnd(x, y) == BitAnd(y, x) && BitOr(x, y) == BitOr(y, x)
    decreases x
  {
    if x != 0 && y != 0 {
      var hx, hy := x / 2, y / 2;
      BitSymmetry(hx, hy);
    }
  }

  /** And and or of a number with itself give the number. */
  lemma {:induction false} BitIdempotent(x: nat)
    ensures BitAnd(x, x) == x && BitOr(x, x) == x
    decreases x
  {
    if x != 0 {
      var hx := x / 2;
      BitIdempotent(hx);
      assert (x % 2) * (x % 2) == x % 2;
    }
  }

  /** And and or together add up to the sum (a bit set in both is counted
      once by each); and keeps at most the bits of either operand, or at
      least those of both. */
  lemma BitSum(x: nat, y: nat)
    ensures BitAnd(x, y) + BitOr(x, y) == x + y
    ensures BitAnd(x, y) <= x && BitAnd(x, y) <= y
    ensures x <= BitOr(x, y) && y <= BitOr(x, y)
  {
    BitAddsUp(x, y);
    BitAndBelow(x, y);
  }

  lemma {:induction false} BitAddsUp(x: nat, y: nat)
    ensures BitAnd(x, y) + BitOr(x, y) == x + y
    decreases x
  {
    if x != 0 && y != 0 {
      var hx, hy := x / 2, y / 2;
      BitAddsUp(hx, hy);
      var bx, bY := x % 2, y % 2;
      assert bx * bY + (if bx == 1 || bY == 1 then 1 else 0) == bx + bY by {
        assert bx == 0 || bx == 1;
        assert bY == 0 || bY == 1;
      }
    }
  }

  lemma {:induction false} BitAndBelow(x: nat, y: nat)
    ensures BitAnd(x, y) <= x && BitAnd(x, y) <= y
    decreases x
  {
    if x != 0 && y != 0 {
      var hx, hy := x / 2, y / 2;
      BitAndBelow(hx, hy);
      var bx, bY := x % 2, y % 2;
      assert bx * bY <= bx && bx * bY <= bY by {
        assert bx == 0 || bx == 1;
        assert bY == 0 || bY == 1;
      }
    }
  }

  function Pow2(k: nat): (p: nat)
    ensures p >= 1
  {
    if k == 0 then 1 else 2 * Pow2(k - 1)
  }

  /** Or of two `k`-bit numbers has `k` bits, so it never leaves `usize`. */
  lemma {:induction false} BitOrBelow(x: nat, y: nat, k: nat)
    requires x < Pow2(k) && y < Pow2(k)
    ensures BitOr(x, y) < Pow2(k)
    decreases k
  {
    if x != 0 && y != 0 {
      var hx, hy, k1 := x / 2, y / 2, k - 1;
      BitOrBelow(hx, hy, k1);
    }
  }

  lemma UsizeIsPow2()
    ensures USIZE_MAX + 1 == Pow2(64)
  {
    Pow2Of32();
    assert Pow2(64) == 0x1_0000_0000_0000_0000 by { Pow2Add(32, 32); }
  }

  lemma Pow2Of32()
    ensures Pow2(32) == 0x1_0000_0000
  {
    Pow2Of16();
    assert Pow2(32) == 0x1_0000_0000 by { Pow2Add(16, 16); }
  }

  lemma Pow2Of16()
    ensures Pow2(16) == 0x1_0000
  {
    assert Pow2(4) == 16;
    assert Pow2(8) == 256 by { Pow2Add(4, 4); }
    assert Pow2(16) == 0x1_0000 by { Pow2Add(8, 8); }
  }

  lemma {:induction false} Pow2Add(j: nat, k: nat)
    ensures Pow2(j + k) == Pow2(j) * Pow2(k)
    decreases j
  {
    if j > 0 {
      var j1 := j - 1;
      Pow2Add(j1, k);
    }
  }

  // ---------------------------------------------------------------------
  // Instruction::apply

  /** Opcodes that read register `a` (the others use `a` as a value). */
  predicate ReadsA(op: Opcode) {
    op !in {Seti, Gtir, Eqir}
  }

  /** Opcodes that read register `b` (the others use `b` as a value or
      ignore it). */
  predicate ReadsB(op: Opcode) {
    op in {Addr, Mulr, Banr, Borr, Gtir, Gtrr, Eqir, Eqrr}
  }

  function Bit(b: bool): nat {
    if b then 1 else 0
  }

  /** The value an opcode writes, given `a` and `b` and the registers they
      name (`ra`, `rb`). */
  function Value(op: Opcode, a: nat, b: nat, ra: nat, rb: nat): nat {
    match op
    case Addr => ra + rb
    case Addi => ra + b
    case Mulr => ra * rb
    case Muli => ra * b
    case Banr => BitAnd(ra, rb)
    case Bani => BitAnd(ra, b)
    case Borr => BitOr(ra, rb)
    case Bori => BitOr(ra, b)
    case Setr => ra
    case Seti => a
    case Gtir => Bit(a > rb)
    case Gtri => Bit(ra > b)
    case Gtrr => Bit(ra > rb)
    case Eqir => Bit(a == rb)
    case Eqri => Bit(ra == b)
    case Eqrr => Bit(ra == rb)
  }

  /** `apply`: the registers after the instruction, or None where the
      program panics: a register index out of range or a `usize` overflow
      of add or mul. */
  function Apply(ins: Instruction, before: seq<nat>): Option<seq<nat>> {
    var Instruction(op, a, b, c) := ins;
    if c >= |before| || (ReadsA(op) && a >= |before|) || (ReadsB(op) && b >= |before|) then None
    else
      var ra := if a < |before| then before[a] else 0;
      var rb := if b < |before| then before[b] else 0;
      var v := Value(op, a, b, ra, rb);
      if v > USIZE_MAX then None else Some(before[c := v])
  }

  predicate Words(regs: seq<nat>) {
    forall i :: 0 <= i < |regs| ==> regs[i] <= USIZE_MAX
  }

  /** The result has the length of `before`, differs from it at most in
      register `c`, and stays in `usize`. */
  lemma ApplyFrame(ins: Instruction, before: seq<nat>)
    ensures Apply(ins, before).Some? ==>
              var after := Apply(ins, before).value;
              |after| == |before| && ins.c < |before| && after[ins.c] <= USIZE_MAX
              && forall j :: 0 <= j < |before| && j != ins.c ==> after[j] == before[j]
  {
  }

  /** Only add and mul can leave `usize`: every other opcode writes a value
      in range when its operands are. */
  lemma ValueInRange(op: Opcode, a: nat, b: nat, ra: nat, rb: nat)
    requires a <= USIZE_MAX && b <= USIZE_MAX && ra <= USIZE_MAX && rb <= USIZE_MAX
    requires op !in {Addr, Addi, Mulr, Muli}
    ensures Value(op, a, b, ra, rb) <= USIZE_MAX
  {
    match op
    case Banr => BitSum(ra, rb);
    case Bani => BitSum(ra, b);
    case Borr => UsizeIsPow2(); BitOrBelow(ra, rb, 64);
    case Bori => UsizeIsPow2(); BitOrBelow(ra, b, 64);
    case _ =>
  }

  /** With registers and operands in `usize`, an opcode other than add and
      mul fails exactly when a register it uses is out of range. */
  lemma ApplyFailsOnlyOutOfRange(ins: Instruction, before: seq<nat>)
    requires Words(before) && ins.a <= USIZE_MAX && ins.b <= USIZE_MAX && ins.op !in {Addr, Addi, Mulr, Muli}
    ensures Apply(ins, before).None? <==>
              ins.c >= |before| || (ReadsA(ins.op) && ins.a >= |before|) || (ReadsB(ins.op) && ins.b >= |before|)
  {
    var Instruction(op, a, b, c) := ins;
    var ra := if a < |before| then before[a] else 0;
    var rb := if b < |before| then before[b] else 0;
    ValueInRange(op, a, b, ra, rb);
  }

  /** The register forms of add, mul, and and or are the immediate forms
      applied to the value of register `b`. */
  lemma RegisterIsImmediate(a: nat, b: nat, c: nat, regs: seq<nat>)
    requires b < |regs|
    ensures Apply(Instruction(Addr, a, b, c), regs) == Apply(Instruction(Addi, a, regs[b], c), regs)
    ensures Apply(Instruction(Mulr, a, b, c), regs) == Apply(Instruction(Muli, a, regs[b], c), regs)
    ensures Apply(Instruction(Banr, a, b, c), regs) == Apply(Instruction(Bani, a, regs[b], c), regs)
    ensures Apply(Instruction(Borr, a, b, c), regs) == Apply(Instruction(Bori, a, regs[b], c), regs)
  {
  }

  /** `setr` copies register `a`, `seti` writes `a` itself, and both
      ignore `b`. */
  lemma SetIgnoresB(a: nat, b: nat, b': nat, c: nat, regs: seq<nat>)
    ensures Apply(Instruction(Setr, a, b, c), regs) == Apply(Instruction(Setr, a, b', c), regs)
    ensures Apply(Instruction(Seti, a, b, c), regs) == Apply(Instruction(Seti, a, b', c), regs)
    ensures a < |regs| && c < |regs| && Words(regs) ==> Apply(Instruction(Setr, a, b, c), regs) == Some(regs[c := regs[a]])
    ensures c < |regs| && a <= USIZE_MAX ==> Apply(Instruction(Seti, a, b, c), regs) == Some(regs[c := a])
  {
  }

  /** The comparisons write 1 exactly when their relation holds between
      the operands the opcode names (`i` a value, `r` a register) and 0
      otherwise. */
  lemma ComparisonsWriteBits(a: nat, b: nat, c: nat, regs: seq<nat>)
    requires c < |regs|
    ensures b < |regs| ==> Apply(Instruction(Gtir, a, b, c), regs) == Some(regs[c := if a > regs[b] then 1 else 0])
    ensures a < |regs| ==> Apply(Instruction(Gtri, a, b, c), regs) == Some(regs[c := if regs[a] > b then 1 else 0])
    ensures a < |regs| && b < |regs| ==>
              Apply(Instruction(Gtrr, a, b, c), regs) == Some(regs[c := if regs[a] > regs[b] then 1 else 0])
    ensures b < |regs| ==> Apply(Instruction(Eqir, a, b, c), regs) == Some(regs[c := if a == regs[b] then 1 else 0])
    ensures a < |regs| ==> Apply(Instruction(Eqri, a, b, c), regs) == Some(regs[c := if regs[a] == b then 1 else 0])
    ensures a < |regs| && b < |regs| ==>
              Apply(Instruction(Eqrr, a, b, c), regs) == Some(regs[c := if regs[a] == regs[b] then 1 else 0])
  {
  }

  // ---------------------------------------------------------------------
  // The samples

  /** A sample: registers before and after, and the instruction as numbers
      (`code` is the `u8` opcode number). */
  datatype Example = Example(before: seq<nat>, after: seq<nat>, code: nat, a: nat, b: nat, c: nat)

  predicate Behaves(ex: Example, op: Opcode) {
    Apply(Instruction(op, ex.a, ex.b, ex.c), ex.before) == Some(ex.after)
  }

  /** Some opcode of `ops` panics on the sample. */
  predicate PanicsFrom(ops: seq<Opcode>, ex: Example) {
    ops != [] && (Apply(Instruction(ops[0], ex.a, ex.b, ex.c), ex.before).None? || PanicsFrom(ops[1..], ex))
  }

  /** The opcodes of `ops` that turn `before` into `after`. */
  function BehavesFrom(ops: seq<Opcode>, ex: Example): set<Opcode> {
    if ops == [] then {} else (if Behaves(ex, ops[0]) then {ops[0]} else {}) + BehavesFrom(ops[1..], ex)
  }

  lemma {:induction false} BehavesFromMeans(ops: seq<Opcode>, ex: Example, op: Opcode)
    ensures op in BehavesFrom(ops, ex) <==> op in ops && Behaves(ex, op)
    ensures PanicsFrom(ops, ex) <==> exists o :: o in ops && Apply(Instruction(o, ex.a, ex.b, ex.c), ex.before).None?
  {
    if ops != [] {
      BehavesFromMeans(ops[1..], ex, op);
      assert ops == [ops[0]] + ops[1..];
    }
  }

  /** The opcodes that turn `before` into `after`; None when applying one
      of them panics. */
  function Consistent(ex: Example): Option<set<Opcode>> {
    if PanicsFrom(AllOpcodes, ex) then None else Some(BehavesFrom(AllOpcodes, ex))
  }

  /** The consistent set holds exactly the opcodes that behave like the
      sample, and there is one unless some opcode panics on it. */
  lemma ConsistentMeans(ex: Example, op: Opcode)
    ensures Consistent(ex).Some? ==> (op in Consistent(ex).value <==> Behaves(ex, op))
    ensures Consistent(ex).None? <==> exists o :: o in AllOpcodes && Apply(Instruction(o, ex.a, ex.b, ex.c), ex.before).None?
  {
    AllOpcodesListed(op);
    BehavesFromMeans(AllOpcodes, ex, op);
  }

  /** `filter(...).count()` over `ops`: how many of them behave like the
      sample. */
  function CountBehaves(ops: seq<Opcode>, ex: Example): nat {
    if ops == [] then 0 else (if Behaves(ex, ops[0]) then 1 else 0) + CountBehaves(ops[1..], ex)
  }

  /** Over a list without repeats, counting the opcodes that behave like the
      sample is the size of their set; so over `ALL_OPCODES` it is the size
      of the consistent set. */
  lemma {:induction false} CountIsSetSize(ops: seq<Opcode>, ex: Example)
    requires Distinct(ops)
    ensures CountBehaves(ops, ex) == |BehavesFrom(ops, ex)|
  {
    if ops != [] {
      assert Distinct(ops[1..]);
      CountIsSetSize(ops[1..], ex);
      BehavesFromMeans(ops[1..], ex, ops[0]);
      assert ops[0] !in ops[1..];
    }
  }

  lemma CountIsConsistentSize(ex: Example)
    requires Consistent(ex).Some?
    ensures CountBehaves(AllOpcodes, ex) == |Consistent(ex).value|
  {
    AllOpcodesListed(Addr);
    CountIsSetSize(AllOpcodes, ex);
  }

  predicate LikeThreeOrMore(ex: Example) {
    Consistent(ex).Some? && |Consistent(ex).value| >= 3
  }

  /** `part1`: the number of samples that behave like three or more opcodes
      (counting the distinct listed opcodes is counting their set); None
      when the program panics. */
  function Part1(examples: seq<Example>): (r: Option<nat>)
    ensures r.Some? <==> forall i :: 0 <= i < |examples| ==> Consistent(examples[i]).Some?
  {
    if examples == [] then Some(0)
    else
      var last := examples[|examples| - 1];
      var init := examples[..|examples| - 1];
      assert forall i :: 0 <= i < |init| ==> init[i] == examples[i];
      match (Part1(init), Consistent(last))
      case (Some(n), Some(ops)) => Some(if |ops| >= 3 then n + 1 else n)
      case _ => None
  }

  /** The indices of the elements of `xs` that satisfy `p`. */
  function Where<T>(xs: seq<T>, p: T -> bool): set<nat> {
    set i | 0 <= i < |xs| && p(xs[i])
  }

  /** The indices of samples that behave like three or more opcodes. */
  function LikeThree(examples: seq<Example>): set<nat> {
    Where(examples, LikeThreeOrMore)
  }

  /** `part1` counts exactly the samples that behave like three or more
      opcodes. */
  lemma {:induction false} Part1Counts(examples: seq<Example>)
    requires Part1(examples).Some?
    ensures Part1(examples).value == |LikeThree(examples)|
  {
    if examples != [] {
      var n := |examples| - 1;
      var init := examples[..n];
      assert forall i :: 0 <= i < |init| ==> init[i] == examples[i];
      Part1Counts(init);
      WhereSnoc(examples, LikeThreeOrMore);
    }
  }

  /** The last element adds its index when it satisfies `p`, and the index
      is new. */
  lemma WhereSnoc<T>(xs: seq<T>, p: T -> bool)
    requires xs != []
    ensures var n := |xs| - 1;
            && Where(xs, p) == Where(xs[..n], p) + (if p(xs[n]) then {n} else {})
            && n !in Where(xs[..n], p)
  {
    var n := |xs| - 1;
    var init := xs[..n];
    forall i ensures i in Where(xs, p) <==> i in Where(init, p) + (if p(xs[n]) then {n} else {}) {
      if 0 <= i < n {
        assert init[i] == xs[i];
      }
    }
  }

  // ---------------------------------------------------------------------
  // part2: candidates and elimination

  /** The codes of the samples. */
  function Codes(examples: seq<Example>): set<nat> {
    set i | 0 <= i < |examples| :: examples[i].code
  }

  /** The `HashMap` collected from `(code, consistent opcodes)` pairs: a
      later sample with the same code replaces an earlier one. */
  function Candidates(examples: seq<Example>): (r: Option<map<nat, set<Opcode>>>)
    ensures r.Some? <==> forall i :: 0 <= i < |examples| ==> Consistent(examples[i]).Some?
  {
    if examples == [] then Some(map[])
    else
      var last := examples[|examples| - 1];
      var init := examples[..|examples| - 1];
      assert forall i :: 0 <= i < |init| ==> init[i] == examples[i];
      match (Candidates(init), Consistent(last))
      case (Some(m), Some(ops)) => Some(m[last.code := ops])
      case _ => None
  }

  /** Every sampled code has candidates, and no other code does. */
  lemma {:induction false} CandidatesKeys(examples: seq<Example>)
    requires Candidates(examples).Some?
    ensures Candidates(examples).value.Keys == Codes(examples)
  {
    if examples != [] {
      var n := |examples| - 1;
      var init := examples[..n];
      assert forall i :: 0 <= i < |init| ==> init[i] == examples[i];
      CandidatesKeys(init);
      CodesSnoc(examples);
    }
  }

  lemma CodesSnoc(examples: seq<Example>)
    requires examples != []
    ensures Codes(examples) == Codes(examples[..|examples| - 1]) + {examples[|examples| - 1].code}
  {
    var n := |examples| - 1;
    var init := examples[..n];
    forall x | x in Codes(examples) ensures x in Codes(init) + {examples[n].code} {
      var i :| 0 <= i < |examples| && examples[i].code == x;
      if i < n { assert init[i].code == x; }
    }
    forall x | x in Codes(init) ensures x in Codes(examples) {
      var i :| 0 <= i < |init| && init[i].code == x;
      assert examples[i].code == x;
    }
  }

  /** The last sample with a code decides its candidates. */
  lemma {:induction false} CandidatesLastWins(examples: seq<Example>, i: nat)
    requires i < |examples| && Candidates(examples).Some?
    requires forall j :: i < j < |examples| ==> examples[j].code != examples[i].code
    ensures examples[i].code in Candidates(examples).value
    ensures Candidates(examples).value[examples[i].code] == Consistent(examples[i]).value
    decreases |examples|
  {
    var n := |examples| - 1;
    if i < n {
      var init := examples[..n];
      assert forall j :: 0 <= j < |init| ==> init[j] == examples[j];
      CandidatesLastWins(init, i);
    }
  }

  /** An opcode that every sample with the code is consistent with is one of
      the code's candidates. */
  lemma {:induction false} TrueOpcodeIsCandidate(examples: seq<Example>, code: nat, op: Opcode)
    requires Candidates(examples).Some? && code in Candidates(examples).value
    requires forall i :: 0 <= i < |examples| && examples[i].code == code ==> Behaves(examples[i], op)
    ensures op in Candidates(examples).value[code]
    decreases |examples|
  {
    var n := |examples| - 1;
    var init := examples[..n];
    assert forall j :: 0 <= j < |init| ==> init[j] == examples[j];
    if examples[n].code != code {
      TrueOpcodeIsCandidate(init, code, op);
    } else {
      ConsistentMeans(examples[n], op);
    }
  }

  /** The opcodes of `ops` that are among `options` and not `used`, in the
      order of `ops`: the `Vec` that `filter(...).collect()` builds (the
      source walks the candidate set in hash order, which only matters when
      more than one opcode is left, and then the code is skipped). */
  function Unused(ops: seq<Opcode>, options: set<Opcode>, used: set<Opcode>): seq<Opcode> {
    if ops == [] then []
    else (if ops[0] in options && ops[0] !in used then [ops[0]] else []) + Unused(ops[1..], options, used)
  }

  lemma {:induction false} UnusedMeans(ops: seq<Opcode>, options: set<Opcode>, used: set<Opcode>)
    ensures forall op :: op in Unused(ops, options, used) <==> op in ops && op in options && op !in used
    ensures Distinct(ops) ==> Distinct(Unused(ops, options, used))
  {
    if ops != [] {
      UnusedMeans(ops[1..], options, used);
      assert ops == [ops[0]] + ops[1..];
      if Distinct(ops) {
        assert Distinct(ops[1..]);
        assert ops[0] !in ops[1..];
      }
    }
  }

  /** Exactly one opcode is left unused, and it is `op`, when the unused
      candidates are `{op}`. */
  lemma OneUnused(options: set<Opcode>, used: set<Opcode>, op: Opcode)
    ensures (|Unused(AllOpcodes, options, used)| == 1 && Unused(AllOpcodes, options, used)[0] == op)
            <==> options - used == {op}
  {
    forall x ensures x in AllOpcodes {
      AllOpcodesListed(x);
    }
    AllOpcodesListed(op);
    OneLeft(AllOpcodes, options, used, op);
  }

  lemma OneLeft(ops: seq<Opcode>, options: set<Opcode>, used: set<Opcode>, op: Opcode)
    requires Distinct(ops) && forall x :: x in ops
    ensures (|Unused(ops, options, used)| == 1 && Unused(ops, options, used)[0] == op)
            <==> options - used == {op}
  {
    var r := Unused(ops, options, used);
    UnusedMeans(ops, options, used);
    if |r| == 1 && r[0] == op {
      forall x ensures x in options - used <==> x == op {
        assert x in ops;
      }
    }
    if options - used == {op} {
      assert op in ops;
      assert op in ops;
      UnusedSingleton(ops, options, used, op);
    }
  }

  /** When the unused candidates are `{op}`, the filter keeps `op` alone. */
  lemma {:induction false} UnusedSingleton(ops: seq<Opcode>, options: set<Opcode>, used: set<Opcode>, op: Opcode)
    requires Distinct(ops) && options - used == {op}
    ensures Unused(ops, options, used) == if op in ops then [op] else []
  {
    if ops != [] {
      assert Distinct(ops[1..]);
      UnusedSingleton(ops[1..], options, used, op);
      assert ops == [ops[0]] + ops[1..];
      if ops[0] == op {
        assert op !in ops[1..];
      } else {
        assert ops[0] !in options - used;
      }
    }
  }

  /** `filtered_candidates`: every code whose candidates leave exactly one
      opcode unused, with that opcode. */
  function Assign(candidates: map<nat, set<Opcode>>, used: set<Opcode>): map<nat, Opcode> {
    map code | code in candidates && |Unused(AllOpcodes, candidates[code], used)| == 1
      :: Unused(AllOpcodes, candidates[code], used)[0]
  }

  /** A pass assigns `op` to `code` exactly when `op` is the one unused
      candidate of `code`. */
  lemma AssignMeans(candidates: map<nat, set<Opcode>>, used: set<Opcode>, code: nat, op: Opcode)
    ensures (code in Assign(candidates, used) && Assign(candidates, used)[code] == op)
            <==> code in candidates && candidates[code] - used == {op}
  {
    if code in candidates {
      OneUnused(candidates[code], used, op);
    }
  }

  /** The elimination `loop`, for at most `fuel` passes: drop added codes,
      stop when none is left, otherwise assign every code that has one
      unused candidate.  None when the fuel runs out. */
  function Eliminated(candidates: map<nat, set<Opcode>>, mapping: map<nat, Opcode>, fuel: nat): Option<map<nat, Opcode>>
    decreases fuel
  {
    var remaining := candidates - mapping.Keys;
    if remaining == map[] then Some(mapping)
    else if fuel == 0 then None
    else Eliminated(remaining, Extend(mapping, remaining), fuel - 1)
  }

  /** `opcode_mapping.extend(filtered_candidates)`. */
  function Extend(mapping: map<nat, Opcode>, remaining: map<nat, set<Opcode>>): map<nat, Opcode> {
    mapping + Assign(remaining, mapping.Values)
  }

  predicate Injective(truth: map<nat, Opcode>) {
    forall x, y :: x in truth && y in truth && x != y ==> truth[x] != truth[y]
  }

  predicate Agrees(mapping: map<nat, Opcode>, truth: map<nat, Opcode>) {
    forall code :: code in mapping ==> code in truth && mapping[code] == truth[code]
  }

  /** One pass assigns only true opcodes: a code's true opcode is among its
      candidates and is not used by any other code, so when one candidate is
      left unused it is the true one. */
  lemma AssignAgrees(candidates: map<nat, set<Opcode>>, mapping: map<nat, Opcode>, truth: map<nat, Opcode>)
    requires Injective(truth) && Agrees(mapping, truth)
    requires forall code :: code in candidates ==> code in truth && truth[code] in candidates[code]
    requires forall code :: code in candidates ==> code !in mapping
    ensures Agrees(mapping + Assign(candidates, mapping.Values), truth)
  {
    var used := mapping.Values;
    var added := Assign(candidates, used);
    forall code | code in added ensures added[code] == truth[code] {
      AssignMeans(candidates, used, code, added[code]);
      UnusedIsTrue(mapping, truth, code);
      assert truth[code] in candidates[code] - used;
    }
  }

  /** A code not yet mapped has a true opcode no mapped code uses. */
  lemma UnusedIsTrue(mapping: map<nat, Opcode>, truth: map<nat, Opcode>, code: nat)
    requires Injective(truth) && Agrees(mapping, truth) && code in truth && code !in mapping
    ensures truth[code] !in mapping.Values
  {
  }

  /** Whenever the samples are consistent with an assignment that gives
      different codes different opcodes, elimination finds only that
      assignment's opcodes, and when it ends it has a code for every
      sampled code. */
  lemma {:induction false} EliminationIsSound(candidates: map<nat, set<Opcode>>, mapping: map<nat, Opcode>,
                                              fuel: nat, truth: map<nat, Opcode>)
    requires Injective(truth) && Agrees(mapping, truth)
    requires forall code :: code in candidates ==> code in truth && truth[code] in candidates[code]
    ensures Eliminated(candidates, mapping, fuel).Some? ==>
              var found := Eliminated(candidates, mapping, fuel).value;
              Agrees(found, truth) && candidates.Keys + mapping.Keys <= found.Keys
              && forall code :: code in mapping ==> found[code] == mapping[code]
    decreases fuel
  {
    var remaining := candidates - mapping.Keys;
    if remaining != map[] && fuel > 0 {
      AssignAgrees(remaining, mapping, truth);
      var next := Extend(mapping, remaining);
      var f1 := fuel - 1;
      assert Eliminated(candidates, mapping, fuel) == Eliminated(remaining, next, f1);
      assert candidates.Keys + mapping.Keys <= remaining.Keys + next.Keys;
      EliminationIsSound(remaining, next, f1, truth);
      if Eliminated(remaining, next, f1).Some? {
        assert remaining.Keys + next.Keys <= Eliminated(remaining, next, f1).value.Keys;
      }
    }
  }

  /** The full `part2` deduction from the samples: if they are consistent
      with an injective assignment of opcodes to all sampled codes, every
      code elimination assigns gets its true opcode. */
  lemma DeductionIsSound(examples: seq<Example>, fuel: nat, truth: map<nat, Opcode>)
    requires Candidates(examples).Some? && Injective(truth)
    requires forall i :: 0 <= i < |examples| ==> examples[i].code in truth && Behaves(examples[i], truth[examples[i].code])
    ensures Eliminated(Candidates(examples).value, map[], fuel).Some? ==>
              var found := Eliminated(Candidates(examples).value, map[], fuel).value;
              Agrees(found, truth) && found.Keys == Codes(examples)
  {
    var candidates := Candidates(examples).value;
    CandidatesKeys(examples);
    forall code | code in candidates ensures code in truth && truth[code] in candidates[code] {
      TrueOpcodeIsCandidate(examples, code, truth[code]);
    }
    EliminationIsSound(candidates, map[], fuel, truth);
    if Eliminated(candidates, map[], fuel).Some? {
      FoundOnlySampled(candidates, map[], fuel);
    }
  }

  /** Elimination assigns only codes that have candidates. */
  lemma {:induction false} FoundOnlySampled(candidates: map<nat, set<Opcode>>, mapping: map<nat, Opcode>, fuel: nat)
    requires Eliminated(candidates, mapping, fuel).Some?
    ensures Eliminated(candidates, mapping, fuel).value.Keys <= candidates.Keys + mapping.Keys
    decreases fuel
  {
    var remaining := candidates - mapping.Keys;
    if remaining != map[] {
      var next := Extend(mapping, remaining);
      var f1 := fuel - 1;
      assert Eliminated(candidates, mapping, fuel) == Eliminated(remaining, next, f1);
      FoundOnlySampled(remaining, next, f1);
    }
  }

  /** The elimination `loop` of `part2`. */
  method Eliminate(candidates: map<nat, set<Opcode>>, fuel: nat) returns (r: Option<map<nat, Opcode>>)
    ensures r == Eliminated(candidates, map[], fuel)
  {
    var remaining := candidates;
    var mapping: map<nat, Opcode> := map[];
    var left := fuel;
    while true
      invariant Eliminated(candidates, map[], fuel) == Eliminated(remaining, mapping, left)
      decreases left
    {
      var rest := remaining - mapping.Keys;
      if rest == map[] {
        return Some(mapping);
      }
      if left == 0 {
        return None;
      }
      assert Eliminated(remaining, mapping, left) == Eliminated(rest, Extend(mapping, rest), left - 1);
      remaining, mapping := rest, Extend(mapping, rest);
      left := left - 1;
    }
  }

  // ---------------------------------------------------------------------
  // part2: the program

  /** An instruction line through the mapping; None where `args[i]` or
      `opcode_mapping[&args[0]]` panics. */
  function Decode(mapping: map<nat, Opcode>, args: seq<nat>): (r: Option<Instruction>)
    ensures r.Some? <==> |args| >= 4 && args[0] in mapping
    ensures r.Some? ==> r.value == Instruction(mapping[args[0]], args[1], args[2], args[3])
  {
    if |args| < 4 || args[0] !in mapping then None
    else Some(Instruction(mapping[args[0]], args[1], args[2], args[3]))
  }

  /** The registers after running `program` from `regs`. */
  function Run(mapping: map<nat, Opcode>, program: seq<seq<nat>>, regs: seq<nat>): (r: Option<seq<nat>>)
    ensures r.Some? ==> |r.value| == |regs|
    decreases |program|
  {
    if program == [] then Some(regs)
    else
      match Decode(mapping, program[0])
      case None => None
      case Some(ins) =>
        ApplyFrame(ins, regs);
        match Apply(ins, regs)
        case None => None
        case Some(next) => Run(mapping, program[1..], next)
  }

  /** Running two programs in a row is running their concatenation. */
  lemma {:induction false} RunAppend(mapping: map<nat, Opcode>, p: seq<seq<nat>>, q: seq<seq<nat>>, regs: seq<nat>)
    ensures Run(mapping, p + q, regs) == match Run(mapping, p, regs) case None => None case Some(mid) => Run(mapping, q, mid)
    decreases |p|
  {
    if p != [] {
      assert (p + q)[0] == p[0];
      assert (p + q)[1..] == p[1..] + q;
      if Decode(mapping, p[0]).Some? {
        var ins := Decode(mapping, p[0]).value;
        match Apply(ins, regs)
        case None =>
        case Some(next) =>
          RunAppend(mapping, p[1..], q, next);
          assert Run(mapping, p, regs) == Run(mapping, p[1..], next);
          assert Run(mapping, p + q, regs) == Run(mapping, p[1..] + q, next);
      }
    } else {
      assert p + q == q;
    }
  }

  /** Two mappings that agree on every code the program uses run it alike. */
  lemma {:induction false} RunDependsOnUsedCodes(m1: map<nat, Opcode>, m2: map<nat, Opcode>, program: seq<seq<nat>>, regs: seq<nat>)
    requires forall i :: 0 <= i < |program| && |program[i]| > 0 && program[i][0] in m1 ==> program[i][0] in m2 && m2[program[i][0]] == m1[program[i][0]]
    requires forall i :: 0 <= i < |program| && |program[i]| > 0 ==> program[i][0] in m1
    ensures Run(m1, program, regs) == Run(m2, program, regs)
    decreases |program|
  {
    if program != [] {
      assert forall i :: 0 <= i < |program[1..]| ==> program[1..][i] == program[i + 1];
      if Decode(m1, program[0]).Some? {
        match Apply(Decode(m1, program[0]).value, regs) {
          case None =>
          case Some(next) => RunDependsOnUsedCodes(m1, m2, program[1..], next);
        }
      }
    }
  }

  /** The `for` loop over the instructions, from registers `[0, 0, 0, 0]`,
      and `registers[0]`. */
  method RunProgram(mapping: map<nat, Opcode>, program: seq<seq<nat>>) returns (r: Option<nat>)
    ensures r == match Run(mapping, program, [0, 0, 0, 0]) case None => None case Some(regs) => Some(regs[0])
  {
    var registers := [0, 0, 0, 0];
    for i := 0 to |program|
      invariant |registers| == 4
      invariant Run(mapping, program, [0, 0, 0, 0]) == Run(mapping, program[i..], registers)
    {
      assert program[i..][0] == program[i];
      var instruction := Decode(mapping, program[i]);
      if instruction.None? {
        return None;
      }
      var after := Apply(instruction.value, registers);
      ApplyFrame(instruction.value, registers);
      if after.None? {
        return None;
      }
      assert program[i..][1..] == program[i + 1..];
      registers := after.value;
    }
    return Some(registers[0]);
  }

  /** `part2` as a whole, with the elimination loop cut off after `fuel`
      passes: register 0 after the program, or None on a panic or when the
      fuel runs out. */
  function Part2Spec(examples: seq<Example>, program: seq<seq<nat>>, fuel: nat): Option<nat> {
    match Candidates(examples)
    case None => None
    case Some(candidates) =>
      match Eliminated(candidates, map[], fuel)
      case None => None
      case Some(mapping) =>
        match Run(mapping, program, [0, 0, 0, 0])
        case None => None
        case Some(regs) => Some(regs[0])
  }

  method Part2(examples: seq<Example>, program: seq<seq<nat>>, fuel: nat) returns (r: Option<nat>)
    ensures r == Part2Spec(examples, program, fuel)
  {
    var candidates := Candidates(examples);
    if candidates.None? {
      return None;
    }
    var mapping := Eliminate(candidates.value, fuel);
    if mapping.None? {
      return None;
    }
    r := RunProgram(mapping.value, program);
  }

  /** When the samples pin down an injective assignment and the program uses
      only sampled codes, `part2` answers what running the program under the
      true assignment gives. */
  lemma Part2UsesTruth(examples: seq<Example>, program: seq<seq<nat>>, fuel: nat, truth: map<nat, Opcode>)
    requires Candidates(examples).Some? && Injective(truth)
    requires forall i :: 0 <= i < |examples| ==> examples[i].code in truth && Behaves(examples[i], truth[examples[i].code])
    requires forall i :: 0 <= i < |program| && |program[i]| > 0 ==>
               exists j :: 0 <= j < |examples| && examples[j].code == program[i][0]
    requires Eliminated(Candidates(examples).value, map[], fuel).Some?
    ensures Part2Spec(examples, program, fuel) ==
              match Run(truth, program, [0, 0, 0, 0]) case None => None case Some(regs) => Some(regs[0])
  {
    var found := Eliminated(Candidates(examples).value, map[], fuel).value;
    DeductionIsSound(examples, fuel, truth);
    forall i | 0 <= i < |program| && |program[i]| > 0 ensures program[i][0] in found {
      var j :| 0 <= j < |examples| && examples[j].code == program[i][0];
    }
    RunDependsOnUsedCodes(found, truth, program, [0, 0, 0, 0]);
  }
}
