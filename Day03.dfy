/** Day 3: fabric claims.  Each line `#id @ x,y: wxh` claims the rectangle of
    square cells `x..x + w` by `y..y + h`.  Part 1 counts the cells that two
    or more claims cover; part 2 names a claim that overlaps no claim with a
    different id. */
module Day03 {
  import opened Wrappers
  import opened Text
  import opened Maxima

  datatype Claim = Claim(id: nat, x: nat, y: nat, width: nat, height: nat)

  type Cell = (int, int)

  /** Every field fits the `u16` the source stores it in. */
  predicate InRange(c: Claim) {
    c.id <= U16_MAX && c.x <= U16_MAX && c.y <= U16_MAX && c.width <= U16_MAX && c.height <= U16_MAX
  }

  // ---------------------------------------------------------------------
  // Claim::from_str

  /** `Claim::from_str`: the words of the line are the id (with its leading
      `#` characters trimmed), a word that is skipped, the position `x,y`
      (with its trailing `:` characters trimmed) and the size `wxh`.  A
      missing word or piece (an `unwrap` on `None`) and a number that does not
      parse as `u16` both give None. */
  function ParseClaim(line: string): (r: Option<Claim>)
    ensures r.Some? ==> InRange(r.value)
  {
    var words := SplitWhitespace(line);
    if |words| < 1 then None
    else
      var id := ParseUnsigned(TrimStartMatches(words[0], '#'), U16_MAX);
      if id.None? || |words| < 3 then None
      else
        var position := ParsePair(TrimEndMatches(words[2], ':'), ',');
        if position.None? || |words| < 4 then None
        else
          var size := ParsePair(words[3], 'x');
          if size.None? then None
          else Some(Claim(id.value, position.value.0, position.value.1, size.value.0, size.value.1))
  }

  /** The first two pieces of `s.split(sep)` as `u16`s; a piece that is
      missing or does not parse gives None. */
  function ParsePair(s: string, sep: char): (r: Option<(nat, nat)>)
    ensures r.Some? ==> r.value.0 <= U16_MAX && r.value.1 <= U16_MAX
  {
    var pieces := Split(s, sep);
    var first := ParseUnsigned(pieces[0], U16_MAX);
    if first.None? || |pieces| < 2 then None
    else
      var second := ParseUnsigned(pieces[1], U16_MAX);
      if second.None? then None else Some((first.value, second.value))
  }

  function IdWord(c: Claim): string {
    "#" + NatToString(c.id)
  }

  /** `a<sep>b` for two numbers. */
  function Pair(a: nat, b: nat, sep: char): string {
    Join([NatToString(a), NatToString(b)], sep)
  }

  function PositionWord(c: Claim): string {
    Pair(c.x, c.y, ',') + ":"
  }

  function SizeWord(c: Claim): string {
    Pair(c.width, c.height, 'x')
  }

  /** The puzzle's line for a claim. */
  function Format(c: Claim): string {
    Unwords([IdWord(c), "@", PositionWord(c), SizeWord(c)])
  }

  /** Every character of a number is a digit. */
  lemma NumberChars(n: nat)
    ensures forall ch :: ch in NatToString(n) ==> IsDigit(ch)
  {
    NatToStringIsWord(n);
  }

  lemma Join2(a: string, b: string, sep: char)
    ensures Join([a, b], sep) == a + [sep] + b
  {
    assert [a, b][1..] == [b];
  }

  /** Two runs of digits around a separator that is not a digit: no
      whitespace, ending in a digit, and splitting at the separator gives
      both back. */
  lemma DigitsPair(a: string, b: string, sep: char)
    requires a != [] && b != [] && AllDigits(a) && AllDigits(b)
    requires !IsWhitespace(sep) && !IsDigit(sep)
    ensures NoWhitespace(Join([a, b], sep)) && |Join([a, b], sep)| > 0
    ensures IsDigit(Join([a, b], sep)[|Join([a, b], sep)| - 1])
    ensures Split(Join([a, b], sep), sep) == [a, b]
  {
    Join2(a, b, sep);
    var p := a + [sep] + b;
    forall i | 0 <= i < |p| ensures !IsWhitespace(p[i]) {
      if i < |a| {
        assert p[i] == a[i];
      } else if |a| < i {
        assert p[i] == b[i - |a| - 1];
      }
    }
    assert p[|p| - 1] == b[|b| - 1];
    SplitOfJoin([a, b], sep);
  }

  lemma PairFacts(a: nat, b: nat, sep: char)
    requires !IsWhitespace(sep) && !IsDigit(sep)
    ensures IsWord(Pair(a, b, sep))
    ensures IsDigit(Pair(a, b, sep)[|Pair(a, b, sep)| - 1])
    ensures Split(Pair(a, b, sep), sep) == [NatToString(a), NatToString(b)]
  {
    DigitsPair(NatToString(a), NatToString(b), sep);
  }

  lemma PairParses(a: nat, b: nat, sep: char)
    requires a <= U16_MAX && b <= U16_MAX
    requires !IsWhitespace(sep) && !IsDigit(sep)
    ensures ParsePair(Pair(a, b, sep), sep) == Some((a, b))
  {
    PairFacts(a, b, sep);
    ParseUnsignedOfNatToString(a, U16_MAX);
    ParseUnsignedOfNatToString(b, U16_MAX);
  }

  lemma IdWordIsWord(c: Claim)
    ensures IsWord(IdWord(c))
  {
    var id := IdWord(c);
    NumberChars(c.id);
    forall i | 0 <= i < |id| ensures !IsWhitespace(id[i]) {
      if i > 0 {
        assert id[i] in NatToString(c.id);
      }
    }
  }

  lemma PositionWordIsWord(c: Claim)
    ensures IsWord(PositionWord(c))
  {
    var pair := Pair(c.x, c.y, ',');
    PairFacts(c.x, c.y, ',');
    var p := PositionWord(c);
    assert forall i :: 0 <= i < |p| - 1 ==> p[i] == pair[i];
  }

  lemma FourWords(a: string, b: string, c: string, d: string)
    requires IsWord(a) && IsWord(b) && IsWord(c) && IsWord(d)
    ensures SplitWhitespace(Unwords([a, b, c, d])) == [a, b, c, d]
  {
    SplitWhitespaceOfUnwords([a, b, c, d]);
  }

  lemma FormatWords(c: Claim)
    ensures SplitWhitespace(Format(c)) == [IdWord(c), "@", PositionWord(c), SizeWord(c)]
  {
    IdWordIsWord(c);
    PositionWordIsWord(c);
    PairFacts(c.width, c.height, 'x');
    FourWords(IdWord(c), "@", PositionWord(c), SizeWord(c));
  }

  lemma IdParses(c: Claim)
    requires c.id <= U16_MAX
    ensures ParseUnsigned(TrimStartMatches(IdWord(c), '#'), U16_MAX) == Some(c.id)
  {
    var id := NatToString(c.id);
    NumberChars(c.id);
    assert id[0] in id;
    assert IdWord(c)[1..] == id;
    TrimStartMatchesNone(id, '#');
    ParseUnsignedOfNatToString(c.id, U16_MAX);
  }

  lemma PositionParses(c: Claim)
    requires c.x <= U16_MAX && c.y <= U16_MAX
    ensures ParsePair(TrimEndMatches(PositionWord(c), ':'), ',') == Some((c.x, c.y))
  {
    var pair := Pair(c.x, c.y, ',');
    PairFacts(c.x, c.y, ',');
    assert PositionWord(c)[..|PositionWord(c)| - 1] == pair;
    TrimEndMatchesNone(pair, ':');
    PairParses(c.x, c.y, ',');
  }

  /** Parsing the puzzle's line for a claim gives the claim back. */
  lemma ParseFormat(c: Claim)
    requires InRange(c)
    ensures ParseClaim(Format(c)) == Some(c)
  {
    FormatWords(c);
    IdParses(c);
    ParseAfterId(Format(c), IdWord(c), c);
  }

  /** A line of four words that starts with the id of a claim and goes on
      with its position and size parses to that claim. */
  lemma ParseAfterId(line: string, id: string, c: Claim)
    requires InRange(c)
    requires SplitWhitespace(line) == [id, "@", PositionWord(c), SizeWord(c)]
    requires ParseUnsigned(TrimStartMatches(id, '#'), U16_MAX) == Some(c.id)
    ensures ParseClaim(line) == Some(c)
  {
    PositionParses(c);
    ParseAfterPosition(line, id, PositionWord(c), c);
  }

  lemma ParseAfterPosition(line: string, id: string, position: string, c: Claim)
    requires InRange(c)
    requires SplitWhitespace(line) == [id, "@", position, SizeWord(c)]
    requires ParseUnsigned(TrimStartMatches(id, '#'), U16_MAX) == Some(c.id)
    requires ParsePair(TrimEndMatches(position, ':'), ',') == Some((c.x, c.y))
    ensures ParseClaim(line) == Some(c)
  {
    PairParses(c.width, c.height, 'x');
    ParseWords(line, id, position, SizeWord(c), c);
  }

  /** A line of four words whose id, position and size parse to a claim's
      fields parses to that claim. */
  lemma ParseWords(line: string, id: string, position: string, size: string, c: Claim)
    requires SplitWhitespace(line) == [id, "@", position, size]
    requires ParseUnsigned(TrimStartMatches(id, '#'), U16_MAX) == Some(c.id)
    requires ParsePair(TrimEndMatches(position, ':'), ',') == Some((c.x, c.y))
    requires ParsePair(size, 'x') == Some((c.width, c.height))
    ensures ParseClaim(line) == Some(c)
  {
    var words := SplitWhitespace(line);
    assert words[0] == id && words[2] == position && words[3] == size;
  }

  /** A line with fewer than four words has no claim in it. */
  lemma ShortLineFails(line: string)
    requires |SplitWhitespace(line)| < 4
    ensures ParseClaim(line).None?
  {
  }

  // ---------------------------------------------------------------------
  // The cells of a claim

  /** Whether a claim covers a cell: the half-open ranges
      `x..x + width` and `y..y + height`. */
  predicate Covers(c: Claim, p: Cell) {
    c.x <= p.0 < c.x + c.width && c.y <= p.1 < c.y + c.height
  }

  /** Column `i` of the cartesian product: `(i, j)` for `j` in `y..y + h`. */
  function Column(i: int, y: int, h: nat): seq<Cell>
    decreases h
  {
    if h == 0 then [] else [(i, y)] + Column(i, y + 1, h - 1)
  }

  /** `(x..x + w).cartesian_product(y..y + h)`: columns in order of `i`. */
  function Product(x: int, w: nat, y: int, h: nat): seq<Cell>
    decreases w
  {
    if w == 0 then [] else Column(x, y, h) + Product(x + 1, w - 1, y, h)
  }

  function Cells(c: Claim): seq<Cell> {
    Product(c.x, c.width, c.y, c.height)
  }

  /** How many times a cell is listed. */
  function Occurrences(cells: seq<Cell>, p: Cell): (n: nat)
    ensures n > 0 <==> p in cells
    decreases |cells|
  {
    if cells == [] then 0
    else (if cells[0] == p then 1 else 0) + Occurrences(cells[1..], p)
  }

  lemma {:induction false} OccurrencesConcat(a: seq<Cell>, b: seq<Cell>, p: Cell)
    ensures Occurrences(a + b, p) == Occurrences(a, p) + Occurrences(b, p)
    decreases |a|
  {
    if a != [] {
      assert (a + b)[1..] == a[1..] + b;
      OccurrencesConcat(a[1..], b, p);
    } else {
      assert a + b == b;
    }
  }

  lemma {:induction false} ColumnCount(i: int, y: int, h: nat, p: Cell)
    ensures Occurrences(Column(i, y, h), p) == if p.0 == i && y <= p.1 < y + h then 1 else 0
    decreases h
  {
    if h > 0 {
      ColumnCount(i, y + 1, h - 1, p);
      assert Column(i, y, h)[1..] == Column(i, y + 1, h - 1);
    }
  }

  lemma {:induction false} ProductCount(x: int, w: nat, y: int, h: nat, p: Cell)
    ensures Occurrences(Product(x, w, y, h), p) == if x <= p.0 < x + w && y <= p.1 < y + h then 1 else 0
    decreases w
  {
    if w > 0 {
      var column, rest := Column(x, y, h), Product(x + 1, w - 1, y, h);
      ProductStep(x, w, y, h, p);
      ColumnCount(x, y, h, p);
      ProductCount(x + 1, w - 1, y, h, p);
      ColumnSplit(p.0, x, w, y <= p.1 < y + h, Occurrences(column, p), Occurrences(rest, p));
    }
  }

  lemma ProductStep(x: int, w: nat, y: int, h: nat, p: Cell)
    requires w > 0
    ensures Occurrences(Product(x, w, y, h), p)
         == Occurrences(Column(x, y, h), p) + Occurrences(Product(x + 1, w - 1, y, h), p)
  {
    OccurrencesConcat(Column(x, y, h), Product(x + 1, w - 1, y, h), p);
  }

  lemma ColumnSplit(i: int, x: int, w: nat, inY: bool, c: nat, r: nat)
    requires w > 0
    requires c == if i == x && inY then 1 else 0
    requires r == if x + 1 <= i < x + w && inY then 1 else 0
    ensures c + r == if x <= i < x + w && inY then 1 else 0
  {
  }

  /** The cartesian product lists each covered cell exactly once and no
      other cell. */
  lemma CellsCount(c: Claim, p: Cell)
    ensures Occurrences(Cells(c), p) == if Covers(c, p) then 1 else 0
  {
    ProductCount(c.x, c.width, c.y, c.height, p);
  }

  // ---------------------------------------------------------------------
  // part1: how many claims cover each cell

  function Count(m: map<Cell, nat>, p: Cell): nat {
    if p in m then m[p] else 0
  }

  /** `*acc.entry((i, j)).or_insert(0) += 1` for each listed cell. */
  function AddCounts(acc: map<Cell, nat>, cells: seq<Cell>): map<Cell, nat>
    decreases |cells|
  {
    if cells == [] then acc
    else AddCounts(acc[cells[0] := Count(acc, cells[0]) + 1], cells[1..])
  }

  lemma {:induction false} AddCountsMeans(acc: map<Cell, nat>, cells: seq<Cell>, p: Cell)
    ensures Count(AddCounts(acc, cells), p) == Count(acc, p) + Occurrences(cells, p)
    ensures p in AddCounts(acc, cells) <==> p in acc || p in cells
    decreases |cells|
  {
    if cells != [] {
      AddCountsMeans(acc[cells[0] := Count(acc, cells[0]) + 1], cells[1..], p);
    }
  }

  /** The fold of part 1 over the claims. */
  function Coverage(claims: seq<Claim>): map<Cell, nat>
    decreases |claims|
  {
    if claims == [] then map[]
    else AddCounts(Coverage(claims[..|claims| - 1]), Cells(claims[|claims| - 1]))
  }

  /** The number of claims covering a cell. */
  function CoverCount(claims: seq<Claim>, p: Cell): nat
    decreases |claims|
  {
    if claims == [] then 0
    else CoverCount(claims[..|claims| - 1], p) + (if Covers(claims[|claims| - 1], p) then 1 else 0)
  }

  /** The fold's count at a cell is the number of claims covering it, and the
      map holds exactly the covered cells. */
  lemma {:induction false} CoverageMeans(claims: seq<Claim>, p: Cell)
    ensures Count(Coverage(claims), p) == CoverCount(claims, p)
    ensures p in Coverage(claims) <==> CoverCount(claims, p) > 0
    decreases |claims|
  {
    if claims != [] {
      var last := claims[|claims| - 1];
      CoverageMeans(claims[..|claims| - 1], p);
      AddCountsMeans(Coverage(claims[..|claims| - 1]), Cells(last), p);
      CellsCount(last, p);
    }
  }

  /** The cells of the fold's map whose count is over one. */
  function Contested(claims: seq<Claim>): set<Cell> {
    var m := Coverage(claims);
    set p | p in m && m[p] > 1
  }

  /** part 1: the cells covered by two or more claims. */
  function Part1(claims: seq<Claim>): (r: nat)
    ensures r == |Contested(claims)|
    ensures forall p :: p in Contested(claims) <==> CoverCount(claims, p) >= 2
  {
    forall p ensures p in Contested(claims) <==> CoverCount(claims, p) >= 2 {
      CoverageMeans(claims, p);
    }
    |Contested(claims)|
  }

  // ---------------------------------------------------------------------
  // part2: which ids cover each cell

  function IdsAt(m: map<Cell, set<nat>>, p: Cell): set<nat> {
    if p in m then m[p] else {}
  }

  /** `acc.entry((i, j)).or_insert(HashSet::new()).insert(id)` for each
      listed cell. */
  function AddIds(acc: map<Cell, set<nat>>, cells: seq<Cell>, id: nat): map<Cell, set<nat>>
    decreases |cells|
  {
    if cells == [] then acc
    else AddIds(acc[cells[0] := IdsAt(acc, cells[0]) + {id}], cells[1..], id)
  }

  lemma {:induction false} AddIdsMeans(acc: map<Cell, set<nat>>, cells: seq<Cell>, id: nat, p: Cell)
    ensures IdsAt(AddIds(acc, cells, id), p) == IdsAt(acc, p) + (if p in cells then {id} else {})
    ensures p in AddIds(acc, cells, id) <==> p in acc || p in cells
    decreases |cells|
  {
    if cells != [] {
      AddIdsMeans(acc[cells[0] := IdsAt(acc, cells[0]) + {id}], cells[1..], id, p);
      assert cells == [cells[0]] + cells[1..];
    }
  }

  /** The fold of part 2 over the claims. */
  function Owners(claims: seq<Claim>): map<Cell, set<nat>>
    decreases |claims|
  {
    if claims == [] then map[]
    else
      var last := claims[|claims| - 1];
      AddIds(Owners(claims[..|claims| - 1]), Cells(last), last.id)
  }

  /** The ids of the claims covering a cell. */
  ghost function IdsCovering(claims: seq<Claim>, p: Cell): set<nat> {
    set k | 0 <= k < |claims| && Covers(claims[k], p) :: claims[k].id
  }

  lemma IdsCoveringSnoc(claims: seq<Claim>, p: Cell)
    requires claims != []
    ensures IdsCovering(claims, p)
      == IdsCovering(claims[..|claims| - 1], p) + (if Covers(claims[|claims| - 1], p) then {claims[|claims| - 1].id} else {})
  {
    var n := |claims| - 1;
    var front, last := claims[..n], claims[n];
    forall id | id in IdsCovering(claims, p)
      ensures id in IdsCovering(front, p) + (if Covers(last, p) then {last.id} else {})
    {
      var k :| 0 <= k < |claims| && Covers(claims[k], p) && claims[k].id == id;
      if k < n {
        assert front[k] == claims[k];
      }
    }
    forall id | id in IdsCovering(front, p) ensures id in IdsCovering(claims, p) {
      var k :| 0 <= k < n && Covers(front[k], p) && front[k].id == id;
      assert claims[k] == front[k];
    }
  }

  lemma {:induction false} OwnersMeans(claims: seq<Claim>, p: Cell)
    ensures IdsAt(Owners(claims), p) == IdsCovering(claims, p)
    decreases |claims|
  {
    if claims != [] {
      var n := |claims| - 1;
      var front, last := claims[..n], claims[n];
      OwnersMeans(front, p);
      AddIdsMeans(Owners(front), Cells(last), last.id, p);
      CellsCount(last, p);
      IdsCoveringSnoc(claims, p);
    }
  }

  /** The ids found on a cell with more than one id. */
  function Repeated(claims: seq<Claim>): set<nat> {
    var m := Owners(claims);
    set p, id | p in m && |m[p]| > 1 && id in m[p] :: id
  }

  function AllIds(claims: seq<Claim>): set<nat> {
    set k | 0 <= k < |claims| :: claims[k].id
  }

  /** No claim with this id shares a cell with a claim of another id. */
  ghost predicate Intact(claims: seq<Claim>, id: nat) {
    forall k, l, p ::
      (0 <= k < |claims| && 0 <= l < |claims| && claims[k].id == id && Covers(claims[k], p) && Covers(claims[l], p))
        ==> claims[l].id == id
  }

  /** An id is repeated exactly when it is not intact. */
  lemma RepeatedMeans(claims: seq<Claim>, id: nat)
    requires id in AllIds(claims)
    ensures id in Repeated(claims) <==> !Intact(claims, id)
  {
    var m := Owners(claims);
    if id in Repeated(claims) {
      var p :| p in m && |m[p]| > 1 && id in m[p];
      OwnersMeans(claims, p);
      var others := m[p] - {id};
      assert |others| == |m[p]| - 1;
      var other :| other in others;
      var k :| 0 <= k < |claims| && Covers(claims[k], p) && claims[k].id == id;
      var l :| 0 <= l < |claims| && Covers(claims[l], p) && claims[l].id == other;
    }
    if !Intact(claims, id) {
      var k, l, p :| 0 <= k < |claims| && 0 <= l < |claims| && claims[k].id == id
        && Covers(claims[k], p) && Covers(claims[l], p) && claims[l].id != id;
      OwnersMeans(claims, p);
      assert id in IdsCovering(claims, p) && claims[l].id in IdsCovering(claims, p);
      assert {id, claims[l].id} <= IdsAt(m, p);
      assert |{id, claims[l].id}| == 2;
      SubsetSize({id, claims[l].id}, IdsAt(m, p));
      assert p in m;
    }
  }

  lemma SubsetSize(a: set<nat>, b: set<nat>)
    requires a <= b
    ensures |a| <= |b|
  {
    assert b == a + (b - a);
  }

  /** part 2: an id of a claim that is not repeated.  The source takes the
      first element of a hash set's difference; this takes the least, and
      the unwrap on an empty difference gives None. */
  function Part2(claims: seq<Claim>): (r: Option<nat>)
    ensures r.Some? ==> r.value in AllIds(claims) && r.value !in Repeated(claims)
  {
    var candidates := AllIds(claims) - Repeated(claims);
    if candidates == {} then None
    else
      var id := Least(candidates);
      Some(id)
  }

  /** The answer of part 2 is the id of a claim that overlaps no claim with
      a different id, and there is none exactly when every claim overlaps
      one with a different id. */
  lemma Part2Means(claims: seq<Claim>)
    ensures Part2(claims).Some? ==> Part2(claims).value in AllIds(claims) && Intact(claims, Part2(claims).value)
    ensures Part2(claims).None? <==> forall k :: 0 <= k < |claims| ==> !Intact(claims, claims[k].id)
  {
    var r := Part2(claims);
    if r.Some? {
      RepeatedMeans(claims, r.value);
    } else {
      forall k | 0 <= k < |claims| ensures !Intact(claims, claims[k].id) {
        var id := claims[k].id;
        assert id in AllIds(claims);
        assert id !in AllIds(claims) - Repeated(claims);
        RepeatedMeans(claims, id);
      }
    }
  }
}
