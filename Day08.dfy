/** Day 8: Memory Maneuver.  A tree is written as a flat list of numbers:
    a node is its child count, its metadata count, its children and then its
    metadata entries.  Part 1 sums every metadata entry; part 2 computes the
    value of the root, where a node's metadata entries index its children. */
module Day08 {
  import opened Wrappers

  datatype Node = Node(children: seq<Node>, metadata: seq<nat>)

  // ---------------------------------------------------------------------
  // The token encoding

  function Total(xs: seq<nat>): nat {
    if xs == [] then 0 else xs[0] + Total(xs[1..])
  }

  lemma {:induction false} TotalConcat(a: seq<nat>, b: seq<nat>)
    ensures Total(a + b) == Total(a) + Total(b)
    decreases |a|
  {
    if a == [] {
      assert a + b == b;
    } else {
      assert (a + b)[1..] == a[1..] + b;
      TotalConcat(a[1..], b);
    }
  }

  /** The tokens of a node: the header, its children in order, then its
      metadata. */
  function Encode(n: Node): seq<nat>
    decreases n, 1
  {
    [|n.children|, |n.metadata|] + EncodeAll(n.children) + n.metadata
  }

  function EncodeAll(cs: seq<Node>): seq<nat>
    decreases cs, 0
  {
    if cs == [] then [] else EncodeAll(cs[..|cs| - 1]) + Encode(cs[|cs| - 1])
  }

  // ---------------------------------------------------------------------
  // Parser::parse_node, as a function of the position it starts from

  /** The node whose tokens start at `p`, and the position after them; None
      when the tokens run out first. */
  function ParseAt(t: seq<nat>, p: nat): (r: Option<(Node, nat)>)
    requires p <= |t|
    ensures r.Some? ==> p + 2 <= r.value.1 <= |t|
    decreases |t| - p, 0
  {
    if p + 2 > |t| then None
    else
      var childrenCount, metadataCount := t[p], t[p + 1];
      match ParseChildren(t, p + 2, childrenCount)
      case None => None
      case Some((children, q)) =>
        if q + metadataCount > |t| then None
        else Some((Node(children, t[q..q + metadataCount]), q + metadataCount))
  }

  /** `count` nodes one after the other from `p`: the `collect` over
      `parse_node` that stops at the first None. */
  function ParseChildren(t: seq<nat>, p: nat, count: nat): (r: Option<(seq<Node>, nat)>)
    requires p <= |t|
    ensures r.Some? ==> p <= r.value.1 <= |t| && |r.value.0| == count
    decreases |t| - p, 1, count
  {
    if count == 0 then Some(([], p))
    else
      match ParseAt(t, p)
      case None => None
      case Some((child, q)) =>
        match ParseChildren(t, q, count - 1)
        case None => None
        case Some((rest, q')) => Some(([child] + rest, q'))
  }

  // ---------------------------------------------------------------------
  // Round trip

  lemma {:induction false} EncodeAllSnoc(cs: seq<Node>, c: Node)
    ensures EncodeAll(cs + [c]) == EncodeAll(cs) + Encode(c)
  {
    assert (cs + [c])[..|cs|] == cs;
  }

  lemma {:induction false} EncodeAllCons(c: Node, cs: seq<Node>)
    ensures EncodeAll([c] + cs) == Encode(c) + EncodeAll(cs)
    decreases |cs|
  {
    if cs == [] {
      assert [c] + cs == [c];
      assert EncodeAll([c][..0]) == [];
    } else {
      var front, last := cs[..|cs| - 1], cs[|cs| - 1];
      assert [c] + cs == ([c] + front) + [last];
      assert cs == front + [last];
      EncodeAllSnoc([c] + front, last);
      EncodeAllSnoc(front, last);
      EncodeAllCons(c, front);
    }
  }

  /** Parsing at the start of a node's tokens gives the node back and stops
      right after them, whatever follows. */
  lemma {:induction false} ParseEncode(t: seq<nat>, p: nat, n: Node)
    requires p + |Encode(n)| <= |t| && t[p..p + |Encode(n)|] == Encode(n)
    ensures ParseAt(t, p) == Some((n, p + |Encode(n)|))
    decreases n, 1
  {
    EncodeSlices(t, p, n);
    ParseEncodeAll(t, p + 2, n.children);
  }

  /** Where a node's tokens sit in `t`: its two counts, then its children's
      tokens, then its metadata. */
  lemma EncodeSlices(t: seq<nat>, p: nat, n: Node)
    requires p + |Encode(n)| <= |t| && t[p..p + |Encode(n)|] == Encode(n)
    ensures t[p] == |n.children| && t[p + 1] == |n.metadata|
    ensures p + 2 + |EncodeAll(n.children)| + |n.metadata| == p + |Encode(n)|
    ensures t[p + 2..p + 2 + |EncodeAll(n.children)|] == EncodeAll(n.children)
    ensures t[p + 2 + |EncodeAll(n.children)|..p + |Encode(n)|] == n.metadata
  {
    var e := Encode(n);
    var body := EncodeAll(n.children);
    var q := p + 2 + |body|;
    assert t[p] == e[0] && t[p + 1] == e[1];
    assert e[2..2 + |body|] == body;
    assert e[2 + |body|..] == n.metadata;
    SliceWithin(t, p, e, 2, 2 + |body|);
    SliceWithin(t, p, e, 2 + |body|, |e|);
  }

  /** A slice of a run of `t` equal to `e` is the same slice of `e`. */
  lemma SliceWithin(t: seq<nat>, p: nat, e: seq<nat>, i: nat, j: nat)
    requires p + |e| <= |t| && t[p..p + |e|] == e && i <= j <= |e|
    ensures t[p + i..p + j] == e[i..j]
  {
    forall k | 0 <= k < j - i
      ensures t[p + i..p + j][k] == e[i..j][k]
    {
      assert t[p..p + |e|][i + k] == t[p + i + k];
    }
  }

  lemma {:induction false} ParseEncodeAll(t: seq<nat>, p: nat, cs: seq<Node>)
    requires p + |EncodeAll(cs)| <= |t| && t[p..p + |EncodeAll(cs)|] == EncodeAll(cs)
    ensures ParseChildren(t, p, |cs|) == Some((cs, p + |EncodeAll(cs)|))
    decreases cs, 0
  {
    if cs != [] {
      var c, rest := cs[0], cs[1..];
      assert cs == [c] + rest;
      EncodeAllCons(c, rest);
      SplitRun(t, p, Encode(c), EncodeAll(rest));
      ParseEncode(t, p, c);
      ParseEncodeAll(t, p + |Encode(c)|, rest);
    }
  }

  /** A run of `t` equal to `a + b` holds `a` and then `b`. */
  lemma SplitRun(t: seq<nat>, p: nat, a: seq<nat>, b: seq<nat>)
    requires p + |a + b| <= |t| && t[p..p + |a + b|] == a + b
    ensures p + |a| + |b| <= |t| && t[p..p + |a|] == a && t[p + |a|..p + |a| + |b|] == b
  {
    var e := a + b;
    assert e[..|a|] == a && e[|a|..] == b;
    SliceWithin(t, p, e, 0, |a|);
    SliceWithin(t, p, e, |a|, |e|);
  }

  /** Conversely, what the parser reads between where it starts and where
      it stops is exactly the encoding of the node it returns. */
  lemma {:induction false} ParseIsEncode(t: seq<nat>, p: nat)
    requires p <= |t| && ParseAt(t, p).Some?
    ensures t[p..ParseAt(t, p).value.1] == Encode(ParseAt(t, p).value.0)
    decreases |t| - p, 0
  {
    var (n, end) := ParseAt(t, p).value;
    var (children, q) := ParseChildren(t, p + 2, t[p]).value;
    ParseChildrenIsEncode(t, p + 2, t[p]);
    assert t[p..end] == [t[p], t[p + 1]] + t[p + 2..q] + t[q..end];
  }

  lemma {:induction false} ParseChildrenIsEncode(t: seq<nat>, p: nat, count: nat)
    requires p <= |t| && ParseChildren(t, p, count).Some?
    ensures t[p..ParseChildren(t, p, count).value.1] == EncodeAll(ParseChildren(t, p, count).value.0)
    decreases |t| - p, 1, count
  {
    if count > 0 {
      var (child, q) := ParseAt(t, p).value;
      var (rest, end) := ParseChildren(t, q, count - 1).value;
      ParseIsEncode(t, p);
      ParseChildrenIsEncode(t, q, count - 1);
      EncodeAllCons(child, rest);
      assert t[p..end] == t[p..q] + t[q..end];
    }
  }

  /** The parser gives up exactly when no node's encoding starts at `p`. */
  lemma ParseNone(t: seq<nat>, p: nat)
    requires p <= |t|
    ensures ParseAt(t, p).None? <==> forall n :: !(p + |Encode(n)| <= |t| && t[p..p + |Encode(n)|] == Encode(n))
  {
    if ParseAt(t, p).Some? {
      ParseIsEncode(t, p);
      var (n, q) := ParseAt(t, p).value;
      assert p + |Encode(n)| == q;
    } else {
      forall n | p + |Encode(n)| <= |t| && t[p..p + |Encode(n)|] == Encode(n) ensures false {
        ParseEncode(t, p, n);
      }
    }
  }

  // ---------------------------------------------------------------------
  // Parser: the iterator it advances

  class Parser {
    const tokens: seq<nat>
    var pos: nat

    ghost predicate Valid()
      reads this
    {
      pos <= |tokens|
    }

    /** `Parser::new`. */
    constructor(tokens: seq<nat>)
      ensures this.tokens == tokens && pos == 0 && Valid()
    {
      this.tokens := tokens;
      pos := 0;
    }

    /** `self.inner.next()`. */
    method Next() returns (r: Option<nat>)
      requires Valid()
      modifies this
      ensures Valid()
      ensures old(pos) < |tokens| ==> r == Some(tokens[old(pos)]) && pos == old(pos) + 1
      ensures old(pos) == |tokens| ==> r == None && pos == old(pos)
    {
      if pos < |tokens| {
        r := Some(tokens[pos]);
        pos := pos + 1;
      } else {
        r := None;
      }
    }

    /** `parse_node`: reads the two counts, that many children and that
        many metadata entries; when it returns a node, it agrees with
        `ParseAt` on the node and on where it stops. */
    method ParseNode() returns (r: Option<Node>)
      requires Valid()
      modifies this
      ensures Valid() && old(pos) <= pos
      ensures r.Some? <==> ParseAt(tokens, old(pos)).Some?
      ensures r.Some? ==> ParseAt(tokens, old(pos)) == Some((r.value, pos))
      decreases |tokens| - pos, 0
    {
      var start := pos;
      var childrenCount := Next();
      if childrenCount.None? {
        return None;
      }
      var metadataCount := Next();
      if metadataCount.None? {
        return None;
      }
      var children := ParseChildrenNodes(childrenCount.value);
      if children.None? {
        return None;
      }
      var metadata := ReadMetadata(metadataCount.value);
      if metadata.None? {
        return None;
      }
      r := Some(Node(children.value, metadata.value));
    }

    /** `(0..count).map(|_| self.parse_node()).collect::<Option<Vec<_>>>()`:
        stops at the first child that fails. */
    method ParseChildrenNodes(count: nat) returns (r: Option<seq<Node>>)
      requires Valid()
      modifies this
      ensures Valid() && old(pos) <= pos
      ensures r.Some? <==> ParseChildren(tokens, old(pos), count).Some?
      ensures r.Some? ==> ParseChildren(tokens, old(pos), count) == Some((r.value, pos))
      decreases |tokens| - pos, 1
    {
      var start := pos;
      var children := [];
      var k := 0;
      PrependNothing(ParseChildren(tokens, pos, count));
      while k < count
        invariant Valid() && start <= pos
        invariant k <= count
        invariant ParseChildren(tokens, start, count) == Prepend(children, ParseChildren(tokens, pos, count - k))
      {
        ParseChildrenStep(tokens, pos, count - k);
        var child := ParseNode();
        if child.None? {
          return None;
        }
        PrependAssoc(children, child.value, ParseChildren(tokens, pos, count - k - 1));
        children := children + [child.value];
        k := k + 1;
      }
      assert children + [] == children;
      r := Some(children);
    }

    /** `(0..count).map(|_| self.inner.next()).collect::<Option<Vec<_>>>()`. */
    method ReadMetadata(count: nat) returns (r: Option<seq<nat>>)
      requires Valid()
      modifies this
      ensures Valid() && old(pos) <= pos
      ensures r.Some? <==> old(pos) + count <= |tokens|
      ensures r.Some? ==> r.value == tokens[old(pos)..pos] && pos == old(pos) + count
    {
      var start := pos;
      var metadata := [];
      var m := 0;
      while m < count
        invariant Valid() && pos == start + m
        invariant m <= count
        invariant metadata == tokens[start..pos]
      {
        var entry := Next();
        if entry.None? {
          return None;
        }
        metadata := metadata + [entry.value];
        m := m + 1;
      }
      r := Some(metadata);
    }
  }

  /** `children` in front of what a later parse returns. */
  function Prepend(children: seq<Node>, r: Option<(seq<Node>, nat)>): Option<(seq<Node>, nat)> {
    match r
    case None => None
    case Some((rest, q)) => Some((children + rest, q))
  }

  lemma PrependNothing(r: Option<(seq<Node>, nat)>)
    ensures Prepend([], r) == r
  {
    if r.Some? {
      assert [] + r.value.0 == r.value.0;
    }
  }

  lemma ParseChildrenStep(t: seq<nat>, p: nat, count: nat)
    requires p <= |t| && count > 0
    ensures ParseChildren(t, p, count)
      == match ParseAt(t, p)
         case None => None
         case Some((child, q)) => Prepend([child], ParseChildren(t, q, count - 1))
  {
  }

  lemma PrependAssoc(children: seq<Node>, child: Node, r: Option<(seq<Node>, nat)>)
    ensures Prepend(children, Prepend([child], r)) == Prepend(children + [child], r)
  {
    if r.Some? {
      assert children + ([child] + r.value.0) == children + [child] + r.value.0;
    }
  }

  // ---------------------------------------------------------------------
  // metadata_sum and value

  /** `metadata_sum`: the node's own metadata plus its children's sums. */
  function MetadataSum(n: Node): nat
    decreases n
  {
    Total(n.metadata) + Total(seq(|n.children|, i requires 0 <= i < |n.children| => MetadataSum(n.children[i])))
  }

  /** Every metadata entry of the tree in the order they are written. */
  function AllMetadata(n: Node): seq<nat>
    decreases n, 1
  {
    AllMetadataOf(n.children) + n.metadata
  }

  function AllMetadataOf(cs: seq<Node>): seq<nat>
    decreases cs, 0
  {
    if cs == [] then [] else AllMetadataOf(cs[..|cs| - 1]) + AllMetadata(cs[|cs| - 1])
  }

  /** The metadata sum is the total of every metadata entry in the tree. */
  lemma {:induction false} MetadataSumAll(n: Node)
    ensures MetadataSum(n) == Total(AllMetadata(n))
    decreases n, 1
  {
    var sums := seq(|n.children|, i requires 0 <= i < |n.children| => MetadataSum(n.children[i]));
    ChildrenSumAll(n.children, sums);
    TotalConcat(AllMetadataOf(n.children), n.metadata);
  }

  lemma {:induction false} ChildrenSumAll(cs: seq<Node>, sums: seq<nat>)
    requires |sums| == |cs| && forall i :: 0 <= i < |cs| ==> sums[i] == MetadataSum(cs[i])
    ensures Total(sums) == Total(AllMetadataOf(cs))
    decreases cs, 0
  {
    if cs != [] {
      var k := |cs| - 1;
      ChildrenSumAll(cs[..k], sums[..k]);
      MetadataSumAll(cs[k]);
      TotalConcat(AllMetadataOf(cs[..k]), AllMetadata(cs[k]));
      TotalLast(sums);
    }
  }

  lemma TotalLast(xs: seq<nat>)
    requires xs != []
    ensures Total(xs) == Total(xs[..|xs| - 1]) + xs[|xs| - 1]
  {
    var k := |xs| - 1;
    assert xs == xs[..k] + [xs[k]];
    TotalConcat(xs[..k], [xs[k]]);
  }

  /** `value`: a leaf's value is its metadata sum; any other node's value
      sums, for each metadata entry `i`, the value of child `i - 1` when
      there is one.  An entry of 0 makes `i - 1` underflow, which the
      source's overflow check stops: None. */
  function Value(n: Node): (r: Option<nat>)
    ensures n.children == [] ==> r == Some(MetadataSum(n))
    decreases n, 1
  {
    if n.children == [] then Some(MetadataSum(n))
    else
      match Collect(EntryValues(n))
      case None => None
      case Some(values) => Some(Total(values))
  }

  /** What each metadata entry of a node contributes to its value. */
  function EntryValues(n: Node): (r: seq<Option<nat>>)
    ensures |r| == |n.metadata|
    decreases n, 0
  {
    seq(|n.metadata|, j requires 0 <= j < |n.metadata| =>
      var i := n.metadata[j];
      if i == 0 then None
      else if i <= |n.children| then Value(n.children[i - 1])
      else Some(0))
  }

  /** A non-leaf node with a metadata entry of 0 has no value. */
  lemma ZeroEntryFails(n: Node, j: nat)
    requires n.children != [] && j < |n.metadata| && n.metadata[j] == 0
    ensures Value(n).None?
  {
    assert EntryValues(n)[j].None?;
  }

  /** A non-leaf node whose every entry is out of range has value 0. */
  lemma ValueOutOfRange(n: Node)
    requires n.children != []
    requires forall j :: 0 <= j < |n.metadata| ==> n.metadata[j] > |n.children|
    ensures Value(n) == Some(0)
  {
    var values := Collect(EntryValues(n)).value;
    assert forall j :: 0 <= j < |values| ==> EntryValues(n)[j] == Some(0);
    ZeroTotal(values);
  }

  /** A node whose one entry points at child `i` has that child's value. */
  lemma ValueSingleEntry(n: Node, i: nat)
    requires 1 <= i <= |n.children| && n.metadata == [i]
    ensures Value(n) == Value(n.children[i - 1])
  {
    var entries := EntryValues(n);
    assert entries == [Value(n.children[i - 1])];
    if entries[0].Some? {
      assert Collect(entries).value == [entries[0].value];
      assert Total([entries[0].value]) == entries[0].value + Total([]);
    }
  }

  lemma {:induction false} ZeroTotal(xs: seq<nat>)
    requires forall j :: 0 <= j < |xs| ==> xs[j] == 0
    ensures Total(xs) == 0
  {
    if xs != [] {
      ZeroTotal(xs[1..]);
    }
  }

  /** Part 1 and part 2 on the tree parsed from the start of the tokens. */
  method Solve(tokens: seq<nat>) returns (r: Option<(nat, Option<nat>)>)
    ensures r.Some? <==> ParseAt(tokens, 0).Some?
    ensures r.Some? ==> r.value == (MetadataSum(ParseAt(tokens, 0).value.0), Value(ParseAt(tokens, 0).value.0))
  {
    var parser := new Parser(tokens);
    var root := parser.ParseNode();
    if root.None? {
      return None;
    }
    r := Some((MetadataSum(root.value), Value(root.value)));
  }
}
