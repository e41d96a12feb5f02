/** The pieces of Rust's `str` API that the puzzle parsers rely on: splitting
    on a character or a pattern, `split_whitespace`, the `trim` family, and
    `str::parse` for unsigned and signed integer types.  Each splitter comes
    with the joiner that it inverts, so that every parser of a day module can
    be shown to invert a formatter. */
module Text {
  import opened Wrappers

  /** `char::is_whitespace`: the Unicode White_Space property. */
  predicate IsWhitespace(c: char) {
    c == ' ' || ('\t' <= c <= '\r') || c == '\U{85}' || c == '\U{A0}' || c == '\U{1680}'
    || ('\U{2000}' <= c <= '\U{200A}') || c == '\U{2028}' || c == '\U{2029}'
    || c == '\U{202F}' || c == '\U{205F}' || c == '\U{3000}'
  }

  predicate IsDigit(c: char) {
    '0' <= c <= '9'
  }

  predicate AllDigits(s: string) {
    forall i :: 0 <= i < |s| ==> IsDigit(s[i])
  }

  predicate NoWhitespace(s: string) {
    forall i :: 0 <= i < |s| ==> !IsWhitespace(s[i])
  }

  // ---------------------------------------------------------------------
  // str::split(char)

  /** `s.split(sep)`: the pieces between occurrences of `sep`, empty pieces
      included, so there is always at least one. */
  function Split(s: string, sep: char): (r: seq<string>)
    ensures |r| >= 1
    ensures forall i :: 0 <= i < |r| ==> sep !in r[i]
  {
    if s == [] then [[]]
    else
      var rest := Split(s[1..], sep);
      if s[0] == sep then [[]] + rest
      else [[s[0]] + rest[0]] + rest[1..]
  }

  /** The pieces glued back together with `sep` between them. */
  function Join(parts: seq<string>, sep: char): string
    requires |parts| >= 1
  {
    if |parts| == 1 then parts[0] else parts[0] + [sep] + Join(parts[1..], sep)
  }

  lemma {:induction false} JoinOfSplit(s: string, sep: char)
    ensures Join(Split(s, sep), sep) == s
  {
    if s != [] {
      JoinOfSplit(s[1..], sep);
      var rest := Split(s[1..], sep);
      if s[0] != sep {
        if |rest| == 1 {
          assert Join(rest, sep) == rest[0];
        } else {
          assert rest == [rest[0]] + rest[1..];
          assert Join(rest, sep) == rest[0] + [sep] + Join(rest[1..], sep);
        }
      }
    }
  }

  /** A separator-free prefix is glued onto the first piece of the rest. */
  lemma {:induction false} SplitSepFreePrefix(p: string, t: string, sep: char)
    requires sep !in p
    ensures Split(p + t, sep) == [p + Split(t, sep)[0]] + Split(t, sep)[1..]
  {
    if p != [] {
      SplitSepFreePrefix(p[1..], t, sep);
      assert (p + t)[1..] == p[1..] + t;
      assert (p + t)[0] == p[0];
      var rest := Split(p[1..] + t, sep);
      assert [p[0]] + rest[0] == p + Split(t, sep)[0];
    } else {
      assert p + t == t;
      var r := Split(t, sep);
      assert [] + r[0] == r[0];
      assert r == [r[0]] + r[1..];
    }
  }

  lemma {:induction false} SplitOfJoin(parts: seq<string>, sep: char)
    requires |parts| >= 1
    requires forall i :: 0 <= i < |parts| ==> sep !in parts[i]
    ensures Split(Join(parts, sep), sep) == parts
  {
    if |parts| == 1 {
      SplitSepFreePrefix(parts[0], [], sep);
      assert parts[0] + [] == parts[0];
    } else {
      var t := Join(parts[1..], sep);
      SplitOfJoin(parts[1..], sep);
      SplitSepFreePrefix(parts[0], [sep] + t, sep);
      assert Split([sep] + t, sep) == [[]] + Split(t, sep) by {
        assert ([sep] + t)[1..] == t;
      }
      assert parts[0] + [sep] + t == parts[0] + ([sep] + t);
      assert Join(parts, sep) == parts[0] + [sep] + t;
      assert parts[0] + [] == parts[0];
      assert parts == [parts[0]] + parts[1..];
    }
  }

  // ---------------------------------------------------------------------
  // str::split(&str)

  /** `s.split(sep)` for a non-empty string pattern: leftmost,
      non-overlapping matches. */
  function SplitStr(s: string, sep: string): (r: seq<string>)
    requires |sep| > 0
    ensures |r| >= 1
    decreases |s|
  {
    if |s| < |sep| then [s]
    else if s[..|sep|] == sep then [[]] + SplitStr(s[|sep|..], sep)
    else
      var rest := SplitStr(s[1..], sep);
      [[s[0]] + rest[0]] + rest[1..]
  }

  /** A prefix that cannot start a match is glued onto the first piece. */
  lemma {:induction false} SplitStrPrefix(p: string, t: string, sep: string)
    requires |sep| > 0 && sep[0] !in p
    ensures SplitStr(p + t, sep) == [p + SplitStr(t, sep)[0]] + SplitStr(t, sep)[1..]
  {
    if p == [] {
      assert p + t == t;
      var r := SplitStr(t, sep);
      assert [] + r[0] == r[0];
      assert r == [r[0]] + r[1..];
    } else {
      SplitStrPrefix(p[1..], t, sep);
      assert (p + t)[1..] == p[1..] + t;
      assert (p + t)[0] == p[0];
      var x := SplitStr(t, sep);
      if |p + t| >= |sep| {
        assert (p + t)[..|sep|][0] == p[0];
        assert [p[0]] + (p[1..] + x[0]) == p + x[0];
      } else {
        assert |t| < |sep|;
        assert x == [t];
        assert [p + t] == [p + x[0]] + x[1..];
      }
    }
  }

  /** Splitting `p + sep + t`, where `p` cannot start a match, yields `p`
      followed by the pieces of `t`. */
  lemma SplitStrAt(p: string, t: string, sep: string)
    requires |sep| > 0 && sep[0] !in p
    ensures SplitStr(p + sep + t, sep) == [p] + SplitStr(t, sep)
  {
    SplitStrPrefix(p, sep + t, sep);
    assert (sep + t)[..|sep|] == sep;
    assert (sep + t)[|sep|..] == t;
    assert SplitStr(sep + t, sep) == [[]] + SplitStr(t, sep);
    assert p + [] == p;
    assert p + sep + t == p + (sep + t);
  }

  /** A string in which `sep` cannot start is a single piece. */
  lemma SplitStrNone(p: string, sep: string)
    requires |sep| > 0 && sep[0] !in p
    ensures SplitStr(p, sep) == [p]
  {
    SplitStrPrefix(p, [], sep);
    assert p + [] == p;
  }

  // ---------------------------------------------------------------------
  // str::split_whitespace

  /** Length of the longest whitespace-free prefix of `s`. */
  function WordLength(s: string): (n: nat)
    ensures n <= |s|
    ensures NoWhitespace(s[..n])
    ensures n < |s| ==> IsWhitespace(s[n])
  {
    if s == [] || IsWhitespace(s[0]) then 0 else 1 + WordLength(s[1..])
  }

  /** `s.split_whitespace()`: the maximal runs of non-whitespace characters. */
  function SplitWhitespace(s: string): (r: seq<string>)
    ensures forall i :: 0 <= i < |r| ==> r[i] != [] && NoWhitespace(r[i])
    decreases |s|
  {
    if s == [] then []
    else if IsWhitespace(s[0]) then SplitWhitespace(s[1..])
    else
      var n := WordLength(s);
      [s[..n]] + SplitWhitespace(s[n..])
  }

  /** Words glued together with single spaces. */
  function Unwords(words: seq<string>): string {
    if words == [] then []
    else if |words| == 1 then words[0]
    else words[0] + " " + Unwords(words[1..])
  }

  predicate IsWord(w: string) {
    w != [] && NoWhitespace(w)
  }

  /** A non-empty run of printable ASCII characters other than the space. */
  predicate Printable(w: string) {
    w != [] && forall i :: 0 <= i < |w| ==> '!' <= w[i] <= '~'
  }

  lemma PrintableIsWord(w: string)
    requires Printable(w)
    ensures IsWord(w)
  {
    forall i | 0 <= i < |w| ensures !IsWhitespace(w[i]) {
      assert '!' <= w[i] <= '~';
    }
  }

  lemma {:induction false} WordLengthOf(w: string, rest: string)
    requires NoWhitespace(w)
    requires rest == [] || IsWhitespace(rest[0])
    ensures WordLength(w + rest) == |w|
  {
    if w == [] {
      assert w + rest == rest;
    } else {
      assert (w + rest)[0] == w[0];
      assert (w + rest)[1..] == w[1..] + rest;
      WordLengthOf(w[1..], rest);
    }
  }

  /** A word followed by whitespace (or nothing) is split off whole. */
  lemma SplitWhitespaceCons(w: string, rest: string)
    requires IsWord(w)
    requires rest == [] || IsWhitespace(rest[0])
    ensures SplitWhitespace(w + rest) == [w] + SplitWhitespace(rest)
  {
    WordLengthOf(w, rest);
    assert (w + rest)[0] == w[0];
    assert (w + rest)[..|w|] == w;
    assert (w + rest)[|w|..] == rest;
  }

  lemma {:induction false} SplitWhitespaceOfUnwords(words: seq<string>)
    requires forall i :: 0 <= i < |words| ==> IsWord(words[i])
    ensures SplitWhitespace(Unwords(words)) == words
  {
    if |words| == 1 {
      SplitWhitespaceCons(words[0], []);
      assert words[0] + [] == words[0];
    } else if |words| > 1 {
      var t := Unwords(words[1..]);
      SplitWhitespaceOfUnwords(words[1..]);
      SplitWhitespaceCons(words[0], " " + t);
      assert (" " + t)[1..] == t;
      assert SplitWhitespace(" " + t) == SplitWhitespace(t);
      assert words[0] + " " + t == words[0] + (" " + t);
      assert words == [words[0]] + words[1..];
    }
  }

  // ---------------------------------------------------------------------
  // trim family

  /** `s.trim_start_matches(c)`. */
  function TrimStartMatches(s: string, c: char): (r: string)
    ensures r == [] || r[0] != c
    ensures |r| <= |s| && r == s[|s| - |r|..]
  {
    if s != [] && s[0] == c then TrimStartMatches(s[1..], c) else s
  }

  /** `s.trim_end_matches(c)`. */
  function TrimEndMatches(s: string, c: char): (r: string)
    ensures r == [] || r[|r| - 1] != c
    ensures |r| <= |s| && r == s[..|r|]
  {
    if s != [] && s[|s| - 1] == c then TrimEndMatches(s[..|s| - 1], c) else s
  }

  /** `s.trim()`: leading and trailing whitespace removed. */
  function Trim(s: string): (r: string)
    ensures r == [] || (!IsWhitespace(r[0]) && !IsWhitespace(r[|r| - 1]))
    decreases |s|
  {
    if s != [] && IsWhitespace(s[0]) then Trim(s[1..])
    else if s != [] && IsWhitespace(s[|s| - 1]) then Trim(s[..|s| - 1])
    else s
  }

  lemma TrimStartMatchesNone(s: string, c: char)
    requires s == [] || s[0] != c
    ensures TrimStartMatches(s, c) == s
  {
  }

  lemma TrimEndMatchesNone(s: string, c: char)
    requires s == [] || s[|s| - 1] != c
    ensures TrimEndMatches(s, c) == s
  {
  }

  /** `trim` leaves a word alone and removes one leading space. */
  lemma TrimWord(w: string)
    requires IsWord(w)
    ensures Trim(w) == w && Trim(" " + w) == w
  {
    assert !IsWhitespace(w[0]) && !IsWhitespace(w[|w| - 1]);
    assert (" " + w)[1..] == w;
  }

  // ---------------------------------------------------------------------
  // integers

  const U8_MAX: nat := 255
  const U16_MAX: nat := 65535
  const USIZE_MAX: nat := 0xFFFF_FFFF_FFFF_FFFF
  const I32_MIN: int := -0x8000_0000
  const I32_MAX: int := 0x7FFF_FFFF
  const ISIZE_MIN: int := -0x8000_0000_0000_0000
  const ISIZE_MAX: int := 0x7FFF_FFFF_FFFF_FFFF

  function DigitValue(c: char): nat
    requires IsDigit(c)
  {
    (c as int) - ('0' as int)
  }

  function DigitChar(d: nat): (c: char)
    requires d < 10
    ensures IsDigit(c) && DigitValue(c) == d
  {
    (('0' as int) + d) as char
  }

  /** The value of a string of decimal digits, most significant first. */
  function DigitsValue(s: string): nat
    requires AllDigits(s)
  {
    if s == [] then 0 else DigitsValue(s[..|s| - 1]) * 10 + DigitValue(s[|s| - 1])
  }

  /** `str::parse` for an unsigned integer type with maximum `max`: an
      optional `+`, then at least one decimal digit, and no overflow. */
  function ParseUnsigned(s: string, max: nat): (r: Option<nat>)
    ensures r.Some? ==> r.value <= max
  {
    var digits := if |s| > 0 && s[0] == '+' then s[1..] else s;
    if digits == [] || !AllDigits(digits) then None
    else if DigitsValue(digits) > max then None
    else Some(DigitsValue(digits))
  }

  /** `str::parse` for a signed integer type with range `min..=max`: an
      optional `+` or `-`, then at least one decimal digit, and no overflow. */
  function ParseSigned(s: string, min: int, max: int): (r: Option<int>)
    requires min <= 0 <= max
    ensures r.Some? ==> min <= r.value <= max
  {
    if |s| > 0 && s[0] == '-' then
      var digits := s[1..];
      if digits == [] || !AllDigits(digits) then None
      else
        var v: int := DigitsValue(digits);
        if -v < min then None else Some(-v)
    else
      ParseUnsigned(s, max)
  }

  /** Decimal rendering without leading zeros (`to_string`). */
  function NatToString(n: nat): (s: string)
    ensures |s| >= 1 && AllDigits(s)
    ensures DigitsValue(s) == n
    ensures |s| > 1 ==> s[0] != '0'
  {
    if n < 10 then [DigitChar(n)]
    else
      var s := NatToString(n / 10) + [DigitChar(n % 10)];
      assert s[..|s| - 1] == NatToString(n / 10);
      s
  }

  /** A number of two or more digits is written as the digits of `n / 10`
      followed by its last digit. */
  lemma NatToStringSnoc(n: nat)
    requires n >= 10
    ensures NatToString(n) == NatToString(n / 10) + [DigitChar(n % 10)]
  {
  }

  function IntToString(i: int): string {
    if i < 0 then "-" + NatToString(-i) else NatToString(i)
  }

  lemma ParseUnsignedOfNatToString(n: nat, max: nat)
    requires n <= max
    ensures ParseUnsigned(NatToString(n), max) == Some(n)
  {
    var s := NatToString(n);
    assert IsDigit(s[0]);
  }

  lemma ParseSignedOfIntToString(i: int, min: int, max: int)
    requires min <= 0 <= max && min <= i <= max
    ensures ParseSigned(IntToString(i), min, max) == Some(i)
  {
    if i < 0 {
      var s := IntToString(i);
      assert s[1..] == NatToString(-i);
    } else {
      ParseUnsignedOfNatToString(i, max);
      assert IsDigit(NatToString(i)[0]);
    }
  }

  lemma NatToStringIsWord(n: nat)
    ensures IsWord(NatToString(n))
    ensures forall c :: c in NatToString(n) ==> IsDigit(c)
  {
    var s := NatToString(n);
    forall i | 0 <= i < |s| ensures !IsWhitespace(s[i]) {
      assert IsDigit(s[i]);
    }
  }

  lemma IntToStringIsWord(i: int)
    ensures IsWord(IntToString(i))
    ensures forall c :: c in IntToString(i) ==> IsDigit(c) || c == '-'
  {
    NatToStringIsWord(if i < 0 then -i else i);
    var s := IntToString(i);
    if i < 0 {
      forall k | 0 <= k < |s| ensures !IsWhitespace(s[k]) {
        if k > 0 {
          assert s[k] == NatToString(-i)[k - 1];
        }
      }
    }
  }
}
