/** The `java.lang.String` operations the transformers rely on: `trim`,
    `replace(char, char)` and `compareTo` over UTF-16 code units. */
module Strings {

  /** `String.trim` removes every character whose code point is at most
      U+0020 from both ends. */
  predicate IsSpace(c: char)
  {
    c <= ' '
  }

  predicate AllSpace(s: string)
  {
    forall k :: 0 <= k < |s| ==> IsSpace(s[k])
  }

  /** The number of spaces at the front of `s`. */
  function LeadingSpaces(s: string): (n: nat)
    ensures n <= |s| && AllSpace(s[..n]) && (n == |s| || !IsSpace(s[n]))
  {
    if s != [] && IsSpace(s[0]) then
      var m := LeadingSpaces(s[1..]);
      assert s[..m + 1] == [s[0]] + s[1..][..m];
      1 + m
    else 0
  }

  /** The number of spaces at the back of `s`. */
  function TrailingSpaces(s: string): (n: nat)
    ensures n <= |s| && AllSpace(s[|s| - n..]) && (n == |s| || !IsSpace(s[|s| - n - 1]))
  {
    if s != [] && IsSpace(s[|s| - 1]) then
      var p := s[..|s| - 1];
      var m := TrailingSpaces(p);
      assert s[|s| - m - 1..] == p[|p| - m..] + [s[|s| - 1]];
      1 + m
    else 0
  }

  /** `String.trim`: the result is the part of `s` between a run of spaces
      at the front and a run of spaces at the back, and it neither starts
      nor ends with a space. */
  function Trim(s: string): (r: string)
    ensures r == [] || (!IsSpace(r[0]) && !IsSpace(r[|r| - 1]))
    ensures var i := LeadingSpaces(s);
      i + |r| <= |s| && r == s[i..i + |r|] && AllSpace(s[..i]) && AllSpace(s[i + |r|..])
  {
    var i := LeadingSpaces(s);
    var t := s[i..];
    var n := TrailingSpaces(t);
    assert t[|t| - n..] == s[|s| - n..];
    assert n < |t| ==> t[|t| - n - 1] == s[|s| - n - 1];
    TrimSlice(s, i, n);
    s[i..|s| - n]
  }

  /** The middle of `s` between `i` leading and `n` trailing spaces. */
  lemma TrimSlice(s: string, i: nat, n: nat)
    requires i + n <= |s| && AllSpace(s[..i]) && AllSpace(s[|s| - n..])
    requires i == |s| || !IsSpace(s[i])
    requires n == |s| - i || !IsSpace(s[|s| - n - 1])
    ensures var r := s[i..|s| - n];
      && (r == [] || (!IsSpace(r[0]) && !IsSpace(r[|r| - 1])))
      && i + |r| <= |s| && r == s[i..i + |r|] && AllSpace(s[i + |r|..])
  {
  }

  /** `String.replace(from, to)` on characters: every `from` becomes `to`
      and every other character stays. */
  function Replace(s: string, from: char, to: char): (r: string)
    ensures |r| == |s|
    ensures forall k :: 0 <= k < |s| ==> r[k] == if s[k] == from then to else s[k]
  {
    if s == [] then [] else [if s[0] == from then to else s[0]] + Replace(s[1..], from, to)
  }

  /** The number-text clean-up shared by the math and aggregation coercions:
      `text.trim().replace(',', '.')`. */
  function Normalize(s: string): (r: string)
    ensures ',' !in r
    ensures |r| == |Trim(s)|
    ensures r == [] <==> Trim(s) == []
  {
    Replace(Trim(s), ',', '.')
  }

  /** The UTF-16 code units of one character, as `String` stores it: the
      character itself below U+10000, otherwise a high surrogate followed by
      a low surrogate. */
  function CodeUnits(c: char): (u: seq<int>)
    ensures 1 <= |u| <= 2
    ensures |u| == 1 ==> u[0] == c as int && u[0] < 0x1_0000 && !(0xD800 <= u[0] < 0xE000)
    ensures |u| == 2 ==>
      && 0xD800 <= u[0] < 0xDC00 && 0xDC00 <= u[1] < 0xE000
      && c as int == 0x1_0000 + (u[0] - 0xD800) * 0x400 + (u[1] - 0xDC00)
  {
    if c as int < 0x1_0000 then [c as int]
    else
      var v := c as int - 0x1_0000;
      [0xD800 + v / 0x400, 0xDC00 + v % 0x400]
  }

  /** The UTF-16 encoding of a text: its characters' code units in order. */
  function Utf16(s: string): (u: seq<int>)
    ensures |s| <= |u| <= 2 * |s|
  {
    if s == [] then [] else CodeUnits(s[0]) + Utf16(s[1..])
  }

  /** The first character's code units and the rest are recovered from an
      encoding. */
  lemma UnitsDetermine(x: char, y: char, s: seq<int>, t: seq<int>)
    requires CodeUnits(x) + s == CodeUnits(y) + t
    ensures x == y && s == t
  {
    var u, w := CodeUnits(x), CodeUnits(y);
    assert u[0] == (u + s)[0] == (w + t)[0] == w[0];
    if |u| == 2 && |w| == 2 {
      assert u[1] == (u + s)[1] == (w + t)[1] == w[1];
    }
    assert |u| == |w|;
    assert s == (u + s)[|u|..] && t == (w + t)[|w|..];
  }

  /** Different texts have different encodings. */
  lemma {:induction false} Utf16Injective(a: string, b: string)
    requires Utf16(a) == Utf16(b)
    ensures a == b
  {
    if a != [] && b != [] {
      UnitsDetermine(a[0], b[0], Utf16(a[1..]), Utf16(b[1..]));
      Utf16Injective(a[1..], b[1..]);
      assert a == [a[0]] + a[1..] && b == [b[0]] + b[1..];
    }
  }

  /** The loop of `String.compareTo` over code units: the difference of the
      first pair of units that differ, or else the difference of the
      lengths. */
  function CompareUnits(a: seq<int>, b: seq<int>): int
  {
    if a == [] || b == [] then |a| - |b|
    else if a[0] != b[0] then a[0] - b[0]
    else CompareUnits(a[1..], b[1..])
  }

  /** Two texts are equal exactly when their encodings are. */
  lemma SameEncoding(a: string, b: string)
    ensures Utf16(a) == Utf16(b) <==> a == b
  {
    if Utf16(a) == Utf16(b) {
      Utf16Injective(a, b);
    }
  }

  /** `String.compareTo`, which compares the UTF-16 code units of the two
      texts rather than their characters: it is zero exactly on equal
      texts. */
  function CompareText(a: string, b: string): (r: int)
    ensures r == 0 <==> a == b
  {
    SameEncoding(a, b);
    CompareUnitsZero(Utf16(a), Utf16(b));
    CompareUnits(Utf16(a), Utf16(b))
  }

  /** The code-unit comparison is zero exactly on equal unit sequences. */
  lemma {:induction false} CompareUnitsZero(a: seq<int>, b: seq<int>)
    ensures CompareUnits(a, b) == 0 <==> a == b
  {
    if a != [] && b != [] && a[0] == b[0] {
      CompareUnitsZero(a[1..], b[1..]);
      assert a == [a[0]] + a[1..] && b == [b[0]] + b[1..];
    }
  }

  /** Swapping the operands negates the code-unit comparison. */
  lemma {:induction false} CompareUnitsAntisymmetric(a: seq<int>, b: seq<int>)
    ensures CompareUnits(b, a) == -CompareUnits(a, b)
  {
    if a != [] && b != [] && a[0] == b[0] {
      CompareUnitsAntisymmetric(a[1..], b[1..]);
    }
  }

  /** The code-unit comparison is transitive. */
  lemma {:induction false} CompareUnitsTransitive(a: seq<int>, b: seq<int>, c: seq<int>)
    requires CompareUnits(a, b) <= 0 && CompareUnits(b, c) <= 0
    ensures CompareUnits(a, c) <= 0
  {
    if a != [] && b != [] && c != [] && a[0] == b[0] && b[0] == c[0] {
      CompareUnitsTransitive(a[1..], b[1..], c[1..]);
    }
  }

  /** Swapping the operands negates `compareTo`. */
  lemma CompareTextAntisymmetric(a: string, b: string)
    ensures CompareText(b, a) == -CompareText(a, b)
  {
    CompareUnitsAntisymmetric(Utf16(a), Utf16(b));
  }

  /** `compareTo` orders texts transitively. */
  lemma CompareTextTransitive(a: string, b: string, c: string)
    requires CompareText(a, b) <= 0 && CompareText(b, c) <= 0
    ensures CompareText(a, c) <= 0
  {
    CompareUnitsTransitive(Utf16(a), Utf16(b), Utf16(c));
  }

  /** `compareTo` is not the order of characters: a character above U+FFFF
      starts with a surrogate unit and so sorts before U+FF5E, although its
      own value is larger. */
  lemma SurrogatesBeforeHighCharacters()
    ensures "\U{1F600}"[0] > "\U{FF5E}"[0]
    ensures CompareText("\U{1F600}", "\U{FF5E}") < 0
  {
    assert Utf16("\U{1F600}") == [0xD83D, 0xDE00];
  }
}
