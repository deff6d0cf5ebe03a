/** UTF-8 and UTF-16 as the codec sees them: what one sequence at the front of some bytes stands for. */
module Utf8 {
  type Byte = b: int | 0 <= b < 0x100

  const NON_CHARACTER := -1
  const REPLACEMENT_CHARACTER := 0xFFFD

  predicate IsAscii(b: Byte) {
    b < 0x80
  }

  predicate IsTrail(b: Byte) {
    0x80 <= b <= 0xBF
  }

  /** The length that the first byte of a multi-byte sequence announces; 0 if no sequence begins with it. */
  function NonAsciiSequenceLength(firstByte: Byte): (count: nat)
    ensures count == 0 || 2 <= count <= 4
  {
    if 0xC2 <= firstByte <= 0xDF then 2
    else if 0xE0 <= firstByte <= 0xEF then 3
    else if 0xF0 <= firstByte <= 0xF4 then 4
    else 0
  }

  /** The character of a sequence of the announced length, or NON_CHARACTER and how many bytes to give up. */
  function DecodeNonAsciiSequence(s: seq<Byte>, length: nat): (r: (int, nat))
    requires length == NonAsciiSequenceLength(if s == [] then 0 else s[0]) && 2 <= length <= |s|
    ensures 1 <= r.1 <= length && (r.0 != NON_CHARACTER ==> r.1 == length)
  {
    if length == 2 then
      if !IsTrail(s[1]) then (NON_CHARACTER, 1)
      else (0x40 * (s[0] as int) + s[1] - 0x3080, 2)
    else if length == 3 then
      if s[0] == 0xE0 && !(0xA0 <= s[1] <= 0xBF) then (NON_CHARACTER, 1)
      else if s[0] == 0xED && !(0x80 <= s[1] <= 0x9F) then (NON_CHARACTER, 1)
      else if !IsTrail(s[1]) then (NON_CHARACTER, 1)
      else if !IsTrail(s[2]) then (NON_CHARACTER, 2)
      else (0x1000 * (s[0] as int) + 0x40 * (s[1] as int) + s[2] - 0xE2080, 3)
    else
      if s[0] == 0xF0 && !(0x90 <= s[1] <= 0xBF) then (NON_CHARACTER, 1)
      else if s[0] == 0xF4 && !(0x80 <= s[1] <= 0x8F) then (NON_CHARACTER, 1)
      else if !IsTrail(s[1]) then (NON_CHARACTER, 1)
      else if !IsTrail(s[2]) then (NON_CHARACTER, 2)
      else if !IsTrail(s[3]) then (NON_CHARACTER, 3)
      else (0x40000 * (s[0] as int) + 0x1000 * (s[1] as int) + 0x40 * (s[2] as int) + s[3] - 0x3C82080, 4)
  }

  /** A Unicode scalar value: a code point that is not a surrogate. */
  predicate IsScalar(c: int) {
    0 <= c <= 0xD7FF || 0xE000 <= c <= 0x10FFFF
  }

  predicate IsLead(u: int) {
    0xD800 <= u <= 0xDBFF
  }

  predicate IsTrailUnit(u: int) {
    0xDC00 <= u <= 0xDFFF
  }

  /** The UTF-16 code units of a character. */
  function Units(c: int): (units: seq<int>)
    requires IsScalar(c)
    ensures 1 <= |units| <= 2 && (|units| == 2 <==> c > 0xFFFF)
  {
    if c <= 0xFFFF then [c] else [c / 0x400 + 0xD7C0, c % 0x400 + 0xDC00]
  }

  /** What begins some non-empty bytes: a character, an ill-formed sequence to give up on, or a sequence cut short. */
  datatype Front = Character(c: int, length: nat) | Bad(length: nat) | Truncated

  function FrontOf(s: seq<Byte>): (f: Front)
    requires s != []
    ensures f.Character? ==> IsScalar(f.c) && 1 <= f.length <= |s| && |Units(f.c)| <= f.length
    ensures f.Bad? ==> 1 <= f.length <= |s|
    ensures f.Truncated? ==> |s| <= 3
  {
    var count := NonAsciiSequenceLength(s[0]);
    if IsAscii(s[0]) then Character(s[0], 1)
    else if count == 0 then Bad(1)
    else if count > |s| then Truncated
    else
      var (character, length) := DecodeNonAsciiSequence(s, count);
      if character == NON_CHARACTER then Bad(length) else Character(character, length)
  }

  /** The octet sequence of a code point, section 3 of RFC 3629. The standard rules surrogates out; the encoder does
      not. */
  function Octets(c: int): (s: seq<Byte>)
    requires 0 <= c <= 0x10FFFF
    ensures 1 <= |s| <= 4
  {
    if c <= 0x7F then [c]
    else if c <= 0x7FF then [0xC0 + c / 0x40, 0x80 + c % 0x40]
    else if c <= 0xFFFF then [0xE0 + c / 0x1000, 0x80 + c / 0x40 % 0x40, 0x80 + c % 0x40]
    else [0xF0 + c / 0x40000, 0x80 + c / 0x1000 % 0x40, 0x80 + c / 0x40 % 0x40, 0x80 + c % 0x40]
  }

  /** The syntax of octet sequences, section 4 of RFC 3629. */
  predicate IsUtf8Char(s: seq<Byte>) {
    || (|s| == 1 && s[0] <= 0x7F)
    || (|s| == 2 && 0xC2 <= s[0] <= 0xDF && IsTrail(s[1]))
    || (|s| == 3 && IsTrail(s[2]) && (
          || (s[0] == 0xE0 && 0xA0 <= s[1] <= 0xBF)
          || (0xE1 <= s[0] <= 0xEC && IsTrail(s[1]))
          || (s[0] == 0xED && 0x80 <= s[1] <= 0x9F)
          || (0xEE <= s[0] <= 0xEF && IsTrail(s[1]))))
    || (|s| == 4 && IsTrail(s[2]) && IsTrail(s[3]) && (
          || (s[0] == 0xF0 && 0x90 <= s[1] <= 0xBF)
          || (0xF1 <= s[0] <= 0xF3 && IsTrail(s[1]))
          || (s[0] == 0xF4 && 0x80 <= s[1] <= 0x8F)))
  }

  /** Six-bit groups can be put together and taken apart. */
  lemma SixBits(high: nat, low: nat)
    requires low < 0x40
    ensures (0x40 * high + low) / 0x40 == high && (0x40 * high + low) % 0x40 == low
  {
  }

  lemma Twelve(c: nat)
    ensures c / 0x1000 == c / 0x40 / 0x40 && c / 0x40000 == c / 0x40 / 0x40 / 0x40
  {
  }

  /** A character's octets are the ones it is computed from. */
  lemma OctetsOfTwo(s: seq<Byte>)
    requires |s| == 2 && IsUtf8Char(s)
    ensures FrontOf(s).Character? && IsScalar(FrontOf(s).c) && Octets(FrontOf(s).c) == s
  {
    SixBits(s[0] - 0xC0, s[1] - 0x80);
    assert FrontOf(s).c == 0x40 * (s[0] as int - 0xC0) + (s[1] - 0x80);
  }

  lemma OctetsOfThree(s: seq<Byte>)
    requires |s| == 3 && IsUtf8Char(s)
    ensures FrontOf(s).Character? && IsScalar(FrontOf(s).c) && Octets(FrontOf(s).c) == s
  {
    var a, b, d := s[0] as int - 0xE0, s[1] as int - 0x80, s[2] as int - 0x80;
    var c := FrontOf(s).c;
    assert c == 0x40 * (0x40 * a + b) + d;
    SixBits(0x40 * a + b, d);
    SixBits(a, b);
    Twelve(c);
  }

  lemma OctetsOfFour(s: seq<Byte>)
    requires |s| == 4 && IsUtf8Char(s)
    ensures FrontOf(s).Character? && IsScalar(FrontOf(s).c) && Octets(FrontOf(s).c) == s
  {
    var a, b, d, e := s[0] as int - 0xF0, s[1] as int - 0x80, s[2] as int - 0x80, s[3] as int - 0x80;
    var c := FrontOf(s).c;
    assert c == 0x40 * (0x40 * (0x40 * a + b) + d) + e;
    SixBits(0x40 * (0x40 * a + b) + d, e);
    SixBits(0x40 * a + b, d);
    SixBits(a, b);
    Twelve(c);
  }

  /** Only the sequence itself decides what begins some bytes. */
  lemma FrontIsLocal(s: seq<Byte>, n: nat)
    requires 1 <= n <= |s|
    ensures IsUtf8Char(s[..n]) <==> FrontOf(s).Character? && FrontOf(s).length == n
    ensures IsUtf8Char(s[..n]) ==> FrontOf(s) == FrontOf(s[..n])
  {
  }

  /** The codec finds a character at the front exactly when the syntax does, and it is the one whose octets these
      are. */
  lemma FrontIsSyntax(s: seq<Byte>, n: nat)
    requires 1 <= n <= |s|
    ensures IsUtf8Char(s[..n]) <==> FrontOf(s).Character? && FrontOf(s).length == n
    ensures FrontOf(s).Character? && FrontOf(s).length == n ==> Octets(FrontOf(s).c) == s[..n]
  {
    FrontIsLocal(s, n);
    if IsUtf8Char(s[..n]) {
      if n == 2 { OctetsOfTwo(s[..2]); }
      if n == 3 { OctetsOfThree(s[..3]); }
      if n == 4 { OctetsOfFour(s[..4]); }
    }
  }

  /** Some character's octets begin with these. */
  ghost predicate BeginsCharacter(s: seq<Byte>) {
    exists u: seq<Byte> :: IsUtf8Char(u) && s <= u
  }

  lemma BeginsWith(s: seq<Byte>, rest: seq<Byte>)
    requires IsUtf8Char(s + rest)
    ensures BeginsCharacter(s)
  {
    assert s <= s + rest;
  }

  /** No character begins with these if even a first part of them is impossible. */
  lemma BeginsNone(s: seq<Byte>)
    requires |s| >= 2 && FrontOf(s + [0x80, 0x80]).Bad? && FrontOf(s + [0x80, 0x80]).length < |s|
    ensures !BeginsCharacter(s)
  {
    forall u: seq<Byte> | IsUtf8Char(u)
      ensures !(s <= u)
    {
      if s <= u {
        assert forall i :: 0 <= i < |s| ==> u[i] == s[i] == (s + [0x80, 0x80])[i];
      }
    }
  }

  /**
   * An ill-formed sequence gives up as many bytes as could begin a character, and at least one: with the next byte,
   * if there is one, they could not.
   */
  lemma BadGivesUp(s: seq<Byte>)
    requires s != [] && FrontOf(s).Bad?
    ensures var n := FrontOf(s).length;
      && (n == 1 || BeginsCharacter(s[..n]))
      && (n < |s| ==> !BeginsCharacter(s[..n + 1]))
  {
    var n := FrontOf(s).length;
    if n == 2 {
      assert s[..2] == [s[0], s[1]];
      var rest: seq<Byte> := if s[0] < 0xF0 then [0x80] else [0x80, 0x80];
      BeginsWith([s[0], s[1]], rest);
    } else if n == 3 {
      assert s[..3] == [s[0], s[1], s[2]];
      BeginsWith([s[0], s[1], s[2]], [0x80]);
    }
    if n < |s| {
      BeginsNone(s[..n + 1]);
    }
  }

  /** A byte announces the one length that the syntax has for sequences of several octets beginning with it, if it has
      any. */
  lemma AnnouncedLength(first: Byte, n: nat)
    requires n >= 2
    ensures NonAsciiSequenceLength(first) == n <==> exists s: seq<Byte> :: |s| == n && s[0] == first && IsUtf8Char(s)
  {
    if NonAsciiSequenceLength(first) == n {
      var second: Byte := if first == 0xE0 then 0xA0 else if first == 0xF0 then 0x90 else 0x80;
      var s: seq<Byte> := [first, second] + if n == 2 then [] else if n == 3 then [0x80] else [0x80, 0x80];
      assert |s| == n && s[0] == first && IsUtf8Char(s);
    }
  }

  lemma ThreeOctetsAreSyntax(c: int)
    requires IsScalar(c) && 0x7FF < c <= 0xFFFF
    ensures IsUtf8Char(Octets(c)) && FrontOf(Octets(c)) == Character(c, 3)
  {
    var q, r := c / 0x40, c % 0x40;
    var q2, r2 := q / 0x40, q % 0x40;
    assert c == 0x40 * q + r && q == 0x40 * q2 + r2;
    assert c / 0x1000 == q2;
    var s: seq<Byte> := [0xE0 + q2, 0x80 + r2, 0x80 + r];
    assert Octets(c) == s;
    assert IsUtf8Char(s);
    assert FrontOf(s).Character?;
  }

  lemma FourOctetsAreSyntax(c: int)
    requires IsScalar(c) && 0xFFFF < c
    ensures IsUtf8Char(Octets(c)) && FrontOf(Octets(c)) == Character(c, 4)
  {
    var q, r := c / 0x40, c % 0x40;
    var q2, r2 := q / 0x40, q % 0x40;
    var q3, r3 := q2 / 0x40, q2 % 0x40;
    assert c == 0x40 * q + r && q == 0x40 * q2 + r2 && q2 == 0x40 * q3 + r3;
    assert c / 0x1000 == q2 && c / 0x40000 == q3;
    var s: seq<Byte> := [0xF0 + q3, 0x80 + r3, 0x80 + r2, 0x80 + r];
    assert Octets(c) == s;
    assert IsUtf8Char(s);
    assert FrontOf(s).Character?;
  }

  lemma OctetsAreSyntax(c: int)
    requires IsScalar(c)
    ensures IsUtf8Char(Octets(c)) && FrontOf(Octets(c)) == Character(c, |Octets(c)|)
  {
    if c > 0xFFFF {
      FourOctetsAreSyntax(c);
    } else if c > 0x7FF {
      ThreeOctetsAreSyntax(c);
    }
  }

  /** The octets of a character are decoded as that character, whatever follows them. */
  lemma OctetsDecode(c: int, rest: seq<Byte>)
    requires IsScalar(c)
    ensures FrontOf(Octets(c) + rest) == Character(c, |Octets(c)|)
    ensures IsUtf8Char(Octets(c))
  {
    OctetsAreSyntax(c);
    var s := Octets(c) + rest;
    assert s[..|Octets(c)|] == Octets(c);
    FrontIsLocal(s, |Octets(c)|);
  }
}
