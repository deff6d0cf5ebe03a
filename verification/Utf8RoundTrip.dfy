/** Encoding and decoding undo each other, on exactly the strings for which they can. */
module Utf8RoundTrip {
  import opened Basics
  import opened Utf8
  import opened Utf8Codec
  import opened Utf8Streams
  import opened Utf8Cuts

  predicate AreUnits(units: seq<int>) {
    forall i :: 0 <= i < |units| ==> 0 <= units[i] <= 0xFFFF
  }

  /** The code point at the front of a string and how many code units it takes; an unpaired surrogate is taken as it
      is. */
  function NextCodePoint(units: seq<int>): (r: (int, nat))
    requires units != [] && AreUnits(units)
    ensures 0 <= r.0 <= 0x10FFFF && 1 <= r.1 <= |units|
    ensures |Octets(r.0)| <= 3 * r.1
  {
    if IsLead(units[0]) && |units| >= 2 && IsTrailUnit(units[1]) then
      (units[0] * 0x400 + units[1] - 0x35FDC00, 2)
    else (units[0], 1)
  }

  function Encode(units: seq<int>): (bytes: seq<Byte>)
    requires AreUnits(units)
    ensures |bytes| <= 3 * |units|
  {
    if units == [] then []
    else
      var (c, n) := NextCodePoint(units);
      Octets(c) + Encode(units[n..])
  }

  lemma SurrogateOctets(u: nat)
    requires u < 0x800
    ensures Octets(0xD800 + u) == [0xED, 0xA0 + u / 0x40, 0x80 + u % 0x40]
    ensures !BeginsCharacter([0xED, 0xA0 + u / 0x40])
  {
    SixBits(0x360 + u / 0x40, u % 0x40);
    assert 0xD800 + u == 0x40 * (0x360 + u / 0x40) + u % 0x40;
    assert (0xD800 + u) / 0x1000 == 0xD && (0x360 + u / 0x40) % 0x40 == 0x20 + u / 0x40;
    BeginsNone([0xED, 0xA0 + u / 0x40]);
  }

  lemma UnpairedIsAlone(units: seq<int>)
    requires units != [] && AreUnits(units)
    requires units[0] >= 0xDC00 || |units| == 1 || !(0xDC00 <= units[1] <= 0xDFFF)
    ensures NextCodePoint(units) == (units[0], 1)
  {
  }

  /** A surrogate that is not half of a pair becomes the three bytes of its code point, which are not UTF-8. */
  lemma UnpairedSurrogate(units: seq<int>)
    requires units != [] && AreUnits(units) && 0xD800 <= units[0] <= 0xDFFF
    requires units[0] >= 0xDC00 || |units| == 1 || !(0xDC00 <= units[1] <= 0xDFFF)
    ensures var u := units[0] - 0xD800;
      && Encode(units) == [0xED, 0xA0 + u / 0x40, 0x80 + u % 0x40] + Encode(units[1..])
      && !BeginsCharacter([0xED, 0xA0 + u / 0x40])
  {
    hide Octets, NextCodePoint, BeginsCharacter;
    SurrogateOctets(units[0] - 0xD800);
    UnpairedIsAlone(units);
  }

  /** The encoder's loop. It reserves three bytes per code unit and never writes beyond them. */
  method EncodeLoop(units: seq<int>) returns (bytes: seq<Byte>)
    requires AreUnits(units)
    ensures bytes == Encode(units)
  {
    hide Octets, NextCodePoint;
    var capacity := 3 * |units|;
    bytes := [];
    var offset := 0;
    while offset < |units|
      invariant 0 <= offset <= |units| && |bytes| <= 3 * offset
      invariant Encode(units) == bytes + Encode(units[offset..])
    {
      var (c, n) := NextCodePoint(units[offset..]);
      assert units[offset..][n..] == units[offset + n..];
      assert |bytes| + |Octets(c)| <= capacity;
      bytes := bytes + Octets(c);
      offset := offset + n;
    }
  }

  lemma CodePointOfUnits(c: int, rest: seq<int>)
    requires IsScalar(c) && AreUnits(rest)
    ensures AreUnits(Units(c) + rest) && NextCodePoint(Units(c) + rest) == (c, |Units(c)|)
  {
    if c > 0xFFFF {
      var s := Units(c) + rest;
      assert IsLead(s[0]) && IsTrailUnit(s[1]);
      assert c == 0x400 * (c / 0x400) + c % 0x400;
    }
  }

  lemma UnitsOfCodePoint(units: seq<int>)
    requires units != [] && AreUnits(units) && WellFormedUtf16(units)
    ensures var (c, n) := NextCodePoint(units);
            IsScalar(c) && Units(c) == units[..n] && WellFormedUtf16(units[n..])
  {
    var (c, n) := NextCodePoint(units);
    if n == 2 {
      var high, low := units[0] - 0xD800, units[1] - 0xDC00;
      assert c == 0x400 * (high + 0x40) + low;
      assert c / 0x400 == high + 0x40 && c % 0x400 == low;
    }
  }

  /** Decoding undoes encoding. */
  lemma {:induction false} MainOfEncode(units: seq<int>)
    requires AreUnits(units) && WellFormedUtf16(units)
    ensures Main(Encode(units), false) == Result(units, [], false)
    decreases |units|
  {
    hide Octets, NextCodePoint, FrontOf, Main, Units;
    if units != [] {
      var (c, n) := NextCodePoint(units);
      UnitsOfCodePoint(units);
      var rest := Encode(units[n..]);
      OctetsDecode(c, rest);
      MainStep(Octets(c) + rest);
      assert (Octets(c) + rest)[|Octets(c)|..] == rest;
      MainOfEncode(units[n..]);
      assert units[..n] + units[n..] == units;
    } else {
      MainOfNothing(false);
    }
  }

  /** A fresh flushed decode of an encoded string gives the string back, without an error, if and only if the string
      has no unpaired surrogate. */
  lemma RoundTrip(units: seq<int>)
    requires AreUnits(units)
    ensures Decode([], Encode(units), true, false) == Result(units, [], false) <==> WellFormedUtf16(units)
  {
    DecodeIsWide([], Encode(units), true, false);
    WideOfFresh(Encode(units), true);
    WideIsUtf16([], Encode(units), true, false);
    if WellFormedUtf16(units) {
      MainOfEncode(units);
    }
  }

  /** The syntax of UTF-8, section 4 of RFC 3629: UTF8-octets are any number of UTF8-chars. */
  ghost predicate WellFormedUtf8(s: seq<Byte>)
    decreases |s|
  {
    s == [] || exists n :: 1 <= n <= |s| && IsUtf8Char(s[..n]) && WellFormedUtf8(s[n..])
  }

  lemma {:induction false} ErrorFreeIsSyntax(s: seq<Byte>)
    ensures !Closed(Main(s, false), true).error <==> WellFormedUtf8(s)
    decreases |s|
  {
    if s != [] {
      var f := FrontOf(s);
      forall n | 1 <= n <= |s| && IsUtf8Char(s[..n])
        ensures f.Character? && f.length == n
      {
        FrontIsSyntax(s, n);
      }
      if !f.Truncated? {
        MainStep(s);
        ErrorFreeIsSyntax(s[f.length..]);
        if f.Character? {
          FrontIsSyntax(s, f.length);
        }
      }
    }
  }

  lemma EncodeOfCharacter(c: int, rest: seq<int>)
    requires IsScalar(c) && AreUnits(rest)
    ensures AreUnits(Units(c) + rest) && Encode(Units(c) + rest) == Octets(c) + Encode(rest)
  {
    hide Octets, NextCodePoint, Units;
    CodePointOfUnits(c, rest);
    assert (Units(c) + rest)[|Units(c)|..] == rest;
  }

  /** Encoding gives back the bytes that the main loop decoded. */
  predicate EncodesBack(m: Result, s: seq<Byte>) {
    m.held == [] && AreUnits(m.units) && Encode(m.units) == s
  }

  lemma EncodesBackStep(s: seq<Byte>, n: nat)
    requires 1 <= n <= |s| && IsUtf8Char(s[..n]) && EncodesBack(Main(s[n..], false), s[n..])
    ensures EncodesBack(Main(s, false), s)
  {
    hide Octets, FrontOf, Main, Units, IsUtf8Char, Encode, AreUnits;
    FrontIsSyntax(s, n);
    MainStep(s);
    var c, rest := FrontOf(s).c, Main(s[n..], false);
    EncodeOfCharacter(c, rest.units);
    assert Main(s, false) == Result(Units(c) + rest.units, [], rest.error);
    assert s[..n] + s[n..] == s;
  }

  lemma {:induction false} EncodeOfMain(s: seq<Byte>)
    requires WellFormedUtf8(s)
    ensures EncodesBack(Main(s, false), s)
    decreases |s|
  {
    hide IsUtf8Char, Main, FrontOf;
    if s != [] {
      var n :| 1 <= n <= |s| && IsUtf8Char(s[..n]) && WellFormedUtf8(s[n..]);
      EncodeOfMain(s[n..]);
      EncodesBackStep(s, n);
    } else {
      MainOfNothing(false);
    }
  }

  /** A fresh flushed decode sees no error if and only if the bytes are UTF-8, and then encoding its result gives them
      back. */
  lemma DecodeAcceptsExactlyUtf8(s: seq<Byte>)
    ensures !Decode([], s, true, false).error <==> WellFormedUtf8(s)
    ensures WellFormedUtf8(s) ==>
      AreUnits(Decode([], s, true, false).units) && Encode(Decode([], s, true, false).units) == s
  {
    DecodeIsWide([], s, true, false);
    WideOfFresh(s, true);
    ErrorFreeIsSyntax(s);
    if WellFormedUtf8(s) {
      EncodeOfMain(s);
    }
  }

  lemma CharacterHasNoLeftover(s: seq<Byte>, n: nat, i: nat)
    requires i < n <= |s| && i + 2 < |s| && IsUtf8Char(s[..n])
    ensures !LeftoverAt(s, i)
  {
    assert s[..n][i] == s[i];
    if i + 1 < n {
      assert s[..n][i + 1] == s[i + 1];
    }
  }

  lemma {:induction false} WellFormedHasNoLeftover(s: seq<Byte>, i: nat)
    requires WellFormedUtf8(s) && i + 2 < |s|
    ensures !LeftoverAt(s, i)
    decreases |s|
  {
    hide IsUtf8Char;
    var n :| 1 <= n <= |s| && IsUtf8Char(s[..n]) && WellFormedUtf8(s[n..]);
    if i >= n {
      WellFormedHasNoLeftover(s[n..], i - n);
    } else {
      CharacterHasNoLeftover(s, n, i);
    }
  }

  /** Well-formed UTF-8 can be cut anywhere, also inside a character, without a difference and without an error. */
  lemma WellFormedCanBeCut(chunks: seq<seq<Byte>>)
    requires chunks != [] && WellFormedUtf8(Concat(chunks))
    ensures Run([], chunks) == Decode([], Concat(chunks), true, false)
    ensures Run([], chunks).held == [] && !Run([], chunks).error
    ensures AreUnits(Run([], chunks).units) && Encode(Run([], chunks).units) == Concat(chunks)
  {
    forall i | 0 <= i && i + 3 < |Concat(chunks)|
      ensures !HarmfulAt(Concat(chunks), i)
    {
      WellFormedHasNoLeftover(Concat(chunks), i);
    }
    CutsChangeNothing(chunks);
    DecodeAcceptsExactlyUtf8(Concat(chunks));
  }
}
