/** What percent-escapes in a string stand for. Strings are UTF-16 code units. */
module PercentEncoding {
  import opened Utf8
  import opened Utf8Codec
  import opened Utf8Streams
  import opened Utf8RoundTrip

  const PERCENT := 0x25

  predicate IsHexDigit(u: int) {
    0x30 <= u <= 0x39 || 0x41 <= u <= 0x46 || 0x61 <= u <= 0x66
  }

  function HexValue(u: int): (value: int)
    requires IsHexDigit(u)
    ensures 0 <= value < 16
  {
    if u < 0x41 then u - 0x30 else if u < 0x61 then u - 0x41 + 10 else u - 0x61 + 10
  }

  /** A percent sign and two hexadecimal digits begin the string. */
  predicate IsEscape(s: seq<int>) {
    |s| >= 3 && s[0] == PERCENT && IsHexDigit(s[1]) && IsHexDigit(s[2])
  }

  function EscapedByte(s: seq<int>): Byte
    requires IsEscape(s)
  {
    0x10 * HexValue(s[1]) + HexValue(s[2])
  }

  /** A character that may be the trailing byte of a sequence in some encoding. */
  predicate IsTrailing(u: int) {
    0x40 <= u <= 0x7F
  }

  /** The hexadecimal digit of a value. */
  function Digit(d: nat, upper: bool): int
    requires d < 16
  {
    (if upper then "0123456789ABCDEF"[d] else "0123456789abcdef"[d]) as int
  }

  /** The digits, and no others, are read as the values that they are written for. */
  lemma DigitsAreRead(u: int, d: nat)
    requires d < 16
    ensures IsHexDigit(u) && HexValue(u) == d <==> u == Digit(d, true) || u == Digit(d, false)
  {
  }

  /** How far a run of escapes goes from the start of the string, with up to two trailing characters after an escape. */
  function RunLength(s: seq<int>, trailing: nat): (n: nat)
    ensures n <= |s|
  {
    if s == [] then 0
    else if s[0] == PERCENT then
      if IsEscape(s) then 3 + RunLength(s[3..], 0) else 0
    else if IsTrailing(s[0]) && trailing < 2 then 1 + RunLength(s[1..], trailing + 1)
    else 0
  }

  /** Escapes and trailing characters only. */
  predicate IsRun(run: seq<int>) {
    run == [] || if run[0] == PERCENT then IsEscape(run) && IsRun(run[3..]) else IsTrailing(run[0]) && IsRun(run[1..])
  }

  /** The bytes of a run: never more than it has characters. */
  function RunBytes(run: seq<int>): (bytes: seq<Byte>)
    requires IsRun(run)
    ensures |bytes| <= |run| && (bytes == [] <==> run == [])
  {
    if run == [] then []
    else if run[0] == PERCENT then [EscapedByte(run)] + RunBytes(run[3..])
    else [run[0]] + RunBytes(run[1..])
  }

  lemma {:induction false} RunIsRun(s: seq<int>, trailing: nat)
    ensures IsRun(s[..RunLength(s, trailing)])
    decreases |s|
  {
    var n := RunLength(s, trailing);
    if n > 0 {
      if s[0] == PERCENT {
        RunIsRun(s[3..], 0);
        assert s[..n][3..] == s[3..][..n - 3];
      } else {
        RunIsRun(s[1..], trailing + 1);
        assert s[..n][1..] == s[1..][..n - 1];
      }
    }
  }

  /** A run behind so many trailing characters: escapes, and no more than two other characters in a row. */
  predicate IsRunAfter(run: seq<int>, trailing: nat) {
    run == [] ||
    if run[0] == 0x25 then IsEscape(run) && IsRunAfter(run[3..], 0)
    else trailing < 2 && 0x40 <= run[0] <= 0x7F && IsRunAfter(run[1..], trailing + 1)
  }

  /** The trailing characters at the end of a run. */
  function TrailingAfter(run: seq<int>, trailing: nat): nat
    requires IsRunAfter(run, trailing)
  {
    if run == [] then trailing
    else if run[0] == 0x25 then TrailingAfter(run[3..], 0)
    else TrailingAfter(run[1..], trailing + 1)
  }

  /**
   * The run found is one, and cannot go on: it ends at the end, at a percent sign without two digits, at a character
   * outside 0x40 to 0x7F, or after two characters that are not escaped.
   */
  lemma {:induction false} RunIsLongest(s: seq<int>, trailing: nat)
    requires trailing <= 2
    ensures var n := RunLength(s, trailing);
      && IsRunAfter(s[..n], trailing)
      && (n < |s| ==>
        if s[n] == 0x25 then !IsEscape(s[n..]) else !(0x40 <= s[n] <= 0x7F) || TrailingAfter(s[..n], trailing) == 2)
    decreases |s|
  {
    var n := RunLength(s, trailing);
    assert s[0..] == s;
    if n > 0 {
      var step := if s[0] == 0x25 then 3 else 1;
      RunIsLongest(s[step..], if s[0] == 0x25 then 0 else trailing + 1);
      assert s[..n][step..] == s[step..][..n - step] && s[n..] == s[step..][n - step..];
      assert s[0] == 0x25 ==> IsEscape(s[..n]);
    }
  }

  /** The run at the start of a string, if there is one: it has to begin with an escape. */
  function FirstRun(s: seq<int>): (n: nat)
    ensures n <= |s| && IsRun(s[..n])
  {
    RunIsRun(s, 0);
    if s != [] && s[0] == PERCENT then RunLength(s, 0) else 0
  }

  /** A fresh decoder's result on all of the bytes. */
  function DecodedUnits(bytes: seq<Byte>): seq<int> {
    Decode([], bytes, true, false).units
  }

  /** What a run is replaced by. A run that decodes to nothing would stay as it is. */
  function Replacement(run: seq<int>): seq<int>
    requires IsRun(run)
  {
    var decoded := DecodedUnits(RunBytes(run));
    if decoded == [] then run else decoded
  }

  /** The string with every run replaced. */
  function Unescaped(s: seq<int>): seq<int>
    decreases |s|
  {
    if s == [] then []
    else
      var n := FirstRun(s);
      if n == 0 then [s[0]] + Unescaped(s[1..]) else Replacement(s[..n]) + Unescaped(s[n..])
  }

  /** Decoding some bytes always gives something, so no run stays as it is. */
  lemma ReplacementIsDecoded(run: seq<int>)
    requires IsRun(run) && run != []
    ensures DecodedUnits(RunBytes(run)) != [] && Replacement(run) == DecodedUnits(RunBytes(run))
  {
    hide Main, FrontOf, Decode;
    FreshDecode(RunBytes(run));
    SomethingIsDecoded(RunBytes(run));
  }

  lemma SomethingIsDecoded(bytes: seq<Byte>)
    requires bytes != []
    ensures Closed(Main(bytes, false), true).units != []
  {
    hide FrontOf, Units;
    if !FrontOf(bytes).Truncated? {
      MainStep(bytes);
    }
  }

  // ----- Percent-encoding, section 2.1 of RFC 3986

  /** How a byte is written: as it is, or escaped with two digits, each of either case. */
  datatype Choice = AsIs | Escaped(upperHigh: bool, upperLow: bool)

  /** Percent signs and bytes that are not ASCII have to be escaped; any other byte may be. */
  predicate MayEncode(bytes: seq<Byte>, choices: seq<Choice>) {
    && |choices| == |bytes|
    && forall i :: 0 <= i < |bytes| ==> choices[i] == AsIs ==> bytes[i] < 0x80 && bytes[i] != 0x25
  }

  function PercentEncode(bytes: seq<Byte>, choices: seq<Choice>): seq<int>
    requires MayEncode(bytes, choices)
  {
    if bytes == [] then []
    else
      (match choices[0]
       case AsIs => [bytes[0]]
       case Escaped(high, low) => [0x25, Digit(bytes[0] / 16, high), Digit(bytes[0] % 16, low)])
      + PercentEncode(bytes[1..], choices[1..])
  }

  lemma {:induction false} EncodingStandsFor(bytes: seq<Byte>, choices: seq<Choice>)
    requires MayEncode(bytes, choices)
    ensures IsEncodingOf(PercentEncode(bytes, choices), bytes)
    decreases |bytes|
  {
    if bytes != [] {
      EncodingStandsFor(bytes[1..], choices[1..]);
      var s, rest := PercentEncode(bytes, choices), PercentEncode(bytes[1..], choices[1..]);
      match choices[0]
      case AsIs =>
        assert s[1..] == rest;
      case Escaped(high, low) =>
        assert s[3..] == rest;
        DigitsAreRead(s[1], bytes[0] / 16);
        DigitsAreRead(s[2], bytes[0] % 16);
    }
  }

  /** `s` stands for `bytes`, as the decoder reads it. */
  predicate IsEncodingOf(s: seq<int>, bytes: seq<Byte>) {
    if bytes == [] then s == []
    else if IsEscape(s) then EscapedByte(s) == bytes[0] && IsEncodingOf(s[3..], bytes[1..])
    else s != [] && s[0] == bytes[0] && IsAscii(bytes[0]) && bytes[0] != PERCENT && IsEncodingOf(s[1..], bytes[1..])
  }

  /** The first run takes some bytes, and ends at the end or before an ASCII byte that stands for itself. */
  ghost predicate RunTakes(s: seq<int>, bytes: seq<Byte>, trailing: nat, k: nat) {
    var n := RunLength(s, trailing);
    && k <= |bytes| && IsRun(s[..n]) && RunBytes(s[..n]) == bytes[..k]
    && IsEncodingOf(s[n..], bytes[k..])
    && (k < |bytes| ==> IsAscii(bytes[k]))
  }

  lemma RunTakesNone(s: seq<int>, bytes: seq<Byte>, trailing: nat)
    requires IsEncodingOf(s, bytes) && RunLength(s, trailing) == 0
    ensures RunTakes(s, bytes, trailing, 0)
  {
    assert s[0..] == s && bytes[0..] == bytes;
  }

  lemma RunTakesEscape(s: seq<int>, bytes: seq<Byte>, trailing: nat, k: nat)
    requires IsEncodingOf(s, bytes) && bytes != [] && IsEscape(s) && RunTakes(s[3..], bytes[1..], 0, k)
    ensures RunTakes(s, bytes, trailing, k + 1)
  {
    var n := RunLength(s[3..], 0);
    var run := s[..n + 3];
    assert run[3..] == s[3..][..n] && IsEscape(run) && EscapedByte(run) == bytes[0];
    assert s[n + 3..] == s[3..][n..] && bytes[k + 1..] == bytes[1..][k..];
    assert bytes[..k + 1] == [bytes[0]] + bytes[1..][..k];
  }

  lemma RunTakesTrailing(s: seq<int>, bytes: seq<Byte>, trailing: nat, k: nat)
    requires IsEncodingOf(s, bytes) && bytes != [] && !IsEscape(s) && IsTrailing(s[0]) && trailing < 2
    requires RunTakes(s[1..], bytes[1..], trailing + 1, k)
    ensures RunTakes(s, bytes, trailing, k + 1)
  {
    var n := RunLength(s[1..], trailing + 1);
    var run := s[..n + 1];
    assert run[1..] == s[1..][..n] && run[0] == s[0];
    assert s[n + 1..] == s[1..][n..] && bytes[k + 1..] == bytes[1..][k..];
    assert bytes[..k + 1] == [bytes[0]] + bytes[1..][..k];
  }

  lemma {:induction false} RunOfEncoding(s: seq<int>, bytes: seq<Byte>, trailing: nat) returns (k: nat)
    requires IsEncodingOf(s, bytes)
    ensures RunTakes(s, bytes, trailing, k)
    decreases |s|
  {
    hide RunTakes, RunBytes, IsRun;
    if RunLength(s, trailing) == 0 {
      RunTakesNone(s, bytes, trailing);
      return 0;
    }
    if s[0] == PERCENT {
      k := RunOfEncoding(s[3..], bytes[1..], 0);
      RunTakesEscape(s, bytes, trailing, k);
    } else {
      k := RunOfEncoding(s[1..], bytes[1..], trailing + 1);
      RunTakesTrailing(s, bytes, trailing, k);
    }
    k := k + 1;
  }

  /** Well-formed bytes: the main loop holds nothing back and sees no error. */
  predicate IsClean(bytes: seq<Byte>) {
    Main(bytes, false).held == [] && !Main(bytes, false).error
  }

  /** A sequence cut short and then followed by an ASCII byte is not well-formed. */
  lemma CutShortIsNotClean(held: seq<Byte>, rest: seq<Byte>)
    requires held != [] && FrontOf(held).Truncated? && rest != [] && IsAscii(rest[0])
    ensures !IsClean(held + rest)
  {
    hide Units;
    var s := held + rest;
    assert s[0] == held[0] && s[|held|] == rest[0];
    assert !FrontOf(s).Character?;
    if FrontOf(s).Bad? {
      MainStep(s);
    }
  }

  /** Well-formed bytes may be cut before an ASCII byte: both parts are well-formed and decode to the parts of the
      result. */
  lemma CutBeforeAscii(a: seq<Byte>, b: seq<Byte>)
    requires IsClean(a + b) && (b == [] || IsAscii(b[0]))
    ensures IsClean(a) && IsClean(b)
    ensures Main(a + b, false).units == Main(a, false).units + Main(b, false).units
  {
    hide Main, FrontOf;
    MainOfNothing(false);
    if b == [] {
      assert a + b == a;
    } else {
      MainSplits(a, b);
      var m := Main(a, false);
      if m.held != [] {
        CutShortIsNotClean(m.held, b);
      }
      assert [] + b == b;
    }
  }

  lemma CleanDecode(bytes: seq<Byte>)
    requires IsClean(bytes)
    ensures DecodedUnits(bytes) == Main(bytes, false).units
  {
    hide Main, Decode;
    FreshDecode(bytes);
  }

  lemma AsciiFirst(bytes: seq<Byte>)
    requires bytes != [] && IsAscii(bytes[0]) && IsClean(bytes)
    ensures IsClean(bytes[1..]) && Main(bytes, false).units == [bytes[0] as int] + Main(bytes[1..], false).units
  {
    MainStep(bytes);
  }

  /** One run of an encoded string: its bytes decode on their own. */
  lemma RunIsUndone(s: seq<int>, bytes: seq<Byte>, k: nat)
    requires IsClean(bytes) && s != [] && FirstRun(s) > 0 && RunTakes(s, bytes, 0, k)
    ensures IsClean(bytes[k..]) &&
      Main(bytes, false).units == Replacement(s[..FirstRun(s)]) + Main(bytes[k..], false).units
  {
    hide Main, Decode, IsClean, RunLength, IsEncodingOf;
    assert bytes[..k] + bytes[k..] == bytes;
    CutBeforeAscii(bytes[..k], bytes[k..]);
    ReplacementIsDecoded(s[..FirstRun(s)]);
    CleanDecode(bytes[..k]);
  }

  lemma {:induction false} EscapesAreUndone(s: seq<int>, bytes: seq<Byte>)
    requires IsEncodingOf(s, bytes) && IsClean(bytes)
    ensures Unescaped(s) == Main(bytes, false).units
    decreases |s|
  {
    hide Main, Decode, IsClean, Replacement, RunTakes, IsRun, RunBytes;
    if s == [] {
      MainOfNothing(false);
    } else if FirstRun(s) == 0 {
      AsciiFirst(bytes);
      EscapesAreUndone(s[1..], bytes[1..]);
    } else {
      var k := RunOfEncoding(s, bytes, 0);
      RunIsUndone(s, bytes, k);
      TakesRest(s, bytes, k);
      EscapesAreUndone(s[FirstRun(s)..], bytes[k..]);
    }
  }

  lemma TakesRest(s: seq<int>, bytes: seq<Byte>, k: nat)
    requires RunTakes(s, bytes, 0, k)
    ensures k <= |bytes| && IsEncodingOf(s[RunLength(s, 0)..], bytes[k..])
  {
  }

  /** Whatever percent-encoding of a string's UTF-8 form is unescaped, the string comes back. */
  lemma UnescapingUndoesEncoding(units: seq<int>, choices: seq<Choice>)
    requires AreUnits(units) && WellFormedUtf16(units) && MayEncode(Encode(units), choices)
    ensures Unescaped(PercentEncode(Encode(units), choices)) == units
  {
    hide Main, Decode, Encode, IsEncodingOf, Unescaped, PercentEncode;
    MainOfEncode(units);
    EncodingStandsFor(Encode(units), choices);
    EscapesAreUndone(PercentEncode(Encode(units), choices), Encode(units));
  }

  /** The same in terms of bytes: any percent-encoding of well-formed UTF-8 unescapes to what the bytes decode to. */
  lemma UnescapingDecodesUtf8(bytes: seq<Byte>, choices: seq<Choice>)
    requires WellFormedUtf8(bytes) && MayEncode(bytes, choices)
    ensures Unescaped(PercentEncode(bytes, choices)) == DecodedUnits(bytes)
  {
    hide Main, Decode, IsEncodingOf, Unescaped, WellFormedUtf8, PercentEncode;
    ErrorFreeIsSyntax(bytes);
    CleanDecode(bytes);
    EncodingStandsFor(bytes, choices);
    EscapesAreUndone(PercentEncode(bytes, choices), bytes);
  }
}

module EscapeSequences {
  import opened Utf8
  import opened Utf8Codec
  import opened PercentEncoding
  import opened TextCodecUTF8

  /** The first percent sign at or after a position, or the length. */
  method FindInString(s: seq<int>, start: nat) returns (i: nat)
    requires start <= |s|
    ensures start <= i <= |s| && PERCENT !in s[start..i] && (i < |s| ==> s[i] == PERCENT)
  {
    i := start;
    while i < |s| && s[i] != PERCENT
      invariant start <= i <= |s| && PERCENT !in s[start..i]
    {
      assert s[start..i + 1] == s[start..i] + [s[i]];
      i := i + 1;
    }
  }

  method FindEndOfRun(s: seq<int>, start: nat) returns (runEnd: nat)
    requires start <= |s|
    ensures runEnd == start + RunLength(s[start..], 0)
  {
    runEnd := start;
    var trailing := 0;
    while runEnd < |s|
      invariant start <= runEnd <= |s|
      invariant start + RunLength(s[start..], 0) == runEnd + RunLength(s[runEnd..], trailing)
    {
      if s[runEnd] == PERCENT {
        if |s| - runEnd >= 3 && IsHexDigit(s[runEnd + 1]) && IsHexDigit(s[runEnd + 2]) {
          assert s[runEnd..][3..] == s[runEnd + 3..];
          runEnd := runEnd + 3;
          trailing := 0;
        } else {
          return;
        }
      } else if IsTrailing(s[runEnd]) && trailing < 2 {
        assert s[runEnd..][1..] == s[runEnd + 1..];
        runEnd := runEnd + 1;
        trailing := trailing + 1;
      } else {
        return;
      }
    }
  }

  lemma RunStep(run: seq<int>, i: nat)
    requires i < |run| && IsRun(run[i..])
    ensures run[i] == PERCENT ==>
      && i + 3 <= |run| && IsHexDigit(run[i + 1]) && IsHexDigit(run[i + 2]) && IsRun(run[i + 3..])
      && RunBytes(run[i..]) == [0x10 * HexValue(run[i + 1]) + HexValue(run[i + 2])] + RunBytes(run[i + 3..])
    ensures run[i] != PERCENT ==>
      IsTrailing(run[i]) && IsRun(run[i + 1..]) && RunBytes(run[i..]) == [run[i]] + RunBytes(run[i + 1..])
  {
    if run[i] == PERCENT {
      assert run[i..][3..] == run[i + 3..];
    } else {
      assert run[i..][1..] == run[i + 1..];
    }
  }

  lemma NoMoreBytes(run: seq<int>)
    ensures IsRun(run[|run|..]) && RunBytes(run[|run|..]) == []
  {
  }

  /** Fills a buffer as long as the run, which is always long enough. */
  method DecodeRunBytes(run: seq<int>) returns (bytes: seq<Byte>)
    requires IsRun(run)
    ensures bytes == RunBytes(run)
  {
    hide IsRun, RunBytes;
    var buffer := new Byte[|run|](i => 0);
    assert run[0..] == run;
    var p, i := 0, 0;
    while i < |run|
      invariant 0 <= p <= i <= |run| && IsRun(run[i..])
      invariant buffer[..p] + RunBytes(run[i..]) == RunBytes(run)
    {
      RunStep(run, i);
      ghost var before := buffer[..p];
      if run[i] == PERCENT {
        buffer[p] := 0x10 * HexValue(run[i + 1]) + HexValue(run[i + 2]);
        i := i + 3;
      } else {
        buffer[p] := run[i];
        i := i + 1;
      }
      assert buffer[..p + 1] == before + [buffer[p]];
      p := p + 1;
    }
    NoMoreBytes(run);
    return buffer[..p];
  }

  method DecodeRun(run: seq<int>, layout: Layout) returns (decoded: seq<int>)
    requires IsRun(run)
    ensures decoded == DecodedUnits(RunBytes(run))
  {
    hide Decode, RunBytes;
    var bytes := DecodeRunBytes(run);
    var codec := new TextCodecUTF8();
    var sawError;
    decoded, sawError := codec.DecodeCall(bytes, true, false, layout);
  }

  lemma {:induction false} RawStretch(s: seq<int>, i: nat, j: nat)
    requires i <= j <= |s| && PERCENT !in s[i..j]
    ensures Unescaped(s[i..]) == s[i..j] + Unescaped(s[j..])
    decreases j - i
  {
    hide Replacement, RunLength;
    if i < j {
      assert s[i..j][0] == s[i] && s[i..][0] == s[i];
      assert s[i..][1..] == s[i + 1..];
      assert s[i..j] == [s[i]] + s[i + 1..j];
      RawStretch(s, i + 1, j);
    }
  }

  lemma NotARun(s: seq<int>, i: nat)
    requires i < |s| && FirstRun(s[i..]) == 0
    ensures Unescaped(s[i..]) == s[i..i + 1] + Unescaped(s[i + 1..])
  {
    assert s[i..][1..] == s[i + 1..];
  }

  lemma ARun(s: seq<int>, i: nat, n: nat)
    requires i < |s| && n == FirstRun(s[i..]) > 0
    ensures IsRun(s[i..i + n]) && Unescaped(s[i..]) == Replacement(s[i..i + n]) + Unescaped(s[i + n..])
  {
    hide Replacement, RunLength, IsRun;
    assert s[i..][n..] == s[i + n..] && s[i..][..n] == s[i..i + n];
  }

  /** `result` and the text not yet looked through make up the whole result. */
  ghost predicate Progress(s: seq<int>, result: seq<int>, decoded: nat, search: nat) {
    decoded <= search <= |s| && Unescaped(s) == result + s[decoded..search] + Unescaped(s[search..])
  }

  lemma ProgressTo(s: seq<int>, result: seq<int>, decoded: nat, search: nat, next: nat)
    requires Progress(s, result, decoded, search) && search <= next <= |s|
    requires Unescaped(s[search..]) == s[search..next] + Unescaped(s[next..])
    ensures Progress(s, result, decoded, next)
  {
    hide Unescaped;
    assert s[decoded..next] == s[decoded..search] + s[search..next];
  }

  lemma ProgressPast(s: seq<int>, result: seq<int>, decoded: nat, search: nat, replacement: seq<int>, next: nat)
    requires Progress(s, result, decoded, search) && search <= next <= |s|
    requires Unescaped(s[search..]) == replacement + Unescaped(s[next..])
    ensures Progress(s, result + s[decoded..search] + replacement, next, next)
  {
    hide Unescaped;
    assert s[next..next] == [];
  }

  lemma ProgressDone(s: seq<int>, result: seq<int>, decoded: nat)
    requires Progress(s, result, decoded, |s|)
    ensures result + s[decoded..] == Unescaped(s)
  {
    hide RunLength, Replacement, IsRun;
    assert s[|s|..] == [] && s[decoded..|s|] == s[decoded..];
  }

  /** Replaces every run of escapes. The search position goes up in every turn. */
  method DecodeEscapeSequences(s: seq<int>, layout: Layout) returns (result: seq<int>)
    ensures result == Unescaped(s)
  {
    hide Unescaped, Progress, Decode, RunLength;
    result := [];
    var decodedPosition: nat, searchPosition: nat := 0, 0;
    ProgressFromStart(s);
    var encodedRunPosition := FindInString(s, searchPosition);
    while encodedRunPosition < |s|
      invariant decodedPosition <= searchPosition <= encodedRunPosition <= |s|
      invariant Progress(s, result, decodedPosition, searchPosition)
      invariant PERCENT !in s[searchPosition..encodedRunPosition]
      invariant encodedRunPosition < |s| ==> s[encodedRunPosition] == PERCENT
      decreases |s| - searchPosition
    {
      RawStretch(s, searchPosition, encodedRunPosition);
      ProgressTo(s, result, decodedPosition, searchPosition, encodedRunPosition);
      result, decodedPosition, searchPosition := DecodeAt(s, result, decodedPosition, encodedRunPosition, layout);
      encodedRunPosition := FindInString(s, searchPosition);
    }
    RawStretch(s, searchPosition, |s|);
    ProgressTo(s, result, decodedPosition, searchPosition, |s|);
    ProgressDone(s, result, decodedPosition);
    result := result + s[decodedPosition..];
  }

  lemma ProgressFromStart(s: seq<int>)
    ensures Progress(s, [], 0, 0)
  {
    hide Unescaped;
    assert s[0..] == s;
  }

  /** One turn, at a percent sign. */
  method DecodeAt(s: seq<int>, before: seq<int>, decoded: nat, position: nat, layout: Layout)
    returns (result: seq<int>, decodedPosition: nat, searchPosition: nat)
    requires position < |s| && s[position] == PERCENT && Progress(s, before, decoded, position)
    ensures position < searchPosition && Progress(s, result, decodedPosition, searchPosition)
    ensures decodedPosition <= searchPosition <= |s|
  {
    hide Unescaped, Decode, RunLength;
    result, decodedPosition := before, decoded;
    var encodedRunEnd := FindEndOfRun(s, position);
    searchPosition := encodedRunEnd;
    if encodedRunEnd == position {
      NotARun(s, position);
      ProgressTo(s, before, decoded, position, position + 1);
      searchPosition := searchPosition + 1;
      return;
    }
    ARun(s, position, encodedRunEnd - position);
    var run := DecodeRun(s[position..encodedRunEnd], layout);
    if run == [] {
      ProgressTo(s, before, decoded, position, encodedRunEnd);
      return;
    }
    ProgressPast(s, before, decoded, position, run, encodedRunEnd);
    result := result + s[decodedPosition..position] + run;
    decodedPosition := encodedRunEnd;
  }
}
