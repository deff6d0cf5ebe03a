/** What the streaming decoder promises over whole runs, whatever the bytes and however they are cut into calls. */
module Utf8Streams {
  import opened Utf8
  import opened Utf8Codec

  // ----- The state between calls, and the bounds of the buffers

  lemma {:induction false} PartialHolds(held: seq<Byte>, source: seq<Byte>, flush: bool, stop: bool)
    requires |held| <= 4
    ensures CanBeHeld(Partial(held, source, flush, stop).held)
    decreases |held| + |source|
  {
    if held != [] {
      if FrontOf(held).Truncated? {
        var missing := NonAsciiSequenceLength(held[0]) - |held|;
        if missing <= |source| {
          var filled := held + source[..missing];
          FilledUp(held, filled);
          ResumeHolds(filled, source[missing..], flush, stop);
        } else {
          assert (held + source)[0] == held[0];
        }
      } else {
        ResumeHolds(held, source, flush, stop);
      }
    }
  }

  lemma {:induction false} ResumeHolds(held: seq<Byte>, source: seq<Byte>, flush: bool, stop: bool)
    requires held != [] && |held| <= 4 && !FrontOf(held).Truncated?
    ensures CanBeHeld(Resume(held, source, flush, stop).held)
    decreases |held| + |source|, 0
  {
    match FrontOf(held)
    case Character(c, length) => PartialHolds(AfterCharacter(held, length), source, flush, stop);
    case Bad(length) =>
      if !stop {
        PartialHolds(held[length..], source, flush, stop);
      }
  }

  /** Every call leaves the codec in a state from which the next call can start. */
  lemma {:induction false} WideHolds(held: seq<Byte>, source: seq<Byte>, flush: bool, stop: bool)
    requires CanBeHeld(held)
    ensures CanBeHeld(Wide(held, source, flush, stop).held)
    decreases |held| + |source|, if held == [] then 1 else 0
  {
    if held != [] {
      PartialHolds(held, source, flush, stop);
      PartialShrinks(held, source, flush, stop);
      var p := Partial(held, source, flush, stop);
      if p.held == [] {
        WideHolds([], p.source, flush, stop);
      }
    } else {
      var m := Main(source, stop);
      if flush && m.held != [] {
        WideHolds(m.held, [], flush, stop);
      }
    }
  }

  /** A flushed call that does not stop at errors holds nothing. */
  lemma {:induction false} FlushedHoldsNothing(held: seq<Byte>, source: seq<Byte>)
    ensures Wide(held, source, true, false).held == []
    decreases |held| + |source|, if held == [] then 1 else 0
  {
    if held != [] {
      PartialFlushes(held, source);
      PartialShrinks(held, source, true, false);
      FlushedHoldsNothing([], Partial(held, source, true, false).source);
    } else {
      var m := Main(source, false);
      if m.held != [] {
        FlushedHoldsNothing(m.held, []);
      }
    }
  }

  lemma {:induction false} PartialFlushes(held: seq<Byte>, source: seq<Byte>)
    ensures Partial(held, source, true, false).held == []
    decreases |held| + |source|, 1
  {
    if held != [] {
      if FrontOf(held).Truncated? {
        var missing := NonAsciiSequenceLength(held[0]) - |held|;
        if missing <= |source| {
          ResumeFlushes(held + source[..missing], source[missing..]);
        }
      } else {
        ResumeFlushes(held, source);
      }
    }
  }

  lemma {:induction false} ResumeFlushes(held: seq<Byte>, source: seq<Byte>)
    requires held != [] && !FrontOf(held).Truncated?
    ensures Resume(held, source, true, false).held == []
    decreases |held| + |source|, 0
  {
    match FrontOf(held)
    case Character(c, length) => PartialFlushes(AfterCharacter(held, length), source);
    case Bad(length) => PartialFlushes(held[length..], source);
  }

  /** A call never gives more code units than the bytes it started from, of which the ones it holds gave none. */
  lemma {:induction false} WideFits(held: seq<Byte>, source: seq<Byte>, flush: bool, stop: bool)
    ensures var r := Wide(held, source, flush, stop); |r.units| + |r.held| <= |held| + |source|
    decreases |held| + |source|, if held == [] then 1 else 0
  {
    if held != [] {
      PartialShrinks(held, source, flush, stop);
      var p := Partial(held, source, flush, stop);
      if p.held == [] {
        WideFits([], p.source, flush, stop);
      }
    } else {
      var m := Main(source, stop);
      if flush && m.held != [] {
        WideFits(m.held, [], flush, stop);
      }
    }
  }

  // ----- The code units are well-formed UTF-16

  /** No unpaired surrogate. */
  predicate WellFormedUtf16(units: seq<int>) {
    units == [] ||
    (!IsLead(units[0]) && !IsTrailUnit(units[0]) && WellFormedUtf16(units[1..])) ||
    (|units| >= 2 && IsLead(units[0]) && IsTrailUnit(units[1]) && WellFormedUtf16(units[2..]))
  }

  lemma {:induction false} Utf16Concat(a: seq<int>, b: seq<int>)
    requires WellFormedUtf16(a) && WellFormedUtf16(b)
    ensures WellFormedUtf16(a + b)
    decreases |a|
  {
    if a == [] {
      assert a + b == b;
    } else if IsLead(a[0]) {
      assert (a + b)[2..] == a[2..] + b;
      Utf16Concat(a[2..], b);
    } else {
      assert (a + b)[1..] == a[1..] + b;
      Utf16Concat(a[1..], b);
    }
  }

  lemma UnitsAreUtf16(c: int)
    requires IsScalar(c)
    ensures WellFormedUtf16(Units(c))
  {
    if c > 0xFFFF {
      assert Units(c)[2..] == [];
    } else {
      assert Units(c)[1..] == [];
    }
  }

  lemma {:induction false} MainIsUtf16(source: seq<Byte>, stop: bool)
    ensures WellFormedUtf16(Main(source, stop).units)
    decreases |source|
  {
    if source != [] {
      match FrontOf(source)
      case Truncated =>
      case Character(c, length) =>
        UnitsAreUtf16(c);
        MainIsUtf16(source[length..], stop);
        Utf16Concat(Units(c), Main(source[length..], stop).units);
      case Bad(length) =>
        if !stop {
          UnitsAreUtf16(REPLACEMENT_CHARACTER);
          MainIsUtf16(source[length..], stop);
          Utf16Concat([REPLACEMENT_CHARACTER], Main(source[length..], stop).units);
        }
    }
  }

  lemma {:induction false} PartialIsUtf16(held: seq<Byte>, source: seq<Byte>, flush: bool, stop: bool)
    ensures WellFormedUtf16(Partial(held, source, flush, stop).units)
    decreases |held| + |source|, 1
  {
    UnitsAreUtf16(REPLACEMENT_CHARACTER);
    if held != [] {
      if FrontOf(held).Truncated? {
        var missing := NonAsciiSequenceLength(held[0]) - |held|;
        if missing <= |source| {
          ResumeIsUtf16(held + source[..missing], source[missing..], flush, stop);
        }
      } else {
        ResumeIsUtf16(held, source, flush, stop);
      }
    }
  }

  lemma {:induction false} ResumeIsUtf16(held: seq<Byte>, source: seq<Byte>, flush: bool, stop: bool)
    requires held != [] && !FrontOf(held).Truncated?
    ensures WellFormedUtf16(Resume(held, source, flush, stop).units)
    decreases |held| + |source|, 0
  {
    match FrontOf(held)
    case Character(c, length) =>
      UnitsAreUtf16(c);
      PartialIsUtf16(AfterCharacter(held, length), source, flush, stop);
      Utf16Concat(Units(c), Partial(AfterCharacter(held, length), source, flush, stop).units);
    case Bad(length) =>
      if !stop {
        UnitsAreUtf16(REPLACEMENT_CHARACTER);
        PartialIsUtf16(held[length..], source, flush, stop);
        Utf16Concat([REPLACEMENT_CHARACTER], Partial(held[length..], source, flush, stop).units);
      }
  }

  /** Whatever the bytes, a call gives well-formed UTF-16. */
  lemma {:induction false} WideIsUtf16(held: seq<Byte>, source: seq<Byte>, flush: bool, stop: bool)
    ensures WellFormedUtf16(Wide(held, source, flush, stop).units)
    decreases |held| + |source|, if held == [] then 1 else 0
  {
    if held != [] {
      PartialIsUtf16(held, source, flush, stop);
      PartialShrinks(held, source, flush, stop);
      var p := Partial(held, source, flush, stop);
      if p.held == [] {
        WideIsUtf16([], p.source, flush, stop);
        Utf16Concat(p.units, Wide([], p.source, flush, stop).units);
      }
    } else {
      MainIsUtf16(source, stop);
      var m := Main(source, stop);
      if flush && m.held != [] {
        WideIsUtf16(m.held, [], flush, stop);
        Utf16Concat(m.units, Wide(m.held, [], flush, stop).units);
      }
    }
  }

  // ----- A call on held bytes is the main loop on all the bytes

  /** The result of a call that ends with `m`: a flush turns a sequence cut short into one replacement character. */
  function Closed(m: Result, flush: bool): Result {
    if flush && m.held != [] then Result(m.units + [REPLACEMENT_CHARACTER], [], true) else m
  }

  /** The bytes that a call on held bytes in effect decodes: all of them, except that a byte left over in the buffer
      after a character is lost and the first byte of that character is seen again in its place. */
  function Patched(held: seq<Byte>, source: seq<Byte>): (s: seq<Byte>)
    ensures |s| == |held| + |source|
    ensures held != [] ==> s[0] == held[0]
    decreases |held| + |source|, 1
  {
    if held == [] then source
    else if FrontOf(held).Truncated? then
      var missing := NonAsciiSequenceLength(held[0]) - |held|;
      if missing > |source| then held + source
      else PatchedOn(held + source[..missing], source[missing..])
    else PatchedOn(held, source)
  }

  function PatchedOn(held: seq<Byte>, source: seq<Byte>): (s: seq<Byte>)
    requires held != [] && !FrontOf(held).Truncated?
    ensures |s| == |held| + |source| && s[0] == held[0]
    decreases |held| + |source|, 0
  {
    match FrontOf(held)
    case Character(c, length) => held[..length] + Patched(AfterCharacter(held, length), source)
    case Bad(length) => held[..length] + Patched(held[length..], source)
  }

  lemma CharacterIsLocal(s: seq<Byte>, t: seq<Byte>)
    requires s != [] && FrontOf(s).Character? && s[..FrontOf(s).length] <= t
    ensures FrontOf(t) == FrontOf(s)
  {
    var n := FrontOf(s).length;
    assert t[..n] == s[..n];
    FrontIsLocal(s, n);
    FrontIsLocal(t, n);
  }

  lemma BadIsLocal(s: seq<Byte>, t: seq<Byte>)
    requires s != [] && FrontOf(s).Bad? && |s| <= |t|
    requires forall i :: 0 <= i <= FrontOf(s).length && i < |s| ==> s[i] == t[i]
    ensures FrontOf(t) == FrontOf(s)
  {
  }

  lemma WideOfNothing(flush: bool)
    ensures Wide([], [], flush, false) == Result([], [], false)
  {
  }

  lemma WideOfTruncated(held: seq<Byte>)
    requires held != [] && FrontOf(held).Truncated?
    ensures Wide(held, [], true, false) == Result([REPLACEMENT_CHARACTER], [], true)
  {
    WideOfNothing(true);
    assert Partial(held, [], true, false) == Progress([REPLACEMENT_CHARACTER], [], [], true);
  }

  lemma WideOfFresh(source: seq<Byte>, flush: bool)
    ensures Wide([], source, flush, false) == Closed(Main(source, false), flush)
  {
    var m := Main(source, false);
    if flush && m.held != [] {
      WideOfTruncated(m.held);
    }
  }

  lemma WideAfter(held: seq<Byte>, source: seq<Byte>, flush: bool, held': seq<Byte>, source': seq<Byte>,
                  units: seq<int>, error: bool)
    requires held != []
    requires Partial(held, source, flush, false) == Partial(held', source', flush, false).After(units, error)
    ensures Wide(held, source, flush, false) == Wide(held', source', flush, false).After(units, error)
  {
    hide FrontOf, Main, Resume;
    PartialShrinks(held, source, flush, false);
    if held' != [] {
      PartialShrinks(held', source', flush, false);
    }
    var p := Partial(held', source', flush, false);
    if p.held == [] {
      assert units + (p.units + Wide([], p.source, flush, false).units) ==
        (units + p.units) + Wide([], p.source, flush, false).units;
    }
  }

  lemma ClosedAfter(m: Result, flush: bool, units: seq<int>, error: bool)
    ensures Closed(m.After(units, error), flush) == Closed(m, flush).After(units, error)
  {
    assert units + (m.units + [REPLACEMENT_CHARACTER]) == (units + m.units) + [REPLACEMENT_CHARACTER];
  }

  /** For any bytes whatever, what a call does, exactly: it decodes the patched bytes as the main loop would. */
  lemma {:induction false} WideIsMainOnPatched(held: seq<Byte>, source: seq<Byte>, flush: bool)
    ensures Wide(held, source, flush, false) == Closed(Main(Patched(held, source), false), flush)
    decreases |held| + |source|, 1
  {
    if held == [] {
      WideOfFresh(source, flush);
    } else if FrontOf(held).Truncated? {
      var missing := NonAsciiSequenceLength(held[0]) - |held|;
      if missing > |source| {
        WideOfNothing(flush);
        assert FrontOf(held + source).Truncated?;
      } else {
        var filled, rest := held + source[..missing], source[missing..];
        FilledUp(held, filled);
        ResumeIsMainOnPatched(held, source, filled, rest, flush);
      }
    } else {
      ResumeIsMainOnPatched(held, source, held, source, flush);
    }
  }

  lemma {:induction false} ResumeIsMainOnPatched(held0: seq<Byte>, source0: seq<Byte>, held: seq<Byte>,
                                                 source: seq<Byte>, flush: bool)
    requires held0 != [] && held != [] && !FrontOf(held).Truncated? && |held0| + |source0| == |held| + |source|
    requires Partial(held0, source0, flush, false) == Resume(held, source, flush, false)
    ensures Wide(held0, source0, flush, false) == Closed(Main(PatchedOn(held, source), false), flush)
    decreases |held| + |source|, 0
  {
    hide FrontOf, Wide, Partial, Patched;
    var f, patched := FrontOf(held), PatchedOn(held, source);
    var n := f.length;
    var held' := if f.Character? then AfterCharacter(held, n) else held[n..];
    var units := if f.Character? then Units(f.c) else [REPLACEMENT_CHARACTER];
    WideAfter(held0, source0, flush, held', source, units, f.Bad?);
    WideIsMainOnPatched(held', source, flush);
    if f.Character? {
      CharacterIsLocal(held, patched);
    } else {
      assert forall i :: 0 <= i <= n && i < |held| ==> held[i] == patched[i];
      BadIsLocal(held, patched);
    }
    assert patched[n..] == Patched(held', source);
    ClosedAfter(Main(Patched(held', source), false), flush, units, f.Bad?);
  }

  // ----- Cutting the bytes into calls

  /** Successive calls of one codec, of which the last is flushed. */
  function Run(held: seq<Byte>, chunks: seq<seq<Byte>>): (r: Result)
    requires chunks != []
    decreases |chunks|
  {
    var r := Decode(held, chunks[0], |chunks| == 1, false);
    if |chunks| == 1 then r else Run(r.held, chunks[1..]).After(r.units, r.error)
  }

  function FrontUnits(f: Front): seq<int>
    requires f.Bad? || (f.Character? && IsScalar(f.c))
  {
    if f.Bad? then [REPLACEMENT_CHARACTER] else Units(f.c)
  }

  lemma MainStep(source: seq<Byte>)
    requires source != [] && !FrontOf(source).Truncated?
    ensures var f := FrontOf(source);
            Main(source, false) == Main(source[f.length..], false).After(FrontUnits(f), f.Bad?)
  {
  }

  lemma AfterAfter(r: Result, m: Result, units: seq<int>, error: bool)
    ensures r.After(m.units, m.error).After(units, error) ==
      r.After(m.After(units, error).units, m.After(units, error).error)
  {
    assert units + (m.units + r.units) == (units + m.units) + r.units;
  }

  /** The main loop can be interrupted between any two bytes. */
  lemma {:induction false} MainSplits(a: seq<Byte>, b: seq<Byte>)
    ensures Splits(a, b)
    decreases |a|
  {
    hide FrontOf;
    if a == [] {
      assert a + b == b;
    } else if FrontOf(a).Truncated? {
      assert Main(a, false) == Result([], a, false);
    } else {
      MainSplits(a[FrontOf(a).length..], b);
      SplitStep(a, b);
    }
  }

  /** Decoding `a` and then `b` gives what decoding both together does. */
  predicate Splits(a: seq<Byte>, b: seq<Byte>) {
    var m := Main(a, false);
    Main(a + b, false) == Main(m.held + b, false).After(m.units, m.error)
  }

  lemma SplitStep(a: seq<Byte>, b: seq<Byte>)
    requires a != [] && !FrontOf(a).Truncated? && Splits(a[FrontOf(a).length..], b)
    ensures Splits(a, b)
  {
    hide Main, FrontOf;
    FrontOfLonger(a, b);
    MainStep(a);
    MainStep(a + b);
    DropAppend(a, b, FrontOf(a).length);
    var f := FrontOf(a);
    var m := Main(a[f.length..], false);
    AfterAfter(Main(m.held + b, false), m, FrontUnits(f), f.Bad?);
    assert Main(a, false) == m.After(FrontUnits(f), f.Bad?);
    assert Main(a + b, false) == Main(a[f.length..] + b, false).After(FrontUnits(f), f.Bad?);
  }

  lemma DropAppend(a: seq<Byte>, b: seq<Byte>, n: nat)
    requires n <= |a|
    ensures (a + b)[n..] == a[n..] + b
  {
  }

  lemma DropDrop(a: seq<Byte>, n: nat, tail: seq<Byte>)
    requires n <= |a| && IsSuffix(tail, a[n..])
    ensures IsSuffix(tail, a)
  {
  }

  lemma {:induction false} MainHoldsSuffix(a: seq<Byte>)
    ensures IsSuffix(Main(a, false).held, a)
    decreases |a|
  {
    if a != [] && !FrontOf(a).Truncated? {
      MainHoldsSuffix(a[FrontOf(a).length..]);
      SuffixStep(a);
    }
  }

  lemma SuffixStep(a: seq<Byte>)
    requires a != [] && !FrontOf(a).Truncated? &&
      IsSuffix(Main(a[FrontOf(a).length..], false).held, a[FrontOf(a).length..])
    ensures IsSuffix(Main(a, false).held, a)
  {
    hide Main, FrontOf, IsSuffix;
    MainStep(a);
    DropDrop(a, FrontOf(a).length, Main(a[FrontOf(a).length..], false).held);
  }

  predicate IsSuffix(tail: seq<Byte>, s: seq<Byte>) {
    |tail| <= |s| && tail == s[|s| - |tail|..]
  }

  lemma FrontOfLonger(a: seq<Byte>, b: seq<Byte>)
    requires a != [] && !FrontOf(a).Truncated?
    ensures FrontOf(a + b) == FrontOf(a)
  {
    if FrontOf(a).Character? {
      CharacterIsLocal(a, a + b);
    } else {
      BadIsLocal(a, a + b);
    }
  }

  lemma MainOfExample(last: Byte, m: Result)
    requires Main([last], false) == m
    ensures Main([0xF0, 0xC3, 0xA9, last], false) == m.After([0xFFFD, 0xE9], true)
  {
    var s: seq<Byte> := [0xF0, 0xC3, 0xA9, last];
    assert s[1..] == [0xC3, 0xA9, last] && s[1..][2..] == [last];
    MainStep(s[1..]);
    MainStep(s);
    assert [0xFFFD] + ([0xE9] + m.units) == [0xFFFD, 0xE9] + m.units;
  }

  lemma PatchedExample()
    ensures Patched([0xF0, 0xC3], [0xA9, 0x41]) == [0xF0, 0xC3, 0xA9, 0xC3]
  {
    var held: seq<Byte>, source: seq<Byte> := [0xF0, 0xC3], [0xA9, 0x41];
    var filled: seq<Byte> := [0xF0, 0xC3, 0xA9, 0x41];
    assert held + source[..2] == filled && source[2..] == [];
    var rest: seq<Byte> := [0xC3, 0xA9, 0x41];
    assert filled[1..] == rest;
    assert PatchedOn(rest, []) == [0xC3, 0xA9] + Patched([0xC3], []) by {
      assert FrontOf(rest) == Character(0xE9, 2) && AfterCharacter(rest, 2) == [0xC3];
    }
    assert PatchedOn(filled, []) == [0xF0] + Patched(rest, []);
  }

  lemma ExampleFacts()
    ensures Main([0xC3], false) == Result([], [0xC3], false)
    ensures Main([0x41], false) == Result([0x41], [], false)
    ensures Decode([], [0xF0, 0xC3], false, false) == Result([], [0xF0, 0xC3], false)
    ensures CanBeHeld([0xF0, 0xC3])
  {
    MainStep([0x41]);
  }

  lemma RunOfTwo(a: seq<Byte>, b: seq<Byte>)
    ensures var r := Decode([], a, false, false);
            Run([], [a, b]) == Decode(r.held, b, true, false).After(r.units, r.error)
  {
    hide Decode;
    var r := Decode([], a, false, false);
    assert [a, b][1..] == [b];
    assert Run(r.held, [b]) == Decode(r.held, b, true, false);
  }

  /** With a leftover a cut can change the result: the last byte is lost and an error reported in its place. */
  lemma CutCanChangeLeftover()
    ensures Run([], [[0xF0, 0xC3], [0xA9, 0x41]]) == Result([0xFFFD, 0xE9, 0xFFFD], [], true)
    ensures Decode([], [0xF0, 0xC3, 0xA9, 0x41], true, false) == Result([0xFFFD, 0xE9, 0x41], [], true)
  {
    hide Main, FrontOf, Decode, Wide, Patched, Run, CanBeHeld;
    var all: seq<Byte>, a: seq<Byte>, b: seq<Byte> := [0xF0, 0xC3, 0xA9, 0x41], [0xF0, 0xC3], [0xA9, 0x41];
    ExampleFacts();
    FreshDecode(all);
    MainOfExample(0x41, Result([0x41], [], false));
    RunOfTwo(a, b);
    DecodeIsWide(a, b, true, false);
    WideIsMainOnPatched(a, b, true);
    PatchedExample();
    MainOfExample(0xC3, Result([], [0xC3], false));
  }

  lemma FreshDecode(source: seq<Byte>)
    ensures Decode([], source, true, false) == Closed(Main(source, false), true)
  {
    hide Main, FrontOf, Decode, Wide;
    DecodeIsWide([], source, true, false);
    WideOfFresh(source, true);
  }
}
