/** The streaming UTF-8 decoder, as functions of the bytes it holds from earlier calls and the bytes of this call. */
module Utf8Codec {
  import opened Utf8

  /** What a call gives: UTF-16 code units, the bytes held for the next call, and whether an error was seen. */
  datatype Result = Result(units: seq<int>, held: seq<Byte>, error: bool) {
    function After(more: seq<int>, moreError: bool): Result {
      Result(more + units, held, moreError || error)
    }
  }

  /** The main loop on bytes that begin a sequence. A sequence cut short at the end is held. */
  function Main(source: seq<Byte>, stop: bool): (r: Result)
    ensures r.held != [] ==> FrontOf(r.held).Truncated?
    ensures |r.units| + |r.held| <= |source|
  {
    if source == [] then Result([], [], false)
    else match FrontOf(source)
         case Truncated => Result([], source, false)
         case Character(c, length) => Main(source[length..], stop).After(Units(c), false)
         case Bad(length) =>
           if stop then Result([], [], true)
           else Main(source[length..], stop).After([REPLACEMENT_CHARACTER], true)
  }

  lemma MainOfNothing(stop: bool)
    ensures Main([], stop) == Result([], [], false)
  {
  }

  /** What handling the held bytes gives; `source` is what is left of the new bytes once none is held. */
  datatype Progress = Progress(units: seq<int>, held: seq<Byte>, source: seq<Byte>, error: bool) {
    function After(more: seq<int>, moreError: bool): Progress {
      Progress(more + units, held, source, moreError || error)
    }
  }

  /** The held bytes once a character of `length` bytes has been taken from them. Only a single byte is shifted out:
      after a longer character the buffer is just cut, which keeps its first bytes rather than its last ones. */
  function AfterCharacter(held: seq<Byte>, length: nat): seq<Byte>
    requires 1 <= length <= |held|
  {
    if length == 1 then held[1..] else held[..|held| - length]
  }

  /** Handles the held bytes, completing a sequence that was cut short from the new ones. */
  function Partial(held: seq<Byte>, source: seq<Byte>, flush: bool, stop: bool): (r: Progress)
    decreases |held| + |source|, 1
  {
    if held == [] then Progress([], [], source, false)
    else if FrontOf(held).Truncated? then
      var missing := NonAsciiSequenceLength(held[0]) - |held|;
      if missing > |source| then
        if !flush then Progress([], held + source, [], false)
        else if stop then Progress([], held, source, true)
        else Progress([REPLACEMENT_CHARACTER], [], [], true)
      else Resume(held + source[..missing], source[missing..], flush, stop)
    else Resume(held, source, flush, stop)
  }

  function Resume(held: seq<Byte>, source: seq<Byte>, flush: bool, stop: bool): (r: Progress)
    requires held != [] && !FrontOf(held).Truncated?
    decreases |held| + |source|, 0
  {
    match FrontOf(held)
    case Character(c, length) => Partial(AfterCharacter(held, length), source, flush, stop).After(Units(c), false)
    case Bad(length) =>
      if stop then Progress([], held, source, true)
      else Partial(held[length..], source, flush, stop).After([REPLACEMENT_CHARACTER], true)
  }

  lemma {:induction false} PartialShrinks(held: seq<Byte>, source: seq<Byte>, flush: bool, stop: bool)
    requires held != []
    ensures var p := Partial(held, source, flush, stop);
            && |p.units| + |p.held| + |p.source| <= |held| + |source|
            && (p.held == [] ==> |p.source| < |held| + |source|)
            && (p.held != [] ==> !FrontOf(p.held).Character?)
    decreases |held| + |source|, 1
  {
    if FrontOf(held).Truncated? {
      var missing := NonAsciiSequenceLength(held[0]) - |held|;
      if missing > |source| {
      } else {
        ResumeShrinks(held + source[..missing], source[missing..], flush, stop);
      }
    } else {
      ResumeShrinks(held, source, flush, stop);
    }
  }

  lemma {:induction false} ResumeShrinks(held: seq<Byte>, source: seq<Byte>, flush: bool, stop: bool)
    requires held != [] && !FrontOf(held).Truncated?
    ensures var p := Resume(held, source, flush, stop);
            && |p.units| + |p.held| + |p.source| <= |held| + |source|
            && (p.held == [] ==> |p.source| < |held| + |source|)
            && (p.held != [] ==> !FrontOf(p.held).Character?)
    decreases |held| + |source|, 0
  {
    match FrontOf(held)
    case Character(c, length) =>
      if AfterCharacter(held, length) != [] {
        PartialShrinks(AfterCharacter(held, length), source, flush, stop);
      }
    case Bad(length) =>
      if !stop && held[length..] != [] {
        PartialShrinks(held[length..], source, flush, stop);
      }
  }

  /** A decode call that works in 16 bits from the start. */
  function Wide(held: seq<Byte>, source: seq<Byte>, flush: bool, stop: bool): (r: Result)
    decreases |held| + |source|, if held == [] then 1 else 0
  {
    if held != [] then
      var p := Partial(held, source, flush, stop);
      PartialShrinks(held, source, flush, stop);
      if p.held != [] then Result(p.units, p.held, p.error)
      else Wide([], p.source, flush, stop).After(p.units, p.error)
    else
      var m := Main(source, stop);
      if flush && m.held != [] then Wide(m.held, [], flush, stop).After(m.units, m.error)
      else m
  }

  /** What the 8-bit attempt gives: `up` says that it must go on in 16 bits, from `held` and `source`. */
  datatype Attempt = Attempt(up: bool, units: seq<int>, held: seq<Byte>, source: seq<Byte>, error: bool) {
    function After(more: seq<int>): Attempt {
      Attempt(up, more + units, held, source, error)
    }
  }

  predicate IsLatin1(f: Front) {
    f.Character? && f.c <= 0xFF
  }

  /** Handles the held bytes in 8 bits. */
  function Partial8(held: seq<Byte>, source: seq<Byte>, flush: bool): (r: Attempt)
    decreases |held| + |source|, 1
  {
    if held == [] then Attempt(false, [], [], source, false)
    else if FrontOf(held).Truncated? then
      var missing := NonAsciiSequenceLength(held[0]) - |held|;
      if missing > |source| then
        if !flush then Attempt(false, [], held + source, [], false)
        else Attempt(true, [], held, source, false)
      else Resume8(held + source[..missing], source[missing..], flush)
    else Resume8(held, source, flush)
  }

  function Resume8(held: seq<Byte>, source: seq<Byte>, flush: bool): (r: Attempt)
    requires held != [] && !FrontOf(held).Truncated?
    decreases |held| + |source|, 0
  {
    var f := FrontOf(held);
    if IsLatin1(f) then Partial8(AfterCharacter(held, f.length), source, flush).After([f.c])
    else Attempt(true, [], held, source, false)
  }

  /** The main loop in 8 bits. */
  function Main8(source: seq<Byte>, stop: bool): (r: Attempt)
    ensures r.up ==> r.source != [] && r.held == []
    ensures |r.units| + |r.held| + |r.source| <= |source|
  {
    if source == [] then Attempt(false, [], [], [], false)
    else
      var f := FrontOf(source);
      if f.Truncated? then Attempt(false, [], source, [], false)
      else if IsLatin1(f) then Main8(source[f.length..], stop).After([f.c])
      else if f.Bad? && stop then Attempt(false, [], [], [], true)
      else Attempt(true, [], [], source, f.Bad?)
  }

  lemma {:induction false} Partial8Shrinks(held: seq<Byte>, source: seq<Byte>, flush: bool)
    requires held != []
    ensures var p := Partial8(held, source, flush);
            && |p.units| + |p.held| + |p.source| <= |held| + |source|
            && (!p.up && p.held == [] ==> |p.source| < |held| + |source|)
    decreases |held| + |source|, 1
  {
    if FrontOf(held).Truncated? {
      var missing := NonAsciiSequenceLength(held[0]) - |held|;
      if missing <= |source| {
        Resume8Shrinks(held + source[..missing], source[missing..], flush);
      }
    } else {
      Resume8Shrinks(held, source, flush);
    }
  }

  lemma {:induction false} Resume8Shrinks(held: seq<Byte>, source: seq<Byte>, flush: bool)
    requires held != [] && !FrontOf(held).Truncated?
    ensures var p := Resume8(held, source, flush);
            && |p.units| + |p.held| + |p.source| <= |held| + |source|
            && (!p.up && p.held == [] ==> |p.source| < |held| + |source|)
    decreases |held| + |source|, 0
  {
    var f := FrontOf(held);
    if IsLatin1(f) && AfterCharacter(held, f.length) != [] {
      Partial8Shrinks(AfterCharacter(held, f.length), source, flush);
    }
  }

  /** A decode call: an 8-bit attempt that goes on in 16 bits from where it gives up. Characters taken from the held
      bytes by an attempt that gives up among them are not kept. */
  function Decode(held: seq<Byte>, source: seq<Byte>, flush: bool, stop: bool): (r: Result)
    decreases |held| + |source|, if held == [] then 1 else 0
  {
    if held != [] then
      var p := Partial8(held, source, flush);
      Partial8Shrinks(held, source, flush);
      if p.up then Wide(p.held, p.source, flush, stop)
      else if p.held != [] then Result(p.units, p.held, false)
      else Decode([], p.source, flush, stop).After(p.units, false)
    else
      var m := Main8(source, stop);
      if m.up then Wide([], m.source, flush, stop).After(m.units, m.error)
      else if flush && m.held != [] then Decode(m.held, [], flush, stop).After(m.units, m.error)
      else Result(m.units, m.held, m.error)
  }

  /** The bytes a codec can hold between calls: at most four, beginning no complete character. */
  predicate CanBeHeld(held: seq<Byte>) {
    held == [] || (|held| <= 4 && !FrontOf(held).Character?)
  }

  lemma ResultAfter(r: Result, more: seq<int>, moreError: bool, written: seq<int>, error: bool)
    ensures r.After(more, moreError).After(written, error) == r.After(written + more, error || moreError)
    ensures r.After([], false) == r
  {
    assert written + (more + r.units) == (written + more) + r.units;
  }

  lemma AttemptAfter(a: Attempt, more: seq<int>, written: seq<int>)
    ensures a.After(more).After(written) == a.After(written + more) && a.After([]) == a
  {
    assert written + (more + a.units) == (written + more) + a.units;
  }

  /** The 16-bit main loop gives what the 8-bit one does, followed by what the rest gives if that gives up. */
  predicate MainAgrees(source: seq<Byte>, stop: bool) {
    var a, m := Main8(source, stop), Main(source, stop);
    if a.up then m == Main(a.source, stop).After(a.units, a.error) else m == Result(a.units, a.held, a.error)
  }

  lemma {:induction false} MainAfterMain8(source: seq<Byte>, stop: bool)
    ensures MainAgrees(source, stop)
    decreases |source|
  {
    if source != [] && IsLatin1(FrontOf(source)) {
      MainAfterMain8(source[FrontOf(source).length..], stop);
      MainAgreesStep(source, stop);
    } else {
      assert Main8(source, stop).units == [];
    }
  }

  lemma MainAgreesStep(source: seq<Byte>, stop: bool)
    requires source != [] && IsLatin1(FrontOf(source)) && MainAgrees(source[FrontOf(source).length..], stop)
    ensures MainAgrees(source, stop)
  {
    hide Main, Main8, FrontOf;
    Latin1Step(source, stop);
    var f := FrontOf(source);
    var a := Main8(source[f.length..], stop);
    ResultAfter(Main(a.source, stop), a.units, a.error, [f.c], false);
  }

  lemma Latin1Step(source: seq<Byte>, stop: bool)
    requires source != [] && IsLatin1(FrontOf(source))
    ensures var f := FrontOf(source);
            && Main8(source, stop) == Main8(source[f.length..], stop).After([f.c])
            && Main(source, stop) == Main(source[f.length..], stop).After([f.c], false)
  {
  }

  /** A held sequence that is filled up to its announced length is a whole character or an error. */
  lemma FilledUp(held: seq<Byte>, filled: seq<Byte>)
    requires held != [] && FrontOf(held).Truncated? && held <= filled && |filled| == NonAsciiSequenceLength(held[0])
    ensures !FrontOf(filled).Truncated? && 2 <= |filled| <= 4
    ensures FrontOf(filled).Character? ==> FrontOf(filled).length == |filled| && FrontOf(filled).c >= 0x80
  {
  }

  lemma PartialAfterPartial8(held: seq<Byte>, source: seq<Byte>, flush: bool, stop: bool)
    requires held != [] && CanBeHeld(held)
    ensures var a, p := Partial8(held, source, flush), Partial(held, source, flush, stop);
            if a.up then a.held != [] && p == Partial(a.held, a.source, flush, stop)
            else p == Progress(a.units, a.held, a.source, false)
  {
    if FrontOf(held).Truncated? {
      var missing := NonAsciiSequenceLength(held[0]) - |held|;
      if missing <= |source| {
        var filled, rest := held + source[..missing], source[missing..];
        FilledUp(held, filled);
        var f := FrontOf(filled);
        if IsLatin1(f) {
          assert AfterCharacter(filled, f.length) == [];
          assert Resume8(filled, rest, flush) == Attempt(false, [f.c], [], rest, false);
          assert Resume(filled, rest, flush, stop) == Progress([f.c], [], rest, false);
        }
      }
    }
  }

  /** On every state a codec can be in, the 8-bit attempt and its up-conversion change nothing. */
  lemma {:induction false} DecodeIsWide(held: seq<Byte>, source: seq<Byte>, flush: bool, stop: bool)
    requires CanBeHeld(held)
    ensures Decode(held, source, flush, stop) == Wide(held, source, flush, stop)
    decreases |held| + |source|, if held == [] then 1 else 0
  {
    if held != [] {
      PartialAfterPartial8(held, source, flush, stop);
      Partial8Shrinks(held, source, flush);
      var a := Partial8(held, source, flush);
      if !a.up && a.held == [] {
        DecodeIsWide([], a.source, flush, stop);
      }
    } else {
      MainAfterMain8(source, stop);
      var a := Main8(source, stop);
      if a.up {
        var m := Main(a.source, stop);
        if flush && m.held != [] {
          assert a.units + (m.units + Wide(m.held, [], flush, stop).units) ==
            (a.units + m.units) + Wide(m.held, [], flush, stop).units;
        }
      } else if flush && a.held != [] {
        DecodeIsWide(a.held, [], flush, stop);
      }
    }
  }
}
