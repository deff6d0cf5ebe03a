/** The codec object: its four-byte buffer, its output buffers and its loops. */
module TextCodecUTF8 {
  import opened Utf8
  import opened Utf8Codec
  import opened Utf8Streams

  /** Memory for `capacity` code units; nothing may be written beyond it. */
  class StringBuffer {
    const capacity: nat
    var contents: seq<int>

    constructor (capacity: nat)
      ensures this.capacity == capacity && contents == []
    {
      this.capacity := capacity;
      contents := [];
    }

    method Append(units: seq<int>)
      requires |contents| + |units| <= capacity
      modifies this
      ensures contents == old(contents) + units
    {
      contents := contents + units;
    }

    method Rewind(size: nat)
      requires size <= |contents|
      modifies this
      ensures contents == old(contents)[..size]
    {
      contents := contents[..size];
    }
  }

  /** How a turn of a loop over the held bytes ends. */
  datatype Turn = GoOn | Wait | GiveUp

  // ----- One turn of the 8-bit loop over the held bytes

  lemma Partial8Ascii(held: seq<Byte>, source: seq<Byte>, flush: bool)
    requires held != [] && IsAscii(held[0])
    ensures Partial8(held, source, flush) == Partial8(held[1..], source, flush).After([held[0]])
  {
  }

  lemma Partial8Empty(source: seq<Byte>, flush: bool)
    ensures Partial8([], source, flush) == Attempt(false, [], [], source, false)
  {
  }

  lemma Partial8Invalid(held: seq<Byte>, source: seq<Byte>, flush: bool)
    requires held != [] && !IsAscii(held[0]) && NonAsciiSequenceLength(held[0]) == 0
    ensures Partial8(held, source, flush) == Attempt(true, [], held, source, false)
  {
  }

  lemma Partial8Short(held: seq<Byte>, source: seq<Byte>, flush: bool)
    requires held != [] && NonAsciiSequenceLength(held[0]) > |held| + |source|
    ensures Partial8(held, source, flush)
         == if flush then Attempt(true, [], held, source, false) else Attempt(false, [], held + source, [], false)
  {
  }

  lemma Partial8Fill(held: seq<Byte>, source: seq<Byte>, missing: nat, flush: bool)
    requires held != [] && missing <= |source| && NonAsciiSequenceLength(held[0]) == |held| + missing
    ensures Partial8(held, source, flush) == Partial8(held + source[..missing], source[missing..], flush)
  {
    if missing > 0 {
      FilledUp(held, held + source[..missing]);
    } else {
      assert held + source[..0] == held && source[0..] == source;
    }
  }

  lemma Partial8Whole(held: seq<Byte>, source: seq<Byte>, flush: bool)
    requires held != [] && 2 <= NonAsciiSequenceLength(held[0]) <= |held|
    ensures var (c, n) := DecodeNonAsciiSequence(held, NonAsciiSequenceLength(held[0]));
            if 0 <= c <= 0xFF then n <= |held| &&
              Partial8(held, source, flush) == Partial8(held[..|held| - n], source, flush).After([c])
            else Partial8(held, source, flush) == Attempt(true, [], held, source, false)
  {
  }

  // ----- One turn of the 16-bit loop over the held bytes

  lemma ProgressAfter(p: Progress, more: seq<int>, moreError: bool, written: seq<int>, error: bool)
    ensures p.After(more, moreError).After(written, error) == p.After(written + more, error || moreError)
    ensures p.After([], false) == p
  {
    assert written + (more + p.units) == (written + more) + p.units;
  }

  lemma PartialAscii(held: seq<Byte>, source: seq<Byte>, flush: bool, stop: bool)
    requires held != [] && IsAscii(held[0])
    ensures Partial(held, source, flush, stop) == Partial(held[1..], source, flush, stop).After([held[0]], false)
  {
  }

  lemma PartialEmpty(source: seq<Byte>, flush: bool, stop: bool)
    ensures Partial([], source, flush, stop) == Progress([], [], source, false)
  {
  }

  lemma PartialInvalid(held: seq<Byte>, source: seq<Byte>, flush: bool, stop: bool)
    requires held != [] && !IsAscii(held[0]) && NonAsciiSequenceLength(held[0]) == 0
    ensures Partial(held, source, flush, stop)
         == if stop then Progress([], held, source, true)
            else Partial(held[1..], source, flush, stop).After([REPLACEMENT_CHARACTER], true)
  {
  }

  lemma PartialShort(held: seq<Byte>, source: seq<Byte>, flush: bool, stop: bool)
    requires held != [] && NonAsciiSequenceLength(held[0]) > |held| + |source|
    ensures Partial(held, source, flush, stop)
         == if !flush then Progress([], held + source, [], false)
            else if stop then Progress([], held, source, true)
            else Partial([], [], flush, stop).After([REPLACEMENT_CHARACTER], true)
  {
  }

  lemma PartialFill(held: seq<Byte>, source: seq<Byte>, missing: nat, flush: bool, stop: bool)
    requires held != [] && missing <= |source| && NonAsciiSequenceLength(held[0]) == |held| + missing
    ensures Partial(held, source, flush, stop) == Partial(held + source[..missing], source[missing..], flush, stop)
  {
    if missing > 0 {
      FilledUp(held, held + source[..missing]);
    } else {
      assert held + source[..0] == held && source[0..] == source;
    }
  }

  lemma PartialWhole(held: seq<Byte>, source: seq<Byte>, flush: bool, stop: bool)
    requires held != [] && 2 <= NonAsciiSequenceLength(held[0]) <= |held|
    ensures var (c, n) := DecodeNonAsciiSequence(held, NonAsciiSequenceLength(held[0]));
            var p := Partial(held, source, flush, stop);
            if c == NON_CHARACTER then
              if stop then p == Progress([], held, source, true)
              else p == Partial(held[n..], source, flush, stop).After([REPLACEMENT_CHARACTER], true)
            else
              && IsScalar(c) && |Units(c)| <= n
              && p == Partial(held[..|held| - n], source, flush, stop).After(Units(c), false)
  {
    assert FrontOf(held).Character? || FrontOf(held).Bad?;
  }

  // ----- The main loops, and copying ASCII a machine word at a time

  predicate AllAscii(s: seq<Byte>) {
    forall i :: 0 <= i < |s| ==> IsAscii(s[i])
  }

  lemma NothingIsAscii(bytes: seq<Byte>, start: nat)
    requires start <= |bytes|
    ensures AllAscii(bytes[start..start])
  {
  }

  lemma MoreAscii(bytes: seq<Byte>, start: nat, source: nat, end: nat)
    requires start <= source <= end <= |bytes| && AllAscii(bytes[start..source]) && AllAscii(bytes[source..end])
    ensures bytes[start..source] + bytes[source..end] == bytes[start..end] && AllAscii(bytes[start..end])
  {
  }

  lemma AsciiStep(s: seq<Byte>, stop: bool)
    requires s != [] && IsAscii(s[0])
    ensures Main8(s, stop) == Main8(s[1..], stop).After([s[0]])
    ensures Main(s, stop) == Main(s[1..], stop).After([s[0]], false)
  {
  }

  /** Copying ASCII as it is, in whatever portions, does what decoding it byte by byte does. */
  lemma {:induction false} DecodeOfAscii(ascii: seq<Byte>, rest: seq<Byte>, stop: bool)
    requires AllAscii(ascii)
    ensures Main8(ascii + rest, stop) == Main8(rest, stop).After(ascii)
    ensures Main(ascii + rest, stop) == Main(rest, stop).After(ascii, false)
    decreases |ascii|
  {
    hide Main8, Main;
    AttemptAfter(Main8(rest, stop), [], []);
    ResultAfter(Main(rest, stop), [], false, [], false);
    if ascii == [] {
      assert ascii + rest == rest;
    } else {
      AsciiStep(ascii + rest, stop);
      assert (ascii + rest)[1..] == ascii[1..] + rest;
      DecodeOfAscii(ascii[1..], rest, stop);
      AttemptAfter(Main8(rest, stop), ascii[1..], [ascii[0]]);
      ResultAfter(Main(rest, stop), ascii[1..], false, [ascii[0]], false);
      assert [ascii[0]] + ascii[1..] == ascii;
    }
  }

  lemma AsciiRun(bytes: seq<Byte>, source: nat, next: nat, stop: bool)
    requires source <= next <= |bytes| && AllAscii(bytes[source..next])
    ensures Main8(bytes[source..], stop) == Main8(bytes[next..], stop).After(bytes[source..next])
    ensures Main(bytes[source..], stop) == Main(bytes[next..], stop).After(bytes[source..next], false)
  {
    hide Main8, Main;
    DecodeOfAscii(bytes[source..next], bytes[next..], stop);
    assert bytes[source..next] + bytes[next..] == bytes[source..];
  }

  lemma Main8OfNothing(stop: bool)
    ensures Main8([], stop) == Attempt(false, [], [], [], false)
  {
  }

  /** A turn of the 8-bit main loop at position `at`. */
  lemma Main8Step(bytes: seq<Byte>, at: nat, stop: bool)
    requires at < |bytes|
    ensures var f, a := FrontOf(bytes[at..]), Main8(bytes[at..], stop);
            if f.Truncated? then a == Attempt(false, [], bytes[at..], [], false)
            else if IsLatin1(f) then at + f.length <= |bytes| && a == Main8(bytes[at + f.length..], stop).After([f.c])
            else if f.Bad? && stop then a == Attempt(false, [], [], [], true)
            else a == Attempt(true, [], [], bytes[at..], f.Bad?)
  {
    var f := FrontOf(bytes[at..]);
    if !f.Truncated? {
      assert bytes[at..][f.length..] == bytes[at + f.length..];
    }
  }

  /** A turn of the 16-bit main loop at position `at`. */
  lemma Main16Step(bytes: seq<Byte>, at: nat, stop: bool)
    requires at < |bytes|
    ensures var f, m := FrontOf(bytes[at..]), Main(bytes[at..], stop);
            if f.Truncated? then m == Result([], bytes[at..], false)
            else if f.Bad? && stop then m == Result([], [], true)
            else at + f.length <= |bytes| && m == Main(bytes[at + f.length..], stop).After(FrontUnits(f), f.Bad?)
  {
    var f := FrontOf(bytes[at..]);
    if !f.Truncated? {
      assert bytes[at..][f.length..] == bytes[at + f.length..];
    }
  }

  // ----- A whole call

  /** How a round of the 8-bit loop ends. */
  datatype Round = Finished | Again | UpConvert

  /** One round of the 16-bit loop: the held bytes, then the main loop on what is left of the new ones. */
  lemma WideRound(held: seq<Byte>, source: seq<Byte>, flush: bool, stop: bool)
    ensures var p := Partial(held, source, flush, stop);
            var m := Main(p.source, stop);
            Wide(held, source, flush, stop)
            == if p.held != [] then Result(p.units, p.held, p.error)
               else if flush && m.held != [] then
                 Wide(m.held, [], flush, stop).After(p.units + m.units, p.error || m.error)
               else Result(p.units + m.units, m.held, p.error || m.error)
    ensures var p := Partial(held, source, flush, stop);
            && |p.units| + |p.held| + |p.source| <= |held| + |source|
            && (held != [] && p.held == [] ==> |p.source| < |held| + |source|)
  {
    hide Partial, Main;
    if held != [] {
      PartialShrinks(held, source, flush, stop);
    } else {
      PartialEmpty(source, flush, stop);
    }
    var p := Partial(held, source, flush, stop);
    var m := Main(p.source, stop);
    ResultAfter(Wide(m.held, [], flush, stop), m.units, m.error, p.units, p.error);
    assert held == [] ==> p.units + m.units == m.units;
  }

  /** One round of the 8-bit loop. */
  lemma DecodeRound(held: seq<Byte>, source: seq<Byte>, flush: bool, stop: bool)
    ensures var p := Partial8(held, source, flush);
            var m := Main8(p.source, stop);
            Decode(held, source, flush, stop)
            == if p.up then Wide(p.held, p.source, flush, stop)
               else if p.held != [] then Result(p.units, p.held, false)
               else if m.up then Wide([], m.source, flush, stop).After(p.units + m.units, m.error)
               else if flush && m.held != [] then Decode(m.held, [], flush, stop).After(p.units + m.units, m.error)
               else Result(p.units + m.units, m.held, m.error)
    ensures var p := Partial8(held, source, flush);
            |p.units| + |p.held| + |p.source| <= |held| + |source|
            && (held != [] && !p.up && p.held == [] ==> |p.source| < |held| + |source|)
  {
    hide Partial8, Main8;
    if held != [] {
      Partial8Shrinks(held, source, flush);
    } else {
      Partial8Empty(source, flush);
    }
    var p := Partial8(held, source, flush);
    var m := Main8(p.source, stop);
    assert held == [] ==> p.units + m.units == m.units;
    ResultAfter(Wide([], m.source, flush, stop), m.units, m.error, p.units, false);
    ResultAfter(Decode(m.held, [], flush, stop), m.units, m.error, p.units, false);
  }

  /** A character completed from held bytes takes a new byte too, so that its code unit fits where that byte was. */
  lemma CompletedFits(held: seq<Byte>, source: seq<Byte>, flush: bool)
    requires held != [] && CanBeHeld(held)
    ensures var a := Partial8(held, source, flush);
            && (a.up ==> a.units == [] && |a.held| + |a.source| == |held| + |source|)
            && (!a.up && a.held == [] ==> |a.units| + |a.source| <= |source|)
            && (!a.up && a.held != [] ==> CanBeHeld(a.held) && a.units == [])
  {
    if FrontOf(held).Truncated? {
      var missing := NonAsciiSequenceLength(held[0]) - |held|;
      if missing <= |source| {
        var filled, rest := held + source[..missing], source[missing..];
        FilledUp(held, filled);
        if IsLatin1(FrontOf(filled)) {
          assert AfterCharacter(filled, FrontOf(filled).length) == [];
          assert Resume8(filled, rest, flush) == Attempt(false, [FrontOf(filled).c], [], rest, false);
        }
      }
    }
  }

  lemma {:induction false} MainHolds(source: seq<Byte>, stop: bool)
    ensures CanBeHeld(Main8(source, stop).held)
    decreases |source|
  {
    if source != [] && IsLatin1(FrontOf(source)) {
      MainHolds(source[FrontOf(source).length..], stop);
    }
  }

  lemma FinishedAfter(held: seq<Byte>, more: seq<int>, moreError: bool, written: seq<int>, error: bool)
    ensures Result(more, held, moreError).After(written, error) == Result(written + more, held, error || moreError)
  {
  }

  lemma DecodeHolds(held: seq<Byte>, source: seq<Byte>, flush: bool, stop: bool)
    requires CanBeHeld(held)
    ensures CanBeHeld(Decode(held, source, flush, stop).held)
  {
    hide Decode, Wide;
    DecodeIsWide(held, source, flush, stop);
    WideHolds(held, source, flush, stop);
  }

  /** Where the bytes of a call lie in memory. A machine word has four or eight bytes. */
  datatype Layout = Layout(base: nat, wide: bool) {
    function Word(): nat {
      if wide then 8 else 4
    }

    predicate IsAligned(source: int) {
      if wide then (base + source) % 8 == 0 else (base + source) % 4 == 0
    }

    function AlignedEnd(length: nat): (end: int)
      ensures end <= length && IsAligned(end)
    {
      length - if wide then (base + length) % 8 else (base + length) % 4
    }

    lemma NextWord(source: int, end: int)
      requires IsAligned(source) && IsAligned(end) && source < end
      ensures source + Word() <= end && IsAligned(source + Word())
    {
      if wide {
        NextEight((base + source) / 8, (base + end) / 8);
        assert base + source == 8 * ((base + source) / 8) && base + end == 8 * ((base + end) / 8);
      } else {
        NextFour((base + source) / 4, (base + end) / 4);
        assert base + source == 4 * ((base + source) / 4) && base + end == 4 * ((base + end) / 4);
      }
    }
  }

  lemma NextFour(p: int, q: int)
    ensures 4 * p < 4 * q ==> 4 * p + 4 <= 4 * q && (4 * p + 4) % 4 == 0
  {
  }

  lemma NextEight(p: int, q: int)
    ensures 8 * p < 8 * q ==> 8 * p + 8 <= 8 * q && (8 * p + 8) % 8 == 0
  {
  }

  class TextCodecUTF8 {
    const partialSequence: array<Byte>
    var partialSequenceSize: nat

    ghost predicate Sized()
      reads this
    {
      partialSequence.Length == 4 && partialSequenceSize <= 4
    }

    /** The bytes held from earlier calls. */
    function Held(): (held: seq<Byte>)
      requires Sized()
      reads this, partialSequence
      ensures |held| == partialSequenceSize
    {
      partialSequence[..partialSequenceSize]
    }

    ghost predicate Valid()
      reads this, partialSequence
    {
      Sized() && CanBeHeld(Held())
    }

    constructor ()
      ensures Valid() && Held() == [] && fresh(partialSequence)
    {
      partialSequence := new Byte[4](i => 0);
      partialSequenceSize := 0;
    }

    /** Moves the held bytes down over the first `n`. */
    method Shift(n: nat)
      requires Sized() && n <= partialSequenceSize
      modifies this, partialSequence
      ensures Sized() && Held() == old(Held())[n..]
    {
      partialSequenceSize := partialSequenceSize - n;
      for i := 0 to partialSequenceSize
        invariant partialSequenceSize == old(partialSequenceSize) - n
        invariant forall k :: 0 <= k < i ==> partialSequence[k] == old(partialSequence[k + n])
        invariant forall k :: i <= k < 4 ==> partialSequence[k] == old(partialSequence[k])
      {
        partialSequence[i] := partialSequence[i + n];
      }
    }

    /** Adds `n` new bytes to the held ones. */
    method Fill(bytes: seq<Byte>, source: nat, n: nat)
      requires Sized() && partialSequenceSize + n <= 4 && source + n <= |bytes|
      modifies this, partialSequence
      ensures Sized() && Held() == old(Held()) + bytes[source..source + n]
    {
      for i := 0 to n
        invariant partialSequenceSize == old(partialSequenceSize)
        invariant partialSequence[..partialSequenceSize + i] == old(Held()) + bytes[source..source + i]
      {
        partialSequence[partialSequenceSize + i] := bytes[source + i];
      }
      partialSequenceSize := partialSequenceSize + n;
    }

    /** Takes what is missing of a held sequence of `count` bytes from the new bytes, all of them if they do not
        suffice. */
    method Complete(bytes: seq<Byte>, start: nat, count: nat) returns (source: nat)
      requires Sized() && partialSequenceSize <= count <= 4 && start <= |bytes| &&
        count - partialSequenceSize <= |bytes| - start
      modifies this, partialSequence
      ensures Sized() && source == start + count - old(partialSequenceSize)
      ensures Held() == old(Held()) + bytes[start..][..count - old(partialSequenceSize)]
      ensures bytes[source..] == bytes[start..][count - old(partialSequenceSize)..]
    {
      var missing := count - partialSequenceSize;
      Fill(bytes, start, missing);
      source := start + missing;
      assert bytes[start..][..missing] == bytes[start..start + missing];
    }

    /** One turn of the 8-bit loop: a code unit is taken from the held bytes, or the loop ends. */
    method Turn8(bytes: seq<Byte>, start: nat, flush: bool) returns (turn: Turn, unit: int, source: nat)
      requires Sized() && partialSequenceSize > 0 && start <= |bytes|
      modifies this, partialSequence
      ensures Sized() && start <= source <= |bytes| && partialSequenceSize - source <= old(partialSequenceSize) - start
      ensures var a := Partial8(old(Held()), bytes[start..], flush);
              match turn
              case GoOn =>
                && partialSequenceSize - source < old(partialSequenceSize) - start
                && a == Partial8(Held(), bytes[source..], flush).After([unit])
              case Wait => a == Attempt(false, [], Held(), [], false) && Held() != []
              case GiveUp => a == Attempt(true, [], Held(), bytes[source..], false)
    {
      hide Partial8, DecodeNonAsciiSequence, NonAsciiSequenceLength;
      unit, source := 0, start;
      if IsAscii(partialSequence[0]) {
        Partial8Ascii(Held(), bytes[source..], flush);
        unit := partialSequence[0];
        Shift(1);
        return GoOn, unit, source;
      }
      var count := NonAsciiSequenceLength(partialSequence[0]);
      if count == 0 {
        Partial8Invalid(Held(), bytes[source..], flush);
        return GiveUp, unit, source;
      }
      if count > partialSequenceSize {
        if count - partialSequenceSize > |bytes| - source {
          Partial8Short(Held(), bytes[source..], flush);
          if !flush {
            source := Complete(bytes, source, partialSequenceSize + |bytes| - source);
            return Wait, unit, source;
          }
          return GiveUp, unit, source;
        }
        Partial8Fill(Held(), bytes[source..], count - partialSequenceSize, flush);
        source := Complete(bytes, source, count);
      }
      Partial8Whole(Held(), bytes[source..], flush);
      var (character, length) := DecodeNonAsciiSequence(Held(), count);
      if !(0 <= character <= 0xFF) {
        return GiveUp, unit, source;
      }
      ghost var cut := Held()[..partialSequenceSize - length];
      partialSequenceSize := partialSequenceSize - length;
      assert Held() == cut;
      return GoOn, character, source;
    }

    /** Handles the held bytes in 8 bits; `up` asks for 16 bits. */
    method HandlePartialSequence8(buffer: StringBuffer, bytes: seq<Byte>, start: nat, flush: bool)
      returns (up: bool, source: nat)
      requires Sized() && partialSequenceSize > 0 && start <= |bytes|
      requires |buffer.contents| + partialSequenceSize + |bytes| - start <= buffer.capacity
      modifies this, partialSequence, buffer
      ensures Sized() && start <= source <= |bytes|
      ensures var a := Partial8(old(Held()), bytes[start..], flush);
              && up == a.up && Held() == a.held && buffer.contents == old(buffer.contents) + a.units
              && (up || Held() == [] ==> bytes[source..] == a.source)
    {
      hide Partial8;
      source := start;
      ghost var written := [];
      AttemptAfter(Partial8(Held(), bytes[start..], flush), [], []);
      while partialSequenceSize > 0
        invariant Sized() && start <= source <= |bytes| && buffer.contents == old(buffer.contents) + written
        invariant |written| + partialSequenceSize + |bytes| - source <= old(partialSequenceSize) + |bytes| - start
        invariant Partial8(old(Held()), bytes[start..], flush) ==
          Partial8(Held(), bytes[source..], flush).After(written)
        decreases partialSequenceSize + |bytes| - source
      {
        var turn, unit;
        turn, unit, source := Turn8(bytes, source, flush);
        if turn != GoOn {
          return turn == GiveUp, source;
        }
        AttemptAfter(Partial8(Held(), bytes[source..], flush), [unit], written);
        buffer.Append([unit]);
        written := written + [unit];
      }
      up := false;
      Partial8Empty(bytes[source..], flush);
    }

    /** One turn of the 16-bit loop: code units are taken from the held bytes, or the loop ends. */
    method Turn16(bytes: seq<Byte>, start: nat, flush: bool, stop: bool)
      returns (turn: Turn, units: seq<int>, error: bool, source: nat)
      requires Sized() && partialSequenceSize > 0 && start <= |bytes|
      modifies this, partialSequence
      ensures Sized() && start <= source <= |bytes| && partialSequenceSize - source <= old(partialSequenceSize) - start
      ensures var p := Partial(old(Held()), bytes[start..], flush, stop);
              match turn
              case GoOn =>
                && 1 <= |units| <= old(partialSequenceSize) - start - partialSequenceSize + source
                && p == Partial(Held(), bytes[source..], flush, stop).After(units, error)
              case Wait => p == Progress([], Held(), [], false) && Held() != []
              case GiveUp => p == Progress([], Held(), bytes[source..], true) && Held() != []
    {
      hide Partial, DecodeNonAsciiSequence, NonAsciiSequenceLength, Units;
      units, error, source := [], false, start;
      if IsAscii(partialSequence[0]) {
        PartialAscii(Held(), bytes[source..], flush, stop);
        units := [partialSequence[0]];
        Shift(1);
        return GoOn, units, error, source;
      }
      var count := NonAsciiSequenceLength(partialSequence[0]);
      if count == 0 {
        PartialInvalid(Held(), bytes[source..], flush, stop);
        if stop {
          return GiveUp, units, error, source;
        }
        Shift(1);
        return GoOn, [REPLACEMENT_CHARACTER], true, source;
      }
      if count > partialSequenceSize {
        if count - partialSequenceSize > |bytes| - source {
          PartialShort(Held(), bytes[source..], flush, stop);
          if !flush {
            source := Complete(bytes, source, partialSequenceSize + |bytes| - source);
            return Wait, units, error, source;
          }
          if stop {
            return GiveUp, units, error, source;
          }
          partialSequenceSize := 0;
          assert Held() == [] && bytes[|bytes|..] == [];
          return GoOn, [REPLACEMENT_CHARACTER], true, |bytes|;
        }
        PartialFill(Held(), bytes[source..], count - partialSequenceSize, flush, stop);
        source := Complete(bytes, source, count);
      }
      turn, units, error := TakeWhole16(bytes[source..], count, flush, stop);
    }

    /** Takes a sequence of the announced length from the held bytes. */
    method TakeWhole16(ghost rest: seq<Byte>, count: nat, ghost flush: bool, stop: bool)
      returns (turn: Turn, units: seq<int>, error: bool)
      requires Sized() && partialSequenceSize > 0 &&
        2 <= count == NonAsciiSequenceLength(partialSequence[0]) <= partialSequenceSize
      modifies this, partialSequence
      ensures Sized() && turn != Wait
      ensures var p := Partial(old(Held()), rest, flush, stop);
              if turn == GoOn then
                && 1 <= |units| <= old(partialSequenceSize) - partialSequenceSize
                && p == Partial(Held(), rest, flush, stop).After(units, error)
              else Held() == old(Held()) && p == Progress([], Held(), rest, true)
    {
      hide Partial, DecodeNonAsciiSequence, NonAsciiSequenceLength, Units;
      PartialWhole(Held(), rest, flush, stop);
      var (character, length) := DecodeNonAsciiSequence(Held(), count);
      if character == NON_CHARACTER {
        if stop {
          return GiveUp, [], false;
        }
        Shift(length);
        return GoOn, [REPLACEMENT_CHARACTER], true;
      }
      ghost var cut := Held()[..partialSequenceSize - length];
      partialSequenceSize := partialSequenceSize - length;
      assert Held() == cut;
      return GoOn, Units(character), false;
    }

    /** Handles the held bytes in 16 bits. */
    method HandlePartialSequence16(buffer: StringBuffer, bytes: seq<Byte>, start: nat, flush: bool, stop: bool)
      returns (sawError: bool, source: nat)
      requires Sized() && partialSequenceSize > 0 && start <= |bytes|
      requires |buffer.contents| + partialSequenceSize + |bytes| - start <= buffer.capacity
      modifies this, partialSequence, buffer
      ensures Sized() && start <= source <= |bytes|
      ensures var p := Partial(old(Held()), bytes[start..], flush, stop);
              && sawError == p.error && Held() == p.held && buffer.contents == old(buffer.contents) + p.units
              && (Held() == [] ==> bytes[source..] == p.source)
    {
      hide Partial;
      sawError, source := false, start;
      ghost var written := [];
      ProgressAfter(Partial(Held(), bytes[start..], flush, stop), [], false, [], false);
      while partialSequenceSize > 0
        invariant Sized() && start <= source <= |bytes| && buffer.contents == old(buffer.contents) + written
        invariant |written| + partialSequenceSize + |bytes| - source <= old(partialSequenceSize) + |bytes| - start
        invariant Partial(old(Held()), bytes[start..], flush, stop)
               == Partial(Held(), bytes[source..], flush, stop).After(written, sawError)
        decreases partialSequenceSize + |bytes| - source
      {
        var turn, units, error;
        turn, units, error, source := Turn16(bytes, source, flush, stop);
        if turn != GoOn {
          sawError := sawError || turn == GiveUp;
          return;
        }
        ProgressAfter(Partial(Held(), bytes[source..], flush, stop), units, error, written, sawError);
        buffer.Append(units);
        written, sawError := written + units, sawError || error;
      }
      PartialEmpty(bytes[source..], flush, stop);
    }

    /** Copies ASCII a word at a time from an aligned position. */
    static method CopyAsciiWords(buffer: StringBuffer, bytes: seq<Byte>, start: nat, layout: Layout)
      returns (source: nat)
      requires start <= |bytes| && layout.IsAligned(start)
      requires |buffer.contents| + |bytes| - start <= buffer.capacity
      modifies buffer
      ensures start <= source <= |bytes| && AllAscii(bytes[start..source])
      ensures buffer.contents == old(buffer.contents) + bytes[start..source]
    {
      hide AllAscii, Layout.IsAligned;
      source := start;
      NothingIsAscii(bytes, start);
      var alignedEnd := layout.AlignedEnd(|bytes|);
      while source < alignedEnd
        invariant start <= source <= |bytes| && layout.IsAligned(source) && AllAscii(bytes[start..source])
        invariant buffer.contents == old(buffer.contents) + bytes[start..source]
      {
        layout.NextWord(source, alignedEnd);
        var chunk := bytes[source..source + layout.Word()];
        if !AllAscii(chunk) {
          break;
        }
        MoreAscii(bytes, start, source, source + layout.Word());
        buffer.Append(chunk);
        source := source + layout.Word();
      }
    }

    /** Copies at least one ASCII byte, in words where the position is aligned. */
    static method CopyAscii(buffer: StringBuffer, bytes: seq<Byte>, start: nat, layout: Layout) returns (source: nat)
      requires start < |bytes| && IsAscii(bytes[start])
      requires |buffer.contents| + |bytes| - start <= buffer.capacity
      modifies buffer
      ensures start < source <= |bytes| && AllAscii(bytes[start..source])
      ensures buffer.contents == old(buffer.contents) + bytes[start..source]
    {
      source := start;
      if layout.IsAligned(source) {
        source := CopyAsciiWords(buffer, bytes, source, layout);
        if source == |bytes| || !IsAscii(bytes[source]) {
          return;
        }
      }
      buffer.Append([bytes[source]]);
      MoreAscii(bytes, start, source, source + 1);
      source := source + 1;
    }

    /** What begins the bytes at `source`, as the main loops find out; a sequence cut short is put in the buffer. */
    method Next(bytes: seq<Byte>, source: nat) returns (truncated: bool, character: int, length: nat)
      requires Sized() && partialSequenceSize == 0 && source < |bytes| && !IsAscii(bytes[source])
      modifies this, partialSequence
      ensures Sized()
      ensures var f := FrontOf(bytes[source..]);
              && truncated == f.Truncated? && Held() == (if truncated then bytes[source..] else [])
              && (f.Character? ==> character == f.c && length == f.length)
              && (f.Bad? ==> character == NON_CHARACTER && length == f.length)
    {
      truncated, character, length := false, NON_CHARACTER, 1;
      var count := NonAsciiSequenceLength(bytes[source]);
      if count != 0 {
        if count > |bytes| - source {
          truncated := true;
          Fill(bytes, source, |bytes| - source);
          assert bytes[source..source + (|bytes| - source)] == bytes[source..];
          return;
        }
        var decoded := DecodeNonAsciiSequence(bytes[source..], count);
        character, length := decoded.0, decoded.1;
      }
    }

    /** A turn of the main loop in 8 bits at a byte that is not ASCII. */
    method MainTurn8(bytes: seq<Byte>, source: nat, stop: bool)
      returns (goOn: bool, up: bool, sawError: bool, unit: int, next: nat)
      requires Sized() && partialSequenceSize == 0 && source < |bytes| && !IsAscii(bytes[source])
      modifies this, partialSequence
      ensures Sized()
      ensures var a := Main8(bytes[source..], stop);
              if goOn then partialSequenceSize == 0 && source < next <= |bytes| &&
                a == Main8(bytes[next..], stop).After([unit])
              else a == Attempt(up, [], Held(), if up then bytes[source..] else [], sawError)
    {
      hide Main8, FrontOf;
      Main8Step(bytes, source, stop);
      var truncated, character, length := Next(bytes, source);
      if truncated {
        return false, false, false, 0, source;
      }
      if character == NON_CHARACTER {
        return false, !stop, true, 0, source;
      }
      if !(0 <= character <= 0xFF) {
        return false, true, false, 0, source;
      }
      return true, false, false, character, source + length;
    }

    /** A turn of the main loop in 8 bits: a run of ASCII, one other character, or the end of the loop. */
    method MainStep8(buffer: StringBuffer, bytes: seq<Byte>, source: nat, stop: bool, layout: Layout)
      returns (goOn: bool, up: bool, sawError: bool, next: nat, ghost more: seq<int>)
      requires Sized() && partialSequenceSize == 0 && source < |bytes|
      requires |buffer.contents| + |bytes| - source <= buffer.capacity
      modifies this, partialSequence, buffer
      ensures Sized() && buffer.contents == old(buffer.contents) + more
      ensures var a := Main8(bytes[source..], stop);
              if goOn then
                && partialSequenceSize == 0 && source < next <= |bytes| && |more| <= next - source
                && a == Main8(bytes[next..], stop).After(more)
              else more == [] && a == Attempt(up, [], Held(), if up then bytes[source..] else [], sawError)
    {
      hide Main8, Main, FrontOf, AllAscii, IsLatin1;
      if IsAscii(bytes[source]) {
        next := CopyAscii(buffer, bytes, source, layout);
        AsciiRun(bytes, source, next, stop);
        return true, false, false, next, bytes[source..next];
      }
      var unit;
      goOn, up, sawError, unit, next := MainTurn8(bytes, source, stop);
      more := [];
      if goOn {
        buffer.Append([unit]);
        more := [unit];
      }
    }

    /** The main loop in 8 bits. */
    method MainLoop8(buffer: StringBuffer, bytes: seq<Byte>, start: nat, stop: bool, layout: Layout)
      returns (up: bool, sawError: bool, source: nat)
      requires Sized() && partialSequenceSize == 0 && start <= |bytes|
      requires |buffer.contents| + |bytes| - start <= buffer.capacity
      modifies this, partialSequence, buffer
      ensures Sized() && start <= source <= |bytes|
      ensures var a := Main8(bytes[start..], stop);
              && up == a.up && sawError == a.error && Held() == a.held
              && buffer.contents == old(buffer.contents) + a.units && (up ==> bytes[source..] == a.source)
    {
      hide Main8;
      source := start;
      ghost var written, all := [], Main8(bytes[start..], stop);
      AttemptAfter(all, [], []);
      while source < |bytes|
        invariant Sized() && partialSequenceSize == 0 && start <= source <= |bytes|
        invariant buffer.contents == old(buffer.contents) + written && |written| <= source - start
        invariant all == Main8(bytes[source..], stop).After(written)
      {
        var goOn, next;
        ghost var more;
        goOn, up, sawError, next, more := MainStep8(buffer, bytes, source, stop, layout);
        if !goOn {
          return;
        }
        AttemptAfter(Main8(bytes[next..], stop), more, written);
        written, source := written + more, next;
      }
      Main8OfNothing(stop);
      up, sawError := false, false;
    }

    /** A turn of the main loop in 16 bits at a byte that is not ASCII. */
    method MainTurn16(bytes: seq<Byte>, source: nat, stop: bool)
      returns (goOn: bool, units: seq<int>, sawError: bool, next: nat)
      requires Sized() && partialSequenceSize == 0 && source < |bytes| && !IsAscii(bytes[source])
      modifies this, partialSequence
      ensures Sized()
      ensures var m := Main(bytes[source..], stop);
              if goOn then
                && partialSequenceSize == 0 && source < next <= |bytes| && |units| <= next - source
                && m == Main(bytes[next..], stop).After(units, sawError)
              else m == Result([], Held(), sawError)
    {
      hide Main, FrontOf, Units;
      Main16Step(bytes, source, stop);
      var truncated, character, length := Next(bytes, source);
      if truncated {
        return false, [], false, source;
      }
      next, sawError := source + length, character == NON_CHARACTER;
      if sawError && stop {
        return false, [], true, next;
      }
      goOn, units := true, if sawError then [REPLACEMENT_CHARACTER] else Units(character);
      assert units == FrontUnits(FrontOf(bytes[source..]));
    }

    /** A turn of the main loop in 16 bits: a run of ASCII, one other character or error, or the end of the loop. */
    method MainStep16(buffer: StringBuffer, bytes: seq<Byte>, source: nat, stop: bool, layout: Layout)
      returns (goOn: bool, sawError: bool, next: nat, ghost more: seq<int>)
      requires Sized() && partialSequenceSize == 0 && source < |bytes|
      requires |buffer.contents| + |bytes| - source <= buffer.capacity
      modifies this, partialSequence, buffer
      ensures Sized() && buffer.contents == old(buffer.contents) + more
      ensures var m := Main(bytes[source..], stop);
              if goOn then
                && partialSequenceSize == 0 && source < next <= |bytes| && |more| <= next - source
                && m == Main(bytes[next..], stop).After(more, sawError)
              else more == [] && m == Result([], Held(), sawError)
    {
      hide Main8, Main, FrontOf, AllAscii;
      if IsAscii(bytes[source]) {
        next := CopyAscii(buffer, bytes, source, layout);
        AsciiRun(bytes, source, next, stop);
        return true, false, next, bytes[source..next];
      }
      var units;
      goOn, units, sawError, next := MainTurn16(bytes, source, stop);
      more := [];
      if goOn {
        buffer.Append(units);
        more := units;
      }
    }

    /** The main loop in 16 bits. */
    method MainLoop16(buffer: StringBuffer, bytes: seq<Byte>, start: nat, stop: bool, layout: Layout)
      returns (sawError: bool)
      requires Sized() && partialSequenceSize == 0 && start <= |bytes|
      requires |buffer.contents| + |bytes| - start <= buffer.capacity
      modifies this, partialSequence, buffer
      ensures Sized()
      ensures var m := Main(bytes[start..], stop);
              && sawError == m.error && Held() == m.held && buffer.contents == old(buffer.contents) + m.units
    {
      hide Main;
      var source := start;
      sawError := false;
      ghost var written, all := [], Main(bytes[start..], stop);
      ResultAfter(all, [], false, [], false);
      while source < |bytes|
        invariant Sized() && partialSequenceSize == 0 && start <= source <= |bytes|
        invariant buffer.contents == old(buffer.contents) + written && |written| <= source - start
        invariant all == Main(bytes[source..], stop).After(written, sawError)
      {
        var goOn, error, next;
        ghost var more;
        goOn, error, next, more := MainStep16(buffer, bytes, source, stop, layout);
        ResultAfter(Main(bytes[source..], stop), [], false, written, sawError);
        if !goOn {
          sawError := sawError || error;
          return;
        }
        ResultAfter(Main(bytes[next..], stop), more, error, written, sawError);
        written, sawError, source := written + more, sawError || error, next;
      }
      MainOfNothing(stop);
    }

    /** One round of the part of a call that works in 16 bits; `again` asks for another one. */
    method Round16(buffer: StringBuffer, bytes: seq<Byte>, start: nat, flush: bool, stop: bool, layout: Layout)
      returns (again: bool, sawError: bool, ghost written: seq<int>)
      requires Sized() && start <= |bytes|
      requires |buffer.contents| + partialSequenceSize + |bytes| - start <= buffer.capacity
      modifies this, partialSequence, buffer
      ensures Sized() && buffer.contents == old(buffer.contents) + written
      ensures again ==> flush && partialSequenceSize > 0
      ensures |written| + partialSequenceSize <= old(partialSequenceSize) + |bytes| - start
      ensures again ==>
        old(partialSequenceSize) > 0 ==> partialSequenceSize < old(partialSequenceSize) + |bytes| - start
      ensures Wide(old(Held()), bytes[start..], flush, stop)
           == if again then Wide(Held(), [], flush, stop).After(written, sawError)
              else Result(written, Held(), sawError)
    {
      hide Wide, Main, Partial;
      WideRound(Held(), bytes[start..], flush, stop);
      ghost var p := Partial(Held(), bytes[start..], flush, stop);
      PartialEmpty(bytes[start..], flush, stop);
      var source := start;
      sawError := false;
      if partialSequenceSize > 0 {
        sawError, source := HandlePartialSequence16(buffer, bytes, source, flush, stop);
        if partialSequenceSize > 0 {
          return false, sawError, p.units;
        }
      }
      ghost var m := Main(bytes[source..], stop);
      var error := MainLoop16(buffer, bytes, source, stop, layout);
      return flush && partialSequenceSize > 0, sawError || error, p.units + m.units;
    }

    /** The part of a call that works in 16 bits. */
    method Decode16(buffer: StringBuffer, bytes: seq<Byte>, start: nat, flush: bool, stop: bool, layout: Layout)
      returns (sawError: bool)
      requires Sized() && start <= |bytes|
      requires |buffer.contents| + partialSequenceSize + |bytes| - start <= buffer.capacity
      modifies this, partialSequence, buffer
      ensures Sized()
      ensures var r := Wide(old(Held()), bytes[start..], flush, stop);
              && sawError == r.error && Held() == r.held && buffer.contents == old(buffer.contents) + r.units
    {
      hide Wide;
      var source, again := start, true;
      sawError := false;
      ghost var written := [];
      ghost var all := Wide(Held(), bytes[start..], flush, stop);
      ResultAfter(all, [], false, [], false);
      while again
        invariant Sized() && start <= source <= |bytes| && buffer.contents == old(buffer.contents) + written
        invariant |written| + partialSequenceSize + |bytes| - source <= old(partialSequenceSize) + |bytes| - start
        invariant again ==> all == Wide(Held(), bytes[source..], flush, stop).After(written, sawError)
        invariant !again ==> all == Result(written, Held(), sawError)
        decreases again, partialSequenceSize + |bytes| - source, if partialSequenceSize == 0 then 1 else 0
      {
        var error;
        ghost var more;
        again, error, more := Round16(buffer, bytes, source, flush, stop, layout);
        source := |bytes|;
        assert bytes[source..] == [];
        ResultAfter(Wide(Held(), [], flush, stop), more, error, written, sawError);
        written, sawError := written + more, sawError || error;
      }
    }

    /** One round of the part of a call that works in 8 bits. */
    method Round8(buffer: StringBuffer, bytes: seq<Byte>, start: nat, flush: bool, stop: bool, layout: Layout)
      returns (round: Round, sawError: bool, source: nat, ghost written: seq<int>)
      requires Valid() && start <= |bytes|
      requires |buffer.contents| + partialSequenceSize + |bytes| - start <= buffer.capacity
      modifies this, partialSequence, buffer
      ensures Sized() && buffer.contents == old(buffer.contents) + written && start <= source <= |bytes|
      ensures var r := Decode(old(Held()), bytes[start..], flush, stop);
              match round
              case Finished => r == Result(written, Held(), sawError)
              case Again => flush && partialSequenceSize > 0 &&
                r == Decode(Held(), [], flush, stop).After(written, sawError)
              case UpConvert => r == Wide(Held(), bytes[source..], flush, stop).After(written, sawError)
      ensures round == Again ==> |written| + partialSequenceSize <= |bytes| - start && CanBeHeld(Held())
      ensures round == UpConvert ==> |written| <= source - start
    {
      hide Decode, Wide, Main8, Partial8, CanBeHeld;
      DecodeRound(Held(), bytes[start..], flush, stop);
      Partial8Empty(bytes[start..], flush);
      ghost var p := Partial8(Held(), bytes[start..], flush);
      ResultAfter(Wide(p.held, p.source, flush, stop), [], false, [], false);
      source := start;
      if partialSequenceSize > 0 {
        CompletedFits(Held(), bytes[start..], flush);
        var up;
        var mark := |buffer.contents|;
        up, source := HandlePartialSequence8(buffer, bytes, source, flush);
        if up {
          buffer.Rewind(mark);
          return UpConvert, false, source, [];
        }
        if partialSequenceSize > 0 {
          return Finished, false, source, p.units;
        }
      }
      ghost var m := Main8(bytes[source..], stop);
      MainHolds(bytes[source..], stop);
      var up;
      up, sawError, source := MainLoop8(buffer, bytes, source, stop, layout);
      written := p.units + m.units;
      round := if up then UpConvert else if flush && partialSequenceSize > 0 then Again else Finished;
    }

    /** Goes on in 16 bits, in a second buffer that begins with the code units found so far. */
    method GoOnIn16Bits(units8: seq<int>, error8: bool, bytes: seq<Byte>, source: nat, flush: bool, stop: bool,
                        layout: Layout)
      returns (units: seq<int>, sawError: bool)
      requires Sized() && |units8| <= source <= |bytes|
      modifies this, partialSequence
      ensures Sized()
      ensures Result(units, Held(), sawError) == Wide(old(Held()), bytes[source..], flush, stop).After(units8, error8)
    {
      hide Wide;
      var buffer := new StringBuffer(partialSequenceSize + |bytes|);
      buffer.Append(units8);
      var error := Decode16(buffer, bytes, source, flush, stop, layout);
      return buffer.contents, error8 || error;
    }

    /** Decodes the bytes of a call. With `flush` no more bytes follow; with `stop` decoding ends at the first error. */
    method DecodeCall(bytes: seq<Byte>, flush: bool, stop: bool, layout: Layout)
      returns (units: seq<int>, sawError: bool)
      requires Valid()
      modifies this, partialSequence
      ensures Valid() && Result(units, Held(), sawError) == Decode(old(Held()), bytes, flush, stop)
      ensures WellFormedUtf16(units)
    {
      hide Decode, Wide, CanBeHeld, Result.After, WellFormedUtf16;
      ghost var all := Decode(Held(), bytes, flush, stop);
      DecodeHolds(Held(), bytes, flush, stop);
      DecodeIsWide(Held(), bytes, flush, stop);
      WideIsUtf16(Held(), bytes, flush, stop);
      ResultAfter(all, [], false, [], false);
      assert bytes[0..] == bytes;
      var buffer := new StringBuffer(partialSequenceSize + |bytes|);
      var start, round := 0, Again;
      sawError := false;
      while round == Again
        invariant fresh(buffer) && start <= |bytes| && round != UpConvert && Sized()
        invariant round == Again ==>
          Valid() && all == Decode(Held(), bytes[start..], flush, stop).After(buffer.contents, sawError)
        invariant round == Again ==> |buffer.contents| + partialSequenceSize + |bytes| - start <= buffer.capacity
        invariant round == Again ==> |buffer.contents| <= start
        invariant round == Finished ==> all == Result(buffer.contents, Held(), sawError)
        decreases round == Again, partialSequenceSize + |bytes| - start, if partialSequenceSize == 0 then 1 else 0
      {
        ghost var before := buffer.contents;
        var error, source;
        ghost var more;
        round, error, source, more := Round8(buffer, bytes, start, flush, stop, layout);
        ResultAfter(Wide(Held(), bytes[source..], flush, stop), more, error, before, sawError);
        ResultAfter(Decode(Held(), [], flush, stop), more, error, before, sawError);
        FinishedAfter(Held(), more, error, before, sawError);
        sawError := sawError || error;
        if round == UpConvert {
          units, sawError := GoOnIn16Bits(buffer.contents, sawError, bytes, source, flush, stop, layout);
          return;
        }
        start := |bytes|;
        assert bytes[start..] == [];
      }
      units := buffer.contents;
    }
  }
}
