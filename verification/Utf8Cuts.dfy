/** On exactly which bytes it makes no difference how they are cut into calls. */
module Utf8Cuts {
  import opened Basics
  import opened Utf8
  import opened Utf8Codec
  import opened Utf8Streams

  // ----- What successive calls decode is a patch of the bytes

  /** A lead byte of four followed by a whole two-byte character: the one thing that leaves a byte behind a character in
      the buffer. It is ill-formed. */
  predicate LeftoverAt(s: seq<Byte>, i: nat)
    requires i + 2 < |s|
  {
    0xF0 <= s[i] <= 0xF4 && 0xC2 <= s[i + 1] <= 0xDF && IsTrail(s[i + 2])
  }

  /** At some leftovers the byte after the character gives way to the character's first byte; all else is the same. */
  ghost predicate PatchOf(p: seq<Byte>, s: seq<Byte>) {
    && |p| == |s|
    && forall j {:trigger p[j]} :: 0 <= j < |s| ==> p[j] == s[j] || (j >= 3 && LeftoverAt(s, j - 3) && p[j] == s[j - 2])
  }

  lemma LeftoverOfPatch(p: seq<Byte>, s: seq<Byte>, k: nat)
    requires PatchOf(p, s) && k + 2 < |s| && LeftoverAt(p, k)
    ensures LeftoverAt(s, k) && p[k + 1] == s[k + 1]
  {
    assert p[k] == s[k] && p[k + 1] == s[k + 1] && p[k + 2] == s[k + 2];
  }

  lemma PatchOfPatch(p: seq<Byte>, q: seq<Byte>, s: seq<Byte>)
    requires PatchOf(p, q) && PatchOf(q, s)
    ensures PatchOf(p, s)
  {
    hide LeftoverAt;
    forall j | 0 <= j < |s|
      ensures p[j] == s[j] || (j >= 3 && LeftoverAt(s, j - 3) && p[j] == s[j - 2])
    {
      if p[j] != q[j] {
        LeftoverOfPatch(q, s, j - 3);
      }
    }
  }

  /** A patch stays one with the same bytes in front and behind. */
  lemma PatchWithin(a: seq<Byte>, p: seq<Byte>, s: seq<Byte>, b: seq<Byte>)
    requires PatchOf(p, s)
    ensures PatchOf(a + p + b, a + s + b)
  {
    var q, t := a + p + b, a + s + b;
    forall j | 0 <= j < |t|
      ensures q[j] == t[j] || (j >= 3 && LeftoverAt(t, j - 3) && q[j] == t[j - 2])
    {
      if |a| <= j < |a| + |s| && q[j] != t[j] {
        var k := j - |a|;
        assert p[k] != s[k] && LeftoverAt(s, k - 3);
        assert t[j - 3] == s[k - 3] && t[j - 2] == s[k - 2] && t[j - 1] == s[k - 1];
      }
    }
  }

  /** `before` are the bytes that came out of the buffer already. */
  predicate BufferSafe(before: seq<Byte>, held: seq<Byte>) {
    && |held| <= 3
    && (|held| == 3 && NonAsciiSequenceLength(held[0]) == 2 ==> before != [] && 0xF0 <= before[|before| - 1] <= 0xF4)
  }

  predicate Filled(before: seq<Byte>, held: seq<Byte>)
    requires held != []
  {
    BufferSafe(before, held) || |held| == NonAsciiSequenceLength(held[0])
  }

  lemma NextBufferSafe(before: seq<Byte>, held: seq<Byte>)
    requires held != [] && Filled(before, held) && !FrontOf(held).Truncated?
    ensures BufferSafe(before + held[..FrontOf(held).length], held[FrontOf(held).length..])
  {
  }

  lemma {:induction false} PatchedIsPatch(before: seq<Byte>, held: seq<Byte>, source: seq<Byte>)
    requires BufferSafe(before, held)
    ensures PatchOf(before + Patched(held, source), before + held + source)
    decreases |held| + |source|, 1
  {
    hide PatchOf, PatchedOn;
    if held == [] {
      assert before + held + source == before + source;
      PatchOfItself(before + source);
    } else if FrontOf(held).Truncated? {
      var missing := NonAsciiSequenceLength(held[0]) - |held|;
      assert before + (held + source) == before + held + source;
      if missing > |source| {
        PatchOfItself(before + held + source);
      } else {
        var filled, rest := held + source[..missing], source[missing..];
        FilledUp(held, filled);
        assert before + held + source == before + filled + rest;
        PatchedOnIsPatch(before, filled, rest);
      }
    } else {
      PatchedOnIsPatch(before, held, source);
    }
  }

  lemma PatchOfItself(s: seq<Byte>)
    ensures PatchOf(s, s)
  {
  }

  lemma {:induction false} PatchedOnIsPatch(before: seq<Byte>, held: seq<Byte>, source: seq<Byte>)
    requires held != [] && !FrontOf(held).Truncated? && Filled(before, held)
    ensures PatchOf(before + PatchedOn(held, source), before + held + source)
    decreases |held| + |source|, 0
  {
    hide FrontOf, BufferSafe, PatchOf, Patched;
    var n := FrontOf(held).length;
    var done := before + held[..n];
    NextBufferSafe(before, held);
    if FrontOf(held).Character? && n > 1 && n < |held| {
      LeftoverStep(before, held, source);
      PatchedIsPatch(done, held[..1], source);
      PatchOfPatch(done + Patched(held[..1], source), done + held[..1] + source, before + held + source);
      assert before + (held[..n] + Patched(held[..1], source)) == done + Patched(held[..1], source);
    } else {
      assert FrontOf(held).Character? ==> AfterCharacter(held, n) == held[n..];
      PatchedIsPatch(done, held[n..], source);
      assert done + held[n..] + source == before + held + source;
      assert before + (held[..n] + Patched(held[n..], source)) == done + Patched(held[n..], source);
    }
  }

  /** The one way in which a byte is left behind a character, and what stands in the buffer then. */
  lemma LeftoverStep(before: seq<Byte>, held: seq<Byte>, source: seq<Byte>)
    requires held != [] && Filled(before, held) && FrontOf(held).Character? && 1 < FrontOf(held).length < |held|
    ensures FrontOf(held).length == 2 && AfterCharacter(held, 2) == held[..1] &&
      BufferSafe(before + held[..2], held[..1])
    ensures PatchOf(before + held[..2] + held[..1] + source, before + held + source)
  {
    assert |held| == 3 && FrontOf(held).length == 2;
    var s, p := before + held + source, before + held[..2] + held[..1] + source;
    var i := |before| - 1;
    assert s[i] == before[i] && s[i + 1] == held[0] && s[i + 2] == held[1];
    assert LeftoverAt(s, i);
    assert p == s[i + 3 := s[i + 1]];
  }

  /** What successive calls give is what the main loop gives on a patch of all the bytes. */
  lemma {:induction false} RunIsMainOnPatch(held: seq<Byte>, chunks: seq<seq<Byte>>) returns (p: seq<Byte>)
    requires chunks != [] && (held != [] ==> FrontOf(held).Truncated?)
    ensures PatchOf(p, held + Concat(chunks)) && Run(held, chunks) == Closed(Main(p, false), true)
    decreases |chunks|
  {
    hide FrontOf, Decode, Main, Patched, PatchOf;
    var w := Patched(held, chunks[0]);
    CallIsMainOnPatched(held, chunks[0], |chunks| == 1);
    if |chunks| == 1 {
      assert Concat(chunks[1..]) == [];
      assert held + Concat(chunks) == held + chunks[0];
      p := w;
    } else {
      var m := Main(w, false);
      var rest := RunIsMainOnPatch(m.held, chunks[1..]);
      PatchGoesOn(held + chunks[0], w, Concat(chunks[1..]), rest);
      p := w + rest[|m.held|..];
      assert held + Concat(chunks) == held + chunks[0] + Concat(chunks[1..]);
      ClosedAfter(Main(rest, false), true, m.units, m.error);
    }
  }

  lemma CallIsMainOnPatched(held: seq<Byte>, source: seq<Byte>, flush: bool)
    requires held != [] ==> FrontOf(held).Truncated?
    ensures Decode(held, source, flush, false) == Closed(Main(Patched(held, source), false), flush)
    ensures PatchOf(Patched(held, source), held + source)
  {
    hide Decode, Main, Patched, PatchOf, Wide;
    DecodeIsWide(held, source, flush, false);
    WideIsMainOnPatched(held, source, flush);
    PatchedIsPatch([], held, source);
    assert [] + Patched(held, source) == Patched(held, source) && [] + held + source == held + source;
  }

  /** Patches of what one call decoded, and of what it held with the bytes that follow, make up a patch of
      everything. */
  lemma PatchGoesOn(s: seq<Byte>, w: seq<Byte>, b: seq<Byte>, rest: seq<Byte>)
    requires PatchOf(w, s) && PatchOf(rest, Main(w, false).held + b)
    ensures var held := Main(w, false).held;
      && |held| <= |rest| && PatchOf(w + rest[|held|..], s + b)
      && Main(w + rest[|held|..], false) == Main(rest, false).After(Main(w, false).units, Main(w, false).error)
  {
    hide Main, FrontOf, PatchOf;
    var held := Main(w, false).held;
    MainHoldsSuffix(w);
    HeldStays(held, b, rest);
    MainSplits(w, rest[|held|..]);
    PatchJoins(s, w, b, rest, held);
  }

  lemma PatchJoins(s: seq<Byte>, w: seq<Byte>, b: seq<Byte>, rest: seq<Byte>, held: seq<Byte>)
    requires PatchOf(w, s) && PatchOf(rest, held + b) && IsSuffix(held, w) && |held| <= |rest| &&
      rest == held + rest[|held|..]
    ensures PatchOf(w + rest[|held|..], s + b)
  {
    hide PatchOf;
    var u := w[..|w| - |held|];
    PatchWithin(u, rest, held + b, []);
    Regrouped(u, held, rest[|held|..]);
    Regrouped(u, held, b);
    assert w == u + held;
    PatchWithin([], w, s, b);
    assert [] + w + b == w + b && [] + s + b == s + b;
    PatchOfPatch(w + rest[|held|..], w + b, s + b);
  }

  lemma Regrouped(u: seq<Byte>, held: seq<Byte>, b: seq<Byte>)
    ensures u + (held + b) + [] == (u + held) + b
  {
  }

  lemma HeldStays(held: seq<Byte>, b: seq<Byte>, rest: seq<Byte>)
    requires |held| <= 3 && PatchOf(rest, held + b)
    ensures |held| <= |rest| && rest == held + rest[|held|..]
  {
    assert forall j :: 0 <= j < |held| ==> rest[j] == (held + b)[j] == held[j];
  }

  // ----- What a patch at one leftover changes

  lemma FrontStopsBefore(s: seq<Byte>, k: nat)
    requires 0 < k && k + 2 < |s| && 0xF0 <= s[k]
    ensures !FrontOf(s).Truncated? && FrontOf(s).length <= k
  {
  }

  /** Up to the end of a leftover's character, the main loop ends up holding the leftover. */
  lemma {:induction false} MainHoldsLeftover(a: seq<Byte>)
    requires |a| >= 3 && LeftoverAt(a, |a| - 3)
    ensures Main(a, false).held == a[|a| - 3..]
    decreases |a|
  {
    hide FrontOf;
    if |a| == 3 {
      LeftoverIsTruncated(a);
    } else {
      FrontStopsBefore(a, |a| - 3);
      var n := FrontOf(a).length;
      assert a[n..][|a| - n - 3..] == a[|a| - 3..];
      MainHoldsLeftover(a[n..]);
      MainStep(a);
    }
  }

  lemma LeftoverIsTruncated(a: seq<Byte>)
    requires |a| == 3 && LeftoverAt(a, 0)
    ensures FrontOf(a).Truncated?
  {
  }

  /** The code units of the bytes up to the end of a leftover's character. */
  function UnitsTo(a: seq<Byte>): seq<int>
    requires |a| >= 3 && LeftoverAt(a, |a| - 3)
  {
    Main(a, false).units + [REPLACEMENT_CHARACTER, FrontOf(a[|a| - 2..]).c]
  }

  lemma LeftoverFronts(s: seq<Byte>)
    requires |s| >= 4 && LeftoverAt(s, 0)
    ensures FrontOf(s) == Bad(1) && FrontOf(s[1..3]).Character?
    ensures FrontOf(s[1..]) == FrontOf(s[1..3]) && FrontOf(s[1..]).length == 2
    ensures FrontUnits(FrontOf(s[1..])) == [FrontOf(s[1..3]).c]
  {
    TwoByteFront(s[1..3]);
    TwoByteFront(s[1..]);
  }

  lemma MainPastFour(s: seq<Byte>)
    requires |s| >= 4 && LeftoverAt(s, 0)
    ensures FrontOf(s[1..3]).Character?
    ensures Main(s, false) == Main(s[3..], false).After([REPLACEMENT_CHARACTER, FrontOf(s[1..3]).c], true)
  {
    hide Main, FrontOf;
    LeftoverFronts(s);
    MainStep(s);
    MainStep(s[1..]);
    assert s[1..][2..] == s[3..];
    assert [REPLACEMENT_CHARACTER] + ([FrontOf(s[1..3]).c] + Main(s[3..], false).units)
        == [REPLACEMENT_CHARACTER, FrontOf(s[1..3]).c] + Main(s[3..], false).units;
  }

  /** Behind a leftover's character the main loop starts anew. */
  lemma MainPastLeftover(a: seq<Byte>, b: seq<Byte>)
    requires |a| >= 3 && LeftoverAt(a, |a| - 3) && b != []
    ensures Main(a + b, false) == Main(b, false).After(UnitsTo(a), true)
  {
    hide Main, FrontOf;
    var m, held := Main(a, false), a[|a| - 3..];
    MainHoldsLeftover(a);
    MainSplits(a, b);
    MainPastFour(held + b);
    assert (held + b)[1..3] == a[|a| - 2..] && (held + b)[3..] == b;
    ResultAfter(Main(b, false), [REPLACEMENT_CHARACTER, FrontOf(a[|a| - 2..]).c], true, m.units, m.error);
  }

  /** Whether a byte before `rest` decodes as the first byte of a two-byte character would in its place. */
  predicate Alike(lead: Byte, x: Byte, rest: seq<Byte>) {
    x == lead || (!IsAscii(x) && (rest == [] || (!IsTrail(rest[0]) && NonAsciiSequenceLength(x) <= |rest| + 1)))
  }

  ghost function ClosedUnits(s: seq<Byte>): seq<int> {
    Closed(Main(s, false), true).units
  }

  lemma ClosedStep(s: seq<Byte>)
    requires s != []
    ensures FrontOf(s).Truncated? ==> ClosedUnits(s) == [REPLACEMENT_CHARACTER]
    ensures !FrontOf(s).Truncated? ==> ClosedUnits(s) == FrontUnits(FrontOf(s)) + ClosedUnits(s[FrontOf(s).length..])
    ensures ClosedUnits(s) != []
  {
    hide FrontOf, Units;
    if !FrontOf(s).Truncated? {
      MainStep(s);
      var f := FrontOf(s);
      ClosedAfter(Main(s[f.length..], false), true, FrontUnits(f), f.Bad?);
    }
  }

  lemma LeadAlone(lead: Byte, rest: seq<Byte>)
    requires 0xC2 <= lead <= 0xDF && (rest == [] || !IsTrail(rest[0]))
    ensures ClosedUnits([lead] + rest) == [REPLACEMENT_CHARACTER] + ClosedUnits(rest)
  {
    hide ClosedUnits;
    var s := [lead] + rest;
    assert rest == [] || s[1] == rest[0];
    ClosedStep(s);
    if rest == [] {
      NothingCloses();
    } else {
      assert FrontOf(s) == Bad(1) && s[1..] == rest;
    }
  }

  lemma NothingCloses()
    ensures ClosedUnits([]) == []
  {
  }

  lemma AlikeAlone(x: Byte, rest: seq<Byte>)
    requires !IsAscii(x) && (rest == [] || (!IsTrail(rest[0]) && NonAsciiSequenceLength(x) <= |rest| + 1))
    ensures ClosedUnits([x] + rest) == [REPLACEMENT_CHARACTER] + ClosedUnits(rest)
  {
    hide ClosedUnits;
    var s := [x] + rest;
    assert rest == [] || s[1] == rest[0];
    ClosedStep(s);
    assert s[1..] == rest;
    if rest == [] {
      NothingCloses();
      assert s == [x];
      if NonAsciiSequenceLength(x) == 0 {
        assert FrontOf(s) == Bad(1);
      }
    } else {
      assert FrontOf(s) == Bad(1);
    }
  }

  /** What is not alike decodes differently: as something else than a replacement character, or as nothing more. */
  lemma NotAlikeDiffers(lead: Byte, x: Byte, rest: seq<Byte>)
    requires 0xC2 <= lead <= 0xDF && !Alike(lead, x, rest)
    ensures ClosedUnits([x] + rest) != ClosedUnits([lead] + rest)
  {
    hide ClosedUnits;
    var s, t := [x] + rest, [lead] + rest;
    assert rest == [] || (s[1] == rest[0] && t[1] == rest[0]);
    assert s[0] == x && t[0] == lead;
    ClosedStep(s);
    if rest != [] && IsTrail(rest[0]) {
      ClosedStep(t);
      TwoByteFront(t);
      FirstUnitDiffers(s, t);
      assert ClosedUnits(t)[0] == FrontUnits(FrontOf(t))[0];
      if !FrontOf(s).Truncated? {
        assert ClosedUnits(s)[0] == FrontUnits(FrontOf(s))[0];
      }
    } else {
      LeadAlone(lead, rest);
      if IsAscii(x) {
        assert FrontOf(s) == Character(x, 1);
        assert ClosedUnits(s)[0] == x;
      } else {
        assert FrontOf(s).Truncated?;
        ClosedStep(rest);
        assert |ClosedUnits(s)| == 1;
      }
    }
  }

  lemma TwoByteFront(t: seq<Byte>)
    requires |t| >= 2 && 0xC2 <= t[0] <= 0xDF && IsTrail(t[1])
    ensures 0x40 * (t[0] as int) + t[1] - 0x3080 <= 0x7FF
    ensures FrontOf(t) == Character(0x40 * (t[0] as int) + t[1] - 0x3080, 2) &&
      FrontUnits(FrontOf(t)) == [0x40 * (t[0] as int) + t[1] - 0x3080]
  {
  }

  lemma FirstUnitDiffers(s: seq<Byte>, t: seq<Byte>)
    requires |s| >= 2 && |t| >= 2 && s[0] != t[0] && s[1] == t[1] && IsTrail(t[1]) && 0xC2 <= t[0] <= 0xDF
    ensures !FrontOf(s).Truncated? ==> FrontUnits(FrontOf(s))[0] != 0x40 * (t[0] as int) + t[1] - 0x3080
  {
    var f := FrontOf(s);
    if f.Character? && NonAsciiSequenceLength(s[0]) >= 3 {
      LongIsLarge(s);
    }
  }

  lemma LongIsLarge(s: seq<Byte>)
    requires s != [] && NonAsciiSequenceLength(s[0]) >= 3 && FrontOf(s).Character?
    ensures FrontUnits(FrontOf(s))[0] > 0x7FF
  {
  }

  /** A patch at one leftover changes nothing exactly if its two bytes are alike before the rest. */
  lemma PatchAtOne(a: seq<Byte>, x: Byte, rest: seq<Byte>)
    requires |a| >= 3 && LeftoverAt(a, |a| - 3)
    ensures Closed(Main(a + ([a[|a| - 2]] + rest), false), true) == Closed(Main(a + ([x] + rest), false), true)
       <==> Alike(a[|a| - 2], x, rest)
  {
    hide Main, FrontOf, UnitsTo;
    var lead := a[|a| - 2];
    var s, t := [x] + rest, [lead] + rest;
    MainPastLeftover(a, s);
    MainPastLeftover(a, t);
    ClosedAfter(Main(s, false), true, UnitsTo(a), true);
    ClosedAfter(Main(t, false), true, UnitsTo(a), true);
    SamePrefix(UnitsTo(a), ClosedUnits(s), ClosedUnits(t));
    if Alike(lead, x, rest) {
      if x != lead {
        AlikeAlone(x, rest);
        LeadAlone(lead, rest);
      }
    } else {
      NotAlikeDiffers(lead, x, rest);
    }
  }

  lemma SamePrefix(u: seq<int>, a: seq<int>, b: seq<int>)
    ensures u + a == u + b <==> a == b
  {
    if u + a == u + b {
      assert a == (u + a)[|u|..] == b;
    }
  }

  // ----- When cuts matter

  /** A leftover before a byte that does not decode as the byte put in its place. */
  predicate HarmfulAt(s: seq<Byte>, i: nat)
    requires i + 3 < |s|
  {
    LeftoverAt(s, i) && !Alike(s[i + 1], s[i + 3], s[i + 4..])
  }

  ghost predicate HasHarmful(s: seq<Byte>) {
    exists i :: 0 <= i && i + 3 < |s| && HarmfulAt(s, i)
  }

  /** The bytes of `s` up to `n`, then those of its patch. */
  ghost function Mixed(p: seq<Byte>, s: seq<Byte>, n: nat): seq<Byte>
    requires |p| == |s| && n <= |s|
  {
    s[..n] + p[n..]
  }

  lemma OneByteMore(p: seq<Byte>, s: seq<Byte>, n: nat)
    requires PatchOf(p, s) && n < |s| && (n >= 3 && p[n] != s[n] ==> !HarmfulAt(s, n - 3))
    ensures Closed(Main(Mixed(p, s, n), false), true) == Closed(Main(Mixed(p, s, n + 1), false), true)
  {
    hide Main;
    if p[n] == s[n] {
      assert Mixed(p, s, n) == Mixed(p, s, n + 1);
    } else {
      var a, rest := s[..n], p[n + 1..];
      assert LeftoverAt(s, n - 3) && LeftoverAt(a, |a| - 3) && a[|a| - 2] == s[n - 2];
      assert rest != [] ==> p[n + 1] == s[n + 1];
      assert Alike(s[n - 2], s[n], s[n + 1..]) && Alike(s[n - 2], s[n], rest);
      PatchAtOne(a, s[n], rest);
      assert Mixed(p, s, n) == a + ([s[n - 2]] + rest) && Mixed(p, s, n + 1) == a + ([s[n]] + rest);
    }
  }

  /** Patches at leftovers that are not harmful change nothing. */
  lemma {:induction false} HarmlessPatch(p: seq<Byte>, s: seq<Byte>, n: nat)
    requires PatchOf(p, s) && n <= |s|
    requires forall j :: n <= j < |s| && j >= 3 && p[j] != s[j] ==> !HarmfulAt(s, j - 3)
    ensures Closed(Main(Mixed(p, s, n), false), true) == Closed(Main(s, false), true)
    decreases |s| - n
  {
    hide Main, PatchOf, HarmfulAt, Mixed;
    if n < |s| {
      HarmlessPatch(p, s, n + 1);
      OneByteMore(p, s, n);
    } else {
      PatchLength(p, s);
      MixedEnd(p, s);
    }
  }

  lemma MixedEnd(p: seq<Byte>, s: seq<Byte>)
    requires |p| == |s|
    ensures Mixed(p, s, |s|) == s && Mixed(p, s, 0) == p
  {
  }

  /** Without a harmful leftover, every way of cutting the bytes gives the result of one flushed call on all of them. */
  lemma CutsChangeNothing(chunks: seq<seq<Byte>>)
    requires chunks != [] && !HasHarmful(Concat(chunks))
    ensures Run([], chunks) == Decode([], Concat(chunks), true, false)
    ensures Run([], chunks).held == []
  {
    hide Main, Decode, Run, PatchOf, Mixed;
    var s := Concat(chunks);
    var p := RunIsMainOnPatch([], chunks);
    assert [] + s == s;
    PatchLength(p, s);
    HarmlessPatch(p, s, 0);
    MixedEnd(p, s);
    FreshDecode(s);
  }

  lemma PatchLength(p: seq<Byte>, s: seq<Byte>)
    requires PatchOf(p, s)
    ensures |p| == |s|
  {
  }

  /** Held after a cut behind the character of a leftover, the next byte is lost. */
  lemma CallAfterCut(a: seq<Byte>, x: Byte, rest: seq<Byte>) returns (p: seq<Byte>)
    requires |a| >= 3 && LeftoverAt(a, |a| - 3)
    ensures |p| == |rest| + 1 && p[0] == a[|a| - 2] && PatchOf(a + p, a + [a[|a| - 2]] + rest)
    ensures Run([], [a, [x] + rest]) == Closed(Main(a + p, false), true)
  {
    hide Main, Decode, Patched, Run, PatchOf, FrontOf, UnitsTo, Wide;
    var held, lead := a[|a| - 3..], a[|a| - 2];
    p := Patched([lead], rest);
    PatchedIsPatch(a, [lead], rest);
    MainHoldsLeftover(a);
    var m := Main(a, false);
    DecodeIsWide([], a, false, false);
    WideOfFresh(a, false);
    RunOfTwo(a, [x] + rest);
    LeftoverIsTruncated(held);
    CallIsMainOnPatched(held, [x] + rest, true);
    PatchedByCut(held, x, rest);
    MainSplits(a, p);
    ClosedAfter(Main(held + p, false), true, m.units, m.error);
  }

  lemma PatchedByCut(held: seq<Byte>, x: Byte, rest: seq<Byte>)
    requires |held| == 3 && LeftoverAt(held, 0)
    ensures Patched(held, [x] + rest) == held + Patched([held[1]], rest)
  {
    hide Patched;
    var source, filled := [x] + rest, held + [x];
    assert source[..1] == [x] && source[1..] == rest;
    PatchedFill(held, source, 1);
    assert FrontOf(filled) == Bad(1);
    var tail := filled[1..];
    assert tail == [held[1], held[2], x];
    assert FrontOf(tail).Character? && FrontOf(tail).length == 2 && AfterCharacter(tail, 2) == [held[1]];
    PatchedWhole(tail, rest);
    assert PatchedOn(filled, rest) == filled[..1] + Patched(tail, rest);
    assert filled[..1] + (tail[..2] + Patched([held[1]], rest)) == held + Patched([held[1]], rest);
  }

  lemma PatchedFill(held: seq<Byte>, source: seq<Byte>, missing: nat)
    requires held != [] && FrontOf(held).Truncated? && missing == NonAsciiSequenceLength(held[0]) - |held| <= |source|
    ensures !FrontOf(held + source[..missing]).Truncated?
    ensures Patched(held, source) == PatchedOn(held + source[..missing], source[missing..])
  {
    FilledUp(held, held + source[..missing]);
  }

  lemma PatchedWhole(held: seq<Byte>, source: seq<Byte>)
    requires held != [] && !FrontOf(held).Truncated?
    ensures Patched(held, source) == PatchedOn(held, source)
  {
  }

  lemma LastHarmful(s: seq<Byte>) returns (i: nat)
    requires HasHarmful(s)
    ensures i + 3 < |s| && HarmfulAt(s, i)
    ensures forall j :: i < j && j + 3 < |s| ==> !HarmfulAt(s, j)
  {
    hide HarmfulAt;
    i :| i + 3 < |s| && HarmfulAt(s, i);
    var n := |s|;
    while n > i + 1
      invariant i < n && i + 3 < |s| && HarmfulAt(s, i)
      invariant forall j :: n <= j && j + 3 < |s| ==> !HarmfulAt(s, j)
      decreases n
    {
      n := n - 1;
      if n + 3 < |s| && HarmfulAt(s, n) {
        i := n;
        return;
      }
    }
  }

  /** With one, the cut behind the last one's character gives another result. */
  lemma HarmfulCut(s: seq<Byte>) returns (chunks: seq<seq<Byte>>)
    requires HasHarmful(s)
    ensures chunks != [] && Concat(chunks) == s && Run([], chunks) != Decode([], s, true, false)
  {
    hide Main, Decode, Run, Patched, PatchOf, Mixed, Alike;
    var i := LastHarmful(s);
    var a, x, rest := s[..i + 3], s[i + 3], s[i + 4..];
    var lead := s[i + 1];
    chunks := [a, [x] + rest];
    ConcatOfTwo(a, [x] + rest);
    assert a + ([x] + rest) == s;
    var p := CallAfterCut(a, x, rest);
    var t := a + [lead] + rest;
    PatchLength(a + p, t);
    forall j | i + 4 <= j < |t| && (a + p)[j] != t[j]
      ensures !HarmfulAt(t, j - 3)
    {
      SameHarm(s, t, i, j - 3);
    }
    HarmlessPatch(a + p, t, i + 4);
    assert Mixed(a + p, t, i + 4) == a + p by { MixedHere(a, p, lead, rest); }
    PatchAtOne(a, x, rest);
    assert t == a + ([lead] + rest);
    FreshDecode(s);
  }

  lemma MixedHere(a: seq<Byte>, p: seq<Byte>, lead: Byte, rest: seq<Byte>)
    requires |p| == |rest| + 1 && p[0] == lead
    ensures Mixed(a + p, a + [lead] + rest, |a| + 1) == a + p
  {
  }

  lemma ConcatOfTwo(a: seq<Byte>, b: seq<Byte>)
    ensures Concat([a, b]) == a + b
  {
    assert [a, b][1..] == [b] && [b][1..] == [];
    assert Concat([b]) == b + Concat([]);
  }

  /** A patch at one leftover neither makes nor changes a harmful one behind it. */
  lemma SameHarm(s: seq<Byte>, t: seq<Byte>, i: nat, k: nat)
    requires i + 3 < |s| && LeftoverAt(s, i) && t == s[..i + 3] + [s[i + 1]] + s[i + 4..]
    requires forall j :: i < j && j + 3 < |s| ==> !HarmfulAt(s, j)
    requires i < k && k + 3 < |t|
    ensures !HarmfulAt(t, k)
  {
    if LeftoverAt(t, k) {
      assert k > i + 3 && |t| == |s|;
      assert t[k] == s[k] && t[k + 1] == s[k + 1] && t[k + 2] == s[k + 2] && t[k + 3] == s[k + 3];
      assert t[k + 4..] == s[k + 4..];
      assert !HarmfulAt(s, k);
    }
  }

  /** It makes no difference how bytes are cut into calls if and only if they have no harmful leftover. */
  lemma CutsMatterExactly(s: seq<Byte>)
    ensures (forall chunks: seq<seq<Byte>> :: chunks != [] && Concat(chunks) == s ==>
              Run([], chunks) == Decode([], s, true, false))
       <==> !HasHarmful(s)
  {
    hide Decode, Run, HasHarmful;
    if HasHarmful(s) {
      var chunks := HarmfulCut(s);
    } else {
      forall chunks: seq<seq<Byte>> | chunks != [] && Concat(chunks) == s
        ensures Run([], chunks) == Decode([], s, true, false)
      {
        CutsChangeNothing(chunks);
      }
    }
  }
}
