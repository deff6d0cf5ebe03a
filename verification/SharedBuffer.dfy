/** What a segmented byte string means, whatever its segments are. */
module Segments {
  import opened Utf8

  /** A piece of data that may be shared by several buffers and never changes. */
  class DataSegment {
    const bytes: seq<Byte>

    constructor (bytes: seq<Byte>)
      ensures this.bytes == bytes
    {
      this.bytes := bytes;
    }
  }

  /** A segment and the number of bytes before it. */
  datatype Entry = Entry(beginPosition: nat, segment: DataSegment)

  /** The bytes of the entries, one after the other. */
  function Flat(entries: seq<Entry>): seq<Byte> {
    if entries == [] then [] else entries[0].segment.bytes + Flat(entries[1..])
  }

  /** A place within a list of entries: an offset into one of them, or the end of the list. */
  datatype Cursor = Cursor(index: nat, offset: nat) {
    predicate In(entries: seq<Entry>) {
      if index < |entries| then offset <= |entries[index].segment.bytes| else index == |entries| && offset == 0
    }

    /** The bytes of the entry under the cursor that are still before it. */
    function Remaining(entries: seq<Entry>): seq<Byte>
      requires In(entries) && index < |entries|
    {
      entries[index].segment.bytes[offset..]
    }

    /** The place so many bytes further on in the entry; the next entry when that is the entry's end. */
    function Moved(entries: seq<Entry>, count: nat): (moved: Cursor)
      requires In(entries) && index < |entries| && count <= |Remaining(entries)|
      ensures moved.In(entries)
    {
      if offset + count == |entries[index].segment.bytes| then Cursor(index + 1, 0) else Cursor(index, offset + count)
    }

    /** The bytes from the cursor up to the end. */
    ghost function Rest(entries: seq<Entry>): seq<Byte>
      requires In(entries)
    {
      if index == |entries| then [] else Remaining(entries) + Flat(entries[index + 1..])
    }
  }

  lemma {:induction false} FlatConcat(a: seq<Entry>, b: seq<Entry>)
    ensures Flat(a + b) == Flat(a) + Flat(b)
  {
    if a == [] {
      assert a + b == b;
    } else {
      FlatConcat(a[1..], b);
      FlatConcatStep(a, b);
    }
  }

  lemma FlatConcatStep(a: seq<Entry>, b: seq<Entry>)
    requires a != [] && Flat(a[1..] + b) == Flat(a[1..]) + Flat(b)
    ensures Flat(a + b) == Flat(a) + Flat(b)
  {
    assert (a + b)[1..] == a[1..] + b && (a + b)[0] == a[0];
    Associate(a[0].segment.bytes, Flat(a[1..]), Flat(b));
  }

  lemma Associate<T>(a: seq<T>, b: seq<T>, c: seq<T>)
    ensures a + (b + c) == a + b + c
  {
  }

  lemma Pieces<T>(s: seq<T>, i: nat)
    requires i < |s|
    ensures s[..i] + [s[i]] == s[..i + 1] && s[..i + 1] + s[i + 1..] == s
  {
  }

  lemma FlatOfNone()
    ensures Flat([]) == []
  {
  }

  lemma FlatOfOne(entry: Entry)
    ensures Flat([entry]) == entry.segment.bytes
  {
    assert Flat([entry][1..]) == [];
  }

  /** One entry's bytes within the whole, and the bytes before it. */
  lemma FlatSplits(entries: seq<Entry>, i: nat)
    requires i < |entries|
    ensures Flat(entries) == Flat(entries[..i]) + entries[i].segment.bytes + Flat(entries[i + 1..])
    ensures Flat(entries[..i + 1]) == Flat(entries[..i]) + entries[i].segment.bytes
  {
    hide Flat;
    FlatOfOne(entries[i]);
    Pieces(entries, i);
    FlatConcat(entries[..i], [entries[i]]);
    FlatConcat(entries[..i + 1], entries[i + 1..]);
  }

  /** Begin positions are prefix sums, and `size` is the whole sum. */
  ghost predicate Consistent(entries: seq<Entry>, size: nat) {
    && (forall i :: 0 <= i < |entries| ==> entries[i].beginPosition == |Flat(entries[..i])|)
    && size == |Flat(entries)|
  }

  lemma ConsistentAppend(entries: seq<Entry>, size: nat, entry: Entry)
    requires Consistent(entries, size) && entry.beginPosition == size
    ensures Consistent(entries + [entry], size + |entry.segment.bytes|)
    ensures Flat(entries + [entry]) == Flat(entries) + entry.segment.bytes
  {
    hide Flat;
    var more := entries + [entry];
    FlatSplits(more, |entries|);
    assert more[..|entries|] == entries && more[..|entries| + 1] == more;
    forall i | 0 <= i < |more|
      ensures more[i].beginPosition == |Flat(more[..i])|
    {
      if i < |entries| {
        assert more[..i] == entries[..i];
      }
    }
  }

  /** The entries' begin positions never go down. */
  lemma BeginsAreSorted(entries: seq<Entry>, size: nat, i: nat, j: nat)
    requires Consistent(entries, size) && i <= j < |entries|
    ensures entries[i].beginPosition <= entries[j].beginPosition <= size
  {
    hide Flat;
    FlatConcat(entries[..i], entries[i..j]);
    assert entries[..i] + entries[i..j] == entries[..j];
    FlatConcat(entries[..j], entries[j..]);
    assert entries[..j] + entries[j..] == entries;
  }

  /** What is left of entry `i` stands in the whole at the entry's begin position plus the offset. */
  lemma ViewIsSlice(entries: seq<Entry>, size: nat, i: nat, offset: nat)
    requires Consistent(entries, size) && i < |entries| && offset <= |entries[i].segment.bytes|
    ensures entries[i].beginPosition + |entries[i].segment.bytes| ==
      if i + 1 < |entries| then entries[i + 1].beginPosition else size
    ensures entries[i].beginPosition + |entries[i].segment.bytes| <= size
    ensures Flat(entries)[entries[i].beginPosition + offset..entries[i].beginPosition + |entries[i].segment.bytes|]
         == entries[i].segment.bytes[offset..]
  {
    hide Flat;
    FlatSplits(entries, i);
    var bytes := entries[i].segment.bytes;
    SliceOfMiddle(Flat(entries[..i]), bytes, Flat(entries[i + 1..]), offset);
    if i + 1 == |entries| {
      assert entries[..i + 1] == entries;
    }
  }

  lemma SliceOfMiddle(a: seq<Byte>, b: seq<Byte>, c: seq<Byte>, offset: nat)
    requires offset <= |b|
    ensures (a + b + c)[|a| + offset..|a| + |b|] == b[offset..]
  {
  }

  lemma RestOfEntries(entries: seq<Entry>, i: nat)
    requires i <= |entries|
    ensures Cursor(i, 0).Rest(entries) == Flat(entries[i..])
  {
    if i < |entries| {
      assert entries[i..][0] == entries[i] && entries[i..][1..] == entries[i + 1..];
    }
  }

  lemma CutBefore(a: seq<Byte>, b: seq<Byte>, count: nat)
    requires count <= |a|
    ensures a + b == a[..count] + (a[count..] + b)
    ensures count == |a| ==> a + b == a[..count] + b
  {
  }

  /** Moving a cursor leaves out the bytes that it moved over. */
  lemma RestMoves(entries: seq<Entry>, cursor: Cursor, count: nat)
    requires cursor.In(entries) && cursor.index < |entries| && count <= |cursor.Remaining(entries)|
    ensures cursor.Rest(entries) == cursor.Remaining(entries)[..count] + cursor.Moved(entries, count).Rest(entries)
  {
    hide Flat;
    CutBefore(cursor.Remaining(entries), Flat(entries[cursor.index + 1..]), count);
    if cursor.offset + count == |entries[cursor.index].segment.bytes| {
      RestOfEntries(entries, cursor.index + 1);
    } else {
      assert cursor.Moved(entries, count).Remaining(entries) == cursor.Remaining(entries)[count..];
    }
  }

  lemma RestOfAll(entries: seq<Entry>)
    ensures Cursor(0, 0).Rest(entries) == Flat(entries)
  {
  }

  lemma EqualPieces(a: seq<Byte>, b: seq<Byte>, c: seq<Byte>, d: seq<Byte>)
    requires |a| == |c|
    ensures a + b == c + d <==> a == c && b == d
  {
    if a + b == c + d {
      assert a == (a + b)[..|a|] == c;
      assert b == (a + b)[|a|..] == d;
    }
  }

  /** Whether two rests are equal is decided by as many bytes of each, and then by what comes after those. */
  lemma BothMove(a: seq<Entry>, at: Cursor, b: seq<Entry>, bt: Cursor, count: nat)
    requires at.In(a) && at.index < |a| && count <= |at.Remaining(a)|
    requires bt.In(b) && bt.index < |b| && count <= |bt.Remaining(b)|
    ensures at.Rest(a) == bt.Rest(b) <==>
      at.Remaining(a)[..count] == bt.Remaining(b)[..count] && at.Moved(a, count).Rest(a) == bt.Moved(b, count).Rest(b)
    ensures |at.Rest(a)| == |bt.Rest(b)| ==> |at.Moved(a, count).Rest(a)| == |bt.Moved(b, count).Rest(b)|
  {
    hide Cursor.Rest, Flat;
    RestMoves(a, at, count);
    RestMoves(b, bt, count);
    EqualPieces(at.Remaining(a)[..count], at.Moved(a, count).Rest(a),
                bt.Remaining(b)[..count], bt.Moved(b, count).Rest(b));
  }
}

module SharedBuffers {
  import opened Basics
  import opened Utf8
  import opened Segments

  /** A byte string kept as a list of shared segments. */
  class SharedBuffer {
    var segments: seq<Entry>
    var size: nat

    ghost predicate Valid()
      reads this
    {
      Consistent(segments, size)
    }

    /** The byte string that the buffer stands for. */
    ghost function Contents(): seq<Byte>
      reads this
    {
      Flat(segments)
    }

    constructor ()
      ensures Valid() && Contents() == []
    {
      segments, size := [], 0;
    }

    method AppendBytes(data: seq<Byte>)
      requires Valid()
      modifies this
      ensures Valid() && Contents() == old(Contents()) + data
    {
      hide Consistent, Flat;
      var segment := new DataSegment(data);
      ConsistentAppend(segments, size, Entry(size, segment));
      segments := segments + [Entry(size, segment)];
      size := size + |data|;
    }

    /** Appends the segments of another buffer, or of this one: the loop ends where the segments ended before it. */
    method Append(data: SharedBuffer)
      requires Valid() && data.Valid()
      modifies this
      ensures Valid() && Contents() == old(Contents()) + old(data.Contents())
      ensures old(segments) <= segments && |segments| == |old(segments)| + |old(data.segments)|
      ensures forall i :: 0 <= i < |old(data.segments)| ==>
        segments[|old(segments)| + i].segment == old(data.segments)[i].segment
    {
      hide Consistent, Flat;
      var end := |data.segments|;
      ghost var before, theirs := segments, data.segments;
      FlatOfNone();
      assert theirs[..0] == [];
      var i := 0;
      while i < end
        invariant i <= end == |theirs| && theirs <= data.segments && before <= segments && |segments| == |before| + i
        invariant forall k :: 0 <= k < i ==> segments[|before| + k].segment == theirs[k].segment
        invariant Consistent(segments, size) && Flat(segments) == Flat(before) + Flat(theirs[..i])
      {
        var element := data.segments[i];
        FlatSplits(theirs, i);
        ConsistentAppend(segments, size, Entry(size, element.segment));
        segments := segments + [Entry(size, element.segment)];
        size := size + |element.segment.bytes|;
        i := i + 1;
      }
      assert theirs[..end] == theirs;
    }

    method Clear()
      modifies this
      ensures Valid() && Contents() == []
    {
      segments, size := [], 0;
    }

    /** A second buffer over the same segments, with its own list of them. */
    method Copy() returns (clone: SharedBuffer)
      requires Valid()
      ensures fresh(clone) && clone.Valid() && clone.Contents() == Contents() && clone.segments == segments
    {
      hide Consistent, Flat;
      clone := new SharedBuffer();
      clone.size := size;
      clone.segments := [];
      var i := 0;
      while i < |segments|
        invariant i <= |segments| && fresh(clone) && clone.size == size && clone.segments == segments[..i]
      {
        clone.segments := clone.segments + [segments[i]];
        i := i + 1;
      }
      assert segments[..i] == segments;
    }

    method CombineIntoOneSegment()
      requires Valid()
      modifies this`segments
      ensures Valid() && Contents() == old(Contents())
      ensures if |old(segments)| <= 1 then segments == old(segments) else |segments| == 1
    {
      hide Consistent, Flat;
      if |segments| <= 1 {
        return;
      }
      var combined := [];
      FlatOfNone();
      assert segments[..0] == [];
      var i := 0;
      while i < |segments|
        invariant segments == old(segments) && i <= |segments| && combined == Flat(segments[..i])
      {
        FlatSplits(segments, i);
        combined := combined + segments[i].segment.bytes;
        i := i + 1;
      }
      assert segments[..i] == segments;
      var segment := new DataSegment(combined);
      ConsistentOfOne(Entry(0, segment));
      ConsistentSize(segments, size);
      segments := [Entry(0, segment)];
    }

    /** The bytes in one piece, or `None` when nothing was ever appended. */
    method Data() returns (data: Option<seq<Byte>>)
      requires Valid()
      modifies this`segments
      ensures Valid() && Contents() == old(Contents())
      ensures data == if old(segments) == [] then None else Some(Contents())
    {
      hide Consistent, Flat;
      if |segments| == 0 {
        return None;
      }
      CombineIntoOneSegment();
      FlatOfOne(segments[0]);
      assert segments == [segments[0]];
      return Some(segments[0].segment.bytes);
    }

    /** The index of the first entry that begins after `position`, found by halving. */
    method UpperBound(position: nat) returns (first: nat)
      requires Valid()
      ensures first <= |segments|
      ensures forall i :: 0 <= i < first ==> segments[i].beginPosition <= position
      ensures forall i :: first <= i < |segments| ==> position < segments[i].beginPosition
    {
      hide Consistent, Flat;
      var length: nat := |segments|;
      first := 0;
      while length > 0
        invariant first + length <= |segments|
        invariant forall i :: 0 <= i < first ==> segments[i].beginPosition <= position
        invariant forall i :: first + length <= i < |segments| ==> position < segments[i].beginPosition
      {
        var half := length / 2;
        var middle := first + half;
        forall i | 0 <= i < |segments|
          ensures i <= middle ==> segments[i].beginPosition <= segments[middle].beginPosition
          ensures middle <= i ==> segments[middle].beginPosition <= segments[i].beginPosition
        {
          if i <= middle {
            BeginsAreSorted(segments, size, i, middle);
          } else {
            BeginsAreSorted(segments, size, middle, i);
          }
        }
        if position < segments[middle].beginPosition {
          length := half;
        } else {
          first, length := middle + 1, length - half - 1;
        }
      }
    }

    /** A view of the segment that holds `position`: never empty, and the bytes that follow `position`. */
    method GetSomeData(position: nat) returns (view: seq<Byte>)
      requires Valid() && position < size
      ensures 0 < |view| <= size - position && |Contents()| == size
      ensures view == Contents()[position..position + |view|]
      ensures position + |view| == size || exists i ::
        0 <= i < |segments| && segments[i].beginPosition == position + |view|
    {
      hide Consistent, Flat;
      ConsistentSize(segments, size);
      FlatOfNone();
      var element := UpperBound(position);
      element := element - 1;
      ViewIsSlice(segments, size, element, 0);
      ViewIsSlice(segments, size, element, position - segments[element].beginPosition);
      view := segments[element].segment.bytes[position - segments[element].beginPosition..];
    }

    /** Whether two buffers stand for the same byte string, however each is cut into segments. */
    method Equals(other: SharedBuffer) returns (equal: bool)
      requires Valid() && other.Valid()
      ensures equal <==> Contents() == other.Contents()
    {
      hide Consistent, Flat, Cursor.Rest;
      if this == other {
        return true;
      }
      ConsistentSize(segments, size);
      ConsistentSize(other.segments, other.size);
      if size != other.size {
        return false;
      }
      RestOfAll(segments);
      RestOfAll(other.segments);
      var at, otherAt := Cursor(0, 0), Cursor(0, 0);
      while at.index < |segments| && otherAt.index < |other.segments|
        invariant at.In(segments) && otherAt.In(other.segments)
        invariant |at.Rest(segments)| == |otherAt.Rest(other.segments)|
        invariant Contents() == other.Contents() <==> at.Rest(segments) == otherAt.Rest(other.segments)
        decreases |segments| - at.index + |other.segments| - otherAt.index
      {
        var equalSoFar;
        equalSoFar, at, otherAt := EqualsStep(other, at, otherAt);
        if !equalSoFar {
          return false;
        }
      }
      NothingRests(segments, at, other.segments, otherAt);
      return true;
    }

    /** Compares the bytes that two cursors have in common, unless both are at the start of one shared segment. */
    method EqualsStep(other: SharedBuffer, at: Cursor, otherAt: Cursor)
      returns (equal: bool, next: Cursor, otherNext: Cursor)
      requires at.In(segments) && at.index < |segments|
      requires otherAt.In(other.segments) && otherAt.index < |other.segments|
      ensures next.In(segments) && otherNext.In(other.segments)
      ensures at.Rest(segments) == otherAt.Rest(other.segments) <==>
        equal && next.Rest(segments) == otherNext.Rest(other.segments)
      ensures |at.Rest(segments)| == |otherAt.Rest(other.segments)| ==>
        |next.Rest(segments)| == |otherNext.Rest(other.segments)|
      ensures at.index <= next.index && otherAt.index <= otherNext.index
      ensures at.index + otherAt.index < next.index + otherNext.index
    {
      hide Flat, Cursor.Rest;
      var segment, otherSegment := segments[at.index].segment, other.segments[otherAt.index].segment;
      if segment == otherSegment && at.offset == 0 && otherAt.offset == 0 {
        BothMove(segments, at, other.segments, otherAt, |segment.bytes|);
        return true, Cursor(at.index + 1, 0), Cursor(otherAt.index + 1, 0);
      }
      var remaining := Min(|segment.bytes| - at.offset, |otherSegment.bytes| - otherAt.offset);
      BothMove(segments, at, other.segments, otherAt, remaining);
      equal := segment.bytes[at.offset..][..remaining] == otherSegment.bytes[otherAt.offset..][..remaining];
      next, otherNext := at.(offset := at.offset + remaining), otherAt.(offset := otherAt.offset + remaining);
      if next.offset == |segment.bytes| {
        next := Cursor(at.index + 1, 0);
      }
      if otherNext.offset == |otherSegment.bytes| {
        otherNext := Cursor(otherAt.index + 1, 0);
      }
    }

    /** Checks the begin positions one by one. */
    method InternallyConsistent() returns (consistent: bool)
      ensures consistent <==> Valid()
    {
      hide Flat;
      var position := 0;
      FlatOfNone();
      assert segments[..0] == [];
      var i := 0;
      while i < |segments|
        invariant i <= |segments| && position == |Flat(segments[..i])|
        invariant forall k :: 0 <= k < i ==> segments[k].beginPosition == |Flat(segments[..k])|
      {
        if segments[i].beginPosition != position {
          return false;
        }
        FlatSplits(segments, i);
        position := position + |segments[i].segment.bytes|;
        i := i + 1;
      }
      assert segments[..i] == segments;
      return position == size;
    }
  }

  function Min(a: nat, b: nat): nat {
    if a < b then a else b
  }

  lemma ConsistentSize(entries: seq<Entry>, size: nat)
    requires Consistent(entries, size)
    ensures size == |Flat(entries)|
    ensures entries != [] ==> entries[0].beginPosition == 0
  {
    if entries != [] {
      assert entries[..0] == [];
    }
  }

  lemma NothingRests(a: seq<Entry>, at: Cursor, b: seq<Entry>, bt: Cursor)
    requires at.In(a) && bt.In(b) && (at.index == |a| || bt.index == |b|)
    requires |at.Rest(a)| == |bt.Rest(b)|
    ensures at.Rest(a) == bt.Rest(b)
  {
  }

  lemma ConsistentOfOne(entry: Entry)
    requires entry.beginPosition == 0
    ensures Consistent([entry], |entry.segment.bytes|)
    ensures Flat([entry]) == entry.segment.bytes
  {
    FlatOfOne(entry);
    assert [entry][..0] == [];
  }

  /** Copies a buffer into a new block of memory. There is none for an empty buffer, nor when the allocation fails. */
  method CopyBuffer(buffer: SharedBuffer, canAllocate: bool) returns (memory: array?<Byte>)
    requires buffer.Valid()
    ensures memory == null <==> buffer.Contents() == [] || !canAllocate
    ensures memory != null ==> fresh(memory) && memory[..] == buffer.Contents()
  {
    hide Consistent, Flat;
    ConsistentSize(buffer.segments, buffer.size);
    if buffer.size == 0 || !canAllocate {
      return null;
    }
    ghost var all := buffer.Contents();
    var copied := new Byte[buffer.size];
    var position := 0;
    while buffer.size > position
      invariant fresh(copied) && position <= buffer.size && copied[..position] == all[..position]
    {
      var data := buffer.GetSomeData(position);
      Fill(copied, position, data);
      assert all[..position + |data|] == all[..position] + data;
      position := position + |data|;
    }
    return copied;
  }

  /** Copies bytes into memory. */
  method Fill(memory: array<Byte>, position: nat, data: seq<Byte>)
    requires position + |data| <= memory.Length
    modifies memory
    ensures memory[..position + |data|] == old(memory[..position]) + data
    ensures memory[position + |data|..] == old(memory[position + |data|..])
  {
    forall i | 0 <= i < |data| {
      memory[position + i] := data[i];
    }
  }
}
