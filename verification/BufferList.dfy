/**
 * mfbt/BufferList.h: a byte queue spread over several buffers.
 *
 * Whether the i-th allocation made by a call succeeds is up to its mallocOk parameter. mSize is kept
 * as an unbounded integer.
 */
module BufferLists {
  import opened Bytes
  import opened BufferIterators
  import opened SegmentLayout
  import opened Segments

  /** Overran: the copies would not stay inside the new buffer. */
  datatype CopyOutcome = Copied | NoMemory | Overran

  class BufferList {
    var owning: bool
    var segments: seq<Segment>
    var size: int
    var standardCapacity: nat

    ghost predicate Valid()
      reads this
    {
      ShapeOk(segments) && (owning ==> Separate(segments)) && standardCapacity % SEGMENT_ALIGNMENT == 0
    }

    ghost function Content(): seq<Byte>
      requires Valid()
      reads this, Buffers(segments)
    {
      Flat(segments)
    }

    /** What holds from construction on as long as only WriteBytes and AllocateBytes are used. */
    ghost predicate Packed()
      reads this
    {
      && Valid() && owning && PackedSegments(segments)
      && size == TotalSize(segments)
    }

    /** The allocation of an initial segment is only attempted for a positive capacity. */
    constructor (initialSize: nat, initialCapacity: nat, standardCapacity: nat, mallocOk: bool)
      requires initialCapacity % SEGMENT_ALIGNMENT == 0 && standardCapacity % SEGMENT_ALIGNMENT == 0
      requires initialSize <= initialCapacity && (initialSize == 0 || mallocOk)
      ensures Packed() && this.standardCapacity == standardCapacity
      ensures size == initialSize && fresh(Buffers(segments))
      ensures segments == [] <==> initialCapacity == 0 || !mallocOk
      ensures segments != [] ==> |segments| == 1 && segments[0].capacity == initialCapacity
    {
      owning, segments, size, this.standardCapacity := true, [], 0, standardCapacity;
      new;
      if initialCapacity != 0 {
        var _ := AllocateSegment(initialSize, initialCapacity, mallocOk);
      }
    }

    method AllocateSegment(n: nat, capacity: nat, mallocOk: bool) returns (ok: bool)
      requires Valid() && owning && 0 < capacity && n <= capacity
      requires segments == [] || 0 < Last(segments).size
      modifies this`segments, this`size
      ensures ok == mallocOk && Valid()
      ensures !ok ==> segments == old(segments) && size == old(size)
      ensures ok ==> size == old(size) + n && AllButLastIs(segments, old(segments))
      ensures ok ==> fresh(Last(segments).data) && Last(segments).start == 0
      ensures ok ==> Last(segments).size == n && Last(segments).capacity == Last(segments).data.Length == capacity
    {
      ok := mallocOk;
      if ok {
        var data := new Byte[capacity];
        segments := segments + [Segment(data, 0, n, capacity)];
        size := size + n;
      }
    }

    method Init(initialSize: nat, initialCapacity: nat, mallocOk: bool) returns (ok: bool)
      requires Valid() && owning && segments == []
      requires initialCapacity != 0 && initialCapacity % SEGMENT_ALIGNMENT == 0 && initialSize <= initialCapacity
      modifies this`segments, this`size
      ensures ok == mallocOk && Valid()
      ensures !ok ==> segments == [] && size == old(size)
      ensures ok ==> |segments| == 1 && size == old(size) + initialSize && fresh(segments[0].data)
      ensures ok ==> segments[0].start == 0 && segments[0].size == initialSize
      ensures ok ==> segments[0].capacity == segments[0].data.Length == initialCapacity
      ensures old(Packed()) ==> Packed()
    {
      ok := AllocateSegment(initialSize, initialCapacity, mallocOk);
    }

    method Clear()
      modifies this`segments, this`size
      ensures segments == [] && size == 0 && (old(Valid()) ==> Valid())
    {
      segments, size := [], 0;
    }

    method GrowLastSegment(more: nat)
      requires Valid() && owning && segments != [] && Last(segments).size + more <= Last(segments).capacity
      modifies this`segments, this`size
      ensures Valid() && (old(Packed()) ==> Packed())
      ensures size == old(size) + more && segments == GrowLast(old(segments), more)
      ensures old(Content()) <= Content() && |Content()| == |old(Content())| + more
    {
      ghost var before := segments;
      segments := GrowLast(segments, more);
      size := size + more;
      FlatSame(before);
      GrowKeeps(before, more);
      GrowLastFlat(before, more);
      FlatLength(before);
      FlatLength(segments);
    }

    /**
     * Grants up to maxSize further bytes, which end the content until they are overwritten. Asking for none leaves a
     * list that can be walked that way exactly if the last segment had room or there was no segment.
     */
    method AllocateBytes(maxSize: nat, mallocOk: bool) returns (ok: bool, granted: nat)
      requires Valid() && owning && 0 < standardCapacity
      modifies this`segments, this`size
      ensures Valid() && (old(Packed()) ==> Packed())
      ensures !ok ==> segments == old(segments) && size == old(size)
      ensures ok ==> granted <= maxSize && size == old(size) + granted
      ensures ok && 0 < maxSize ==> 0 < granted && Walkable(segments)
      ensures ok && maxSize == 0 && old(Walkable(segments)) ==>
        (Walkable(segments) <==> Room(old(segments)) > 0 || old(segments) == [])
      ensures ok && granted < maxSize ==> Room(segments) == 0
      ensures ok <==> Room(old(segments)) > 0 || mallocOk
      ensures ok ==> granted == Min(maxSize, if Room(old(segments)) > 0 then Room(old(segments)) else standardCapacity)
      ensures ok ==> segments != [] && granted <= Last(segments).size
      ensures Room(old(segments)) > 0 ==> segments == GrowLast(old(segments), granted)
      ensures ok && Room(old(segments)) == 0 ==> AllButLastIs(segments, old(segments))
      ensures ok && Room(old(segments)) == 0 ==> Last(segments).start == 0 && Last(segments).size == granted
      ensures ok ==> forall b :: b in LastBuffer(segments) ==> b in old(LastBuffer(segments)) || fresh(b)
      ensures ok ==> old(Content()) <= Content() && |Content()| == |old(Content())| + granted
    {
      if segments != [] {
        var last := Last(segments);
        if last.capacity > last.size {
          granted := Min(maxSize, last.capacity - last.size);
          GrowLastSegment(granted);
          return true, granted;
        }
      }
      granted := Min(maxSize, standardCapacity);
      ok := GrowBySegment(granted, mallocOk);
    }

    /** A new segment with n bytes in use, if the last one is full. */
    method GrowBySegment(n: nat, mallocOk: bool) returns (ok: bool)
      requires Valid() && owning && n <= standardCapacity && 0 < standardCapacity && Room(segments) == 0
      modifies this`segments, this`size
      ensures ok == mallocOk && Valid() && (old(Packed()) ==> Packed())
      ensures !ok ==> segments == old(segments) && size == old(size)
      ensures ok ==> size == old(size) + n && AllButLastIs(segments, old(segments)) && Last(segments).size == n
      ensures ok ==> Last(segments).capacity == standardCapacity && Last(segments).start == 0
      ensures ok && old(Walkable(segments)) ==> (Walkable(segments) <==> 0 < n || old(segments) == [])
      ensures ok && 0 < n ==> Walkable(segments)
      ensures ok ==> fresh(Last(segments).data)
      ensures ok ==> old(Content()) <= Content() && |Content()| == |old(Content())| + n
    {
      ok := AllocateSegment(n, standardCapacity, mallocOk);
      if ok {
        ghost var before := old(segments);
        assert segments == before + [Last(segments)];
        SnocKeeps(before, Last(segments));
        FlatSame(before);
        hide Flat, TotalSize;
        FlatSnoc(before, Last(segments));
        FlatLength(before);
        FlatLength(segments);
      }
    }

    /** One round of WriteBytes' loop: a piece of at most |bytes| bytes is appended. */
    method WritePiece(bytes: seq<Byte>, mallocOk: bool) returns (ok: bool, granted: nat)
      requires Valid() && owning && 0 < standardCapacity && bytes != []
      modifies this`segments, this`size, LastBuffer(segments)
      ensures Valid() && (old(Packed()) ==> Packed())
      ensures ok <==> Room(old(segments)) > 0 || mallocOk
      ensures !ok ==> segments == old(segments) && size == old(size) && Content() == old(Content())
      ensures ok ==> 0 < granted <= |bytes| && size == old(size) + granted && Walkable(segments)
      ensures ok ==> Content() == old(Content()) + bytes[..granted]
      ensures |bytes| <= Room(old(segments)) ==> granted == |bytes| && GrownInPlace(old(segments), segments, granted)
      ensures ok && Room(old(segments)) == 0 ==> SegmentAppended(old(segments), segments)
      ensures ok && granted < |bytes| ==>
        granted == (if Room(old(segments)) > 0 then Room(old(segments)) else standardCapacity) && Room(segments) == 0
      ensures ok ==> granted <= if Room(old(segments)) > 0 then Room(old(segments)) else standardCapacity
      ensures forall b :: b in LastBuffer(segments) ==> b in old(LastBuffer(segments)) || fresh(b)
      ensures forall b :: b in Buffers(segments) ==> b in old(Buffers(segments)) || fresh(b)
    {
      hide PackedSegments, TotalSize, Separate, Flat, Walkable, SegmentsOk, GrowLast;
      ok, granted := AllocateBytes(|bytes|, mallocOk);
      if ok {
        BuffersGrow(old(segments), segments);
        ghost var grown := Content();
        StoreAtEnd(segments, bytes[..granted]);
        FlatLength(segments);
        assert grown[..|grown| - granted] == old(Content());
      } else {
        FlatSame(segments);
      }
    }

    /** Appends bytes; when an allocation fails, those already copied stay. */
    method WriteBytes(bytes: seq<Byte>, mallocOk: nat -> bool) returns (ok: bool)
      requires Valid() && owning && 0 < standardCapacity
      modifies this`segments, this`size, LastBuffer(segments)
      ensures Valid() && (old(Packed()) ==> Packed())
      ensures ok ==> Content() == old(Content()) + bytes && size == old(size) + |bytes|
      ensures ok && bytes != [] ==> Walkable(segments)
      ensures !ok ==> exists k :: 0 <= k < |bytes| && Content() == old(Content()) + bytes[..k] && size == old(size) + k
      ensures Room(old(segments)) == 0 ==> ExtendedBy(old(segments), segments, 0 < |Content()| - |old(Content())|)
      ensures ok <==> PiecesGranted(|bytes|, Room(old(segments)), standardCapacity, mallocOk)
      ensures (forall i: nat :: mallocOk(i)) || |bytes| <= Room(old(segments)) ==> ok
      ensures 0 < |bytes| <= Room(old(segments)) ==> GrownInPlace(old(segments), segments, |bytes|)
      ensures forall b :: b in LastBuffer(segments) ==> b in old(LastBuffer(segments)) || fresh(b)
      ensures forall b :: b in Buffers(segments) ==> b in old(Buffers(segments)) || fresh(b)
    {
      hide *;
      var copied, pieces: nat := 0, 0;
      ghost var room, std := Room(segments), standardCapacity;
      assert bytes[..0] == [];
      PiecesStart(room, std, mallocOk);
      NotExtended(segments);
      while copied < |bytes|
        invariant copied <= |bytes|
        invariant Valid() && owning && (old(Packed()) ==> Packed())
        invariant standardCapacity == old(standardCapacity)
        invariant Content() == old(Content()) + bytes[..copied] && size == old(size) + copied
        invariant if copied == 0 then segments == old(segments) else Walkable(segments)
        invariant 0 < copied && |bytes| <= Room(old(segments)) ==>
            copied == |bytes| && GrownInPlace(old(segments), segments, |bytes|)
        invariant forall b :: b in LastBuffer(segments) ==> b in old(LastBuffer(segments)) || fresh(b)
        invariant forall b :: b in Buffers(segments) ==> b in old(Buffers(segments)) || fresh(b)
        invariant copied <= PieceStart(pieces, room, std) && FirstGranted(pieces, room, mallocOk)
        invariant room == 0 ==> ExtendedBy(old(segments), segments, 0 < copied)
        invariant copied < |bytes| ==>
          copied == PieceStart(pieces, room, std) && Room(segments) == if pieces == 0 then room else 0
      {
        assert bytes[copied..] != [];
        ghost var before := segments;
        var done, granted := WritePiece(bytes[copied..], mallocOk(pieces));
        PieceFollows(pieces, room, std, mallocOk, |bytes|);
        if !done {
          return false;
        }
        if room == 0 {
          ExtendedFurther(old(segments), before, 0 < copied, segments);
        }
        TakeMore(bytes, copied, granted);
        copied, pieces := copied + granted, pieces + 1;
      }
      assert bytes[..copied] == bytes;
      AllPieces(|bytes|, pieces, room, std, mallocOk);
      ok := true;
    }

    /**
     * Appends a buffer the caller gives away. The list stays one in which only the last segment may be empty exactly
     * if its last segment was not.
     */
    method WriteBytesZeroCopy(data: array<Byte>, n: nat, capacity: nat, appendOk: bool) returns (ok: bool)
      requires Valid() && owning && n <= capacity != 0 && capacity <= data.Length && data !in Buffers(segments)
      modifies this`segments, this`size
      ensures ok == appendOk
      ensures !ok ==> segments == old(segments) && size == old(size)
      ensures ok ==> segments == old(segments) + [Segment(data, 0, n, capacity)] && size == old(size) + n
      ensures ok ==> (Valid() <==> old(segments) == [] || 0 < Last(old(segments)).size)
      ensures ok && Valid() ==> Content() == old(Content()) + data[..n]
    {
      ok := appendOk;
      if ok {
        ghost var before := segments;
        var s := Segment(data, 0, n, capacity);
        FlatSnoc(before, s);
        assert SegmentBytes(s) == data[..n];
        hide Flat, Buffers;
        segments, size := segments + [s], size + n;
        FlatSame(segments);
        if before == [] || 0 < Last(before).size {
          SnocKeeps(before, s);
        } else {
          assert segments[|before| - 1] == Last(before);
        }
      }
    }

    /** One round of ReadBytes' loop; the bytes of `rest` that have been copied are at the front of out. */
    method ReadRound(iter: Iter, out: array<Byte>, copied: nat, remaining: nat, ghost rest: seq<Byte>,
        ghost untouched: seq<Byte>)
      returns (taken: nat, crashed: bool)
      requires Valid() && iter.Inside(segments) && copied + remaining <= out.Length && out !in Buffers(segments)
      requires 0 < remaining && copied <= |rest| && iter.Rest(segments) == rest[copied..]
      requires out[..copied] == rest[..copied] && |untouched| == out.Length && out[copied..] == untouched[copied..]
      modifies iter, out
      ensures taken <= remaining && copied + taken <= |rest|
      ensures taken == 0 ==> !crashed && copied == |rest| && !old(iter.CrashAhead(segments))
      ensures crashed ==> old(iter.CrashAhead(segments)) && |rest| <= copied + remaining
      ensures !crashed ==>
        && iter.Inside(segments) && iter.Rest(segments) == rest[copied + taken..]
        && iter.CrashAhead(segments) == old(iter.CrashAhead(segments))
        && out[..copied + taken] == rest[..copied + taken] && out[copied + taken..] == untouched[copied + taken..]
    {
      hide BufferList.Valid, Flat, Ahead, Iter.Rest, ShapeOk, SegmentsOk;
      taken, crashed := Min(iter.RemainingInSegment(), remaining), false;
      iter.CrossingIntoEmpty(segments);
      iter.DoneIffNothingLeft(segments);
      if taken == 0 {
        return;
      }
      ghost var before := out[..];
      crashed := iter.ReadPiece(segments, out, copied, taken);
      SliceOn(rest, copied, taken);
      SliceOn(before, copied, taken);
      SliceOn(untouched, copied, taken);
      assert out[copied + taken..] == before[copied + taken..];
      assert out[..copied + taken] == out[..copied] + out[copied..copied + taken];
    }

    /** Copies the next n bytes out, or all there are; crashes exactly where AdvanceAcrossSegments does. */
    method ReadBytes(iter: Iter, out: array<Byte>, n: nat) returns (ok: bool, crashed: bool)
      requires Valid() && iter.Inside(segments) && n <= out.Length && out !in Buffers(segments)
      modifies iter, out
      ensures crashed <==> old(iter.CrashAhead(segments)) && |old(iter.Rest(segments))| <= n
      ensures !crashed ==> iter.Inside(segments)
      ensures old(iter.In(segments)) ==> !crashed && iter.In(segments)
      ensures !crashed ==>
        var (had, bytes, rest) := Asked(old(iter.Rest(segments)), n);
        && ok == had && iter.Rest(segments) == rest
        && |bytes| <= n && out[..|bytes|] == bytes && out[|bytes|..] == old(out[|bytes|..])
    {
      hide BufferList.Valid, Flat, Ahead, Iter.Rest, ShapeOk, SegmentsOk;
      ghost var rest, untouched := iter.Rest(segments), out[..];
      var copied, remaining: nat := 0, n;
      while remaining > 0
        invariant copied + remaining == n
        invariant iter.Inside(segments) && copied <= |rest| && iter.Rest(segments) == rest[copied..]
        invariant out[..copied] == rest[..copied] && out[copied..] == untouched[copied..]
        invariant iter.CrashAhead(segments) == old(iter.CrashAhead(segments))
      {
        var toCopy;
        toCopy, crashed := ReadRound(iter, out, copied, remaining, rest, untouched);
        if toCopy == 0 {
          assert rest[..copied] == rest;
          return false, false;
        }
        if crashed {
          return false, true;
        }
        copied, remaining := copied + toCopy, remaining - toCopy;
      }
      iter.CrossingIntoEmpty(segments);
      return true, false;
    }

    /** A list that shares storage with another and owns none. */
    constructor Borrowing()
      ensures Valid() && !owning && segments == [] && size == 0 && standardCapacity == 0
    {
      owning, segments, size, standardCapacity := false, [], 0, 0;
    }

    /** The next n bytes as a list without copying them. */
    method Borrow(iter: Iter, n: nat, appendOk: nat -> bool) returns (ok: bool, result: BufferList)
      requires Valid() && iter.In(segments)
      modifies iter
      ensures iter.In(segments) && fresh(result) && result.Valid() && !result.owning
      ensures Buffers(result.segments) <= Buffers(segments)
      ensures result.Content() + iter.Rest(segments) == old(iter.Rest(segments))
      ensures ok ==> |result.Content()| == n == result.size
      ensures !ok ==> |result.Content()| < n && result.size == 0
      ensures (forall i: nat :: appendOk(i)) && n <= |old(iter.Rest(segments))| ==> ok
    {
      hide Flat, Buffers, Ahead, Iter.Rest, Iter.Placed, ShapeOk, Walkable, Separate, PackedSegments, AllInUse;
      var taken: seq<Segment>;
      ok, taken := iter.TakePieces(segments, n, appendOk);
      AllInUseShape(taken);
      result := MakeBorrowed(segments, iter, taken, if ok then n else 0);
    }

    /** The list that borrows these segments; making it changes nothing that is there. */
    static method MakeBorrowed(segs: seq<Segment>, iter: Iter, taken: seq<Segment>, n: nat) returns (result: BufferList)
      requires iter.In(segs) && ShapeOk(taken)
      ensures fresh(result) && result.Valid() && !result.owning && result.segments == taken && result.size == n
      ensures iter.In(segs) && iter.Rest(segs) == old(iter.Rest(segs)) && Flat(taken) == old(Flat(taken))
    {
      hide Flat, Ahead, Walkable, Buffers, Separate;
      ghost var left := iter.Left();
      result := new BufferList.Borrowing();
      result.segments, result.size := taken, n;
      AheadSame(segs, iter.segment, left);
      FlatSame(taken);
    }

    /**
     * Hands all segments over to a new list. The new list's last segment has no spare capacity left,
     * so a packed list stays packed just when its size is a multiple of 8.
     */
    method MoveFallible(appendOk: nat -> bool) returns (ok: bool, result: BufferList)
      requires Valid() && owning && Walkable(segments)
      modifies this`segments, this`size
      ensures fresh(result) && result.Valid() && result.owning && result.standardCapacity == standardCapacity
      ensures ok ==> segments == [] && size == 0
      ensures ok ==> result.Content() == old(Content()) && result.size == old(size)
      ensures ok ==> LastBuffer(result.segments) <= old(LastBuffer(segments))
      ensures ok ==> TotalSize(result.segments) == TotalSize(old(segments)) && Room(result.segments) == 0
      ensures ok && old(Packed()) ==> (result.Packed() <==> old(size) % SEGMENT_ALIGNMENT == 0)
      ensures !ok ==> segments == old(segments) && size == old(size) && result.segments == [] && result.size == 0
      ensures (forall i: nat :: appendOk(i)) ==> ok
    {
      hide Gathered, Separate, PackedSegments, TotalSize, Flat, SegmentsOk;
      result := new BufferList(0, 0, standardCapacity, true);
      ok, result.segments := GatherSegments(segments, appendOk);
      if ok {
        ghost var before := segments;
        result.size := size;
        segments, size := [], 0;
        GatheredSame(before);
        FlatSame(before);
      }
    }

    /**
     * Copies a list that is not empty into one segment of its recorded size. The copies stay inside the new buffer
     * exactly if what the segments hold fits into that size rounded up; what they hold may be more.
     */
    method CopyFrom(other: BufferList, mallocOk: bool) returns (outcome: CopyOutcome)
      requires Valid() && owning && other != this && other.Valid() && 0 < other.size
      modifies this`segments, this`size
      ensures Valid() && other.Content() == old(other.Content())
      ensures outcome.NoMemory? <==> !mallocOk
      ensures outcome.Overran? <==> mallocOk && RoundUp(other.size) < TotalSize(other.segments)
      ensures outcome.NoMemory? ==> segments == [] && size == 0
      ensures !outcome.NoMemory? ==>
        && |segments| == 1 && PackedSegments(segments) && fresh(segments[0].data)
        && size == TotalSize(segments) == other.size
      ensures outcome.Copied? ==>
        var n := Min(other.size, TotalSize(other.segments));
        n <= |Content()| && n <= |other.Content()| && Content()[..n] == other.Content()[..n]
      ensures outcome.Copied? && other.size == TotalSize(other.segments) ==> Content() == other.Content()
    {
      hide Flat, TotalSize, Separate, Buffers;
      Clear();
      FlatLength(other.segments);
      BuffersAllocated(other.segments);
      var ok := Init(other.size, RoundUp(other.size), mallocOk);
      FlatSame(other.segments);
      if !ok {
        return NoMemory;
      }
      SingleSegment(segments);
      var fits := CopySegments(segments[0].data, other.segments);
      SingleSegment(segments);
      outcome := if fits then Copied else Overran;
    }
  }

  ghost predicate SegmentAppended(before: seq<Segment>, after: seq<Segment>) {
    AllButLastIs(after, before) && Last(after).start == 0 && 0 < Last(after).size
  }

  /** The segments of `before` are still the first ones; if anything was written, new ones follow. */
  ghost predicate ExtendedBy(before: seq<Segment>, after: seq<Segment>, written: bool) {
    && |before| <= |after| && after[..|before|] == before
    && (written ==> |before| < |after| && after[|before|].start == 0 && 0 < after[|before|].size)
  }

  lemma NotExtended(segs: seq<Segment>)
    ensures ExtendedBy(segs, segs, false)
  {
  }

  lemma ExtendedFurther(a: seq<Segment>, b: seq<Segment>, written: bool, c: seq<Segment>)
    requires ExtendedBy(a, b, written) && SegmentAppended(b, c) && (!written ==> a == b)
    ensures ExtendedBy(a, c, true)
  {
    assert c == b + [Last(c)];
  }

  /** Where the i-th piece of a write starts: the first fills the room there is, the others take new segments. */
  ghost function PieceStart(i: nat, room: nat, std: nat): nat {
    if i == 0 then 0 else if room == 0 then i * std else room + (i - 1) * std
  }

  /** Whether each allocation a write of n bytes needs is granted. */
  ghost predicate PiecesGranted(n: nat, room: nat, std: nat, mallocOk: nat -> bool) {
    forall i: nat :: PieceStart(i, room, std) < n && (0 < room ==> 0 < i) ==> mallocOk(i)
  }

  ghost predicate FirstGranted(pieces: nat, room: nat, mallocOk: nat -> bool) {
    forall i: nat :: i < pieces && (0 < room ==> 0 < i) ==> mallocOk(i)
  }

  lemma PiecesStart(room: nat, std: nat, mallocOk: nat -> bool)
    ensures PieceStart(0, room, std) == 0 && FirstGranted(0, room, mallocOk)
  {
  }

  lemma PieceFollows(i: nat, room: nat, std: nat, mallocOk: nat -> bool, n: nat)
    ensures PieceStart(i + 1, room, std) == PieceStart(i, room, std) + if i == 0 && 0 < room then room else std
    ensures FirstGranted(i, room, mallocOk) && ((i == 0 && 0 < room) || mallocOk(i)) ==>
      FirstGranted(i + 1, room, mallocOk)
    ensures PieceStart(i, room, std) < n && (0 < room ==> 0 < i) && !mallocOk(i) ==>
      !PiecesGranted(n, room, std, mallocOk)
  {
  }

  lemma PieceStartGrows(i: nat, j: nat, room: nat, std: nat)
    requires i <= j
    ensures PieceStart(i, room, std) <= PieceStart(j, room, std)
  {
    if i < j {
      PieceStartGrows(i, j - 1, room, std);
      PieceFollows(j - 1, room, std, _ => true, 0);
    }
  }

  lemma AllPieces(n: nat, pieces: nat, room: nat, std: nat, mallocOk: nat -> bool)
    requires n <= PieceStart(pieces, room, std) && FirstGranted(pieces, room, mallocOk)
    ensures PiecesGranted(n, room, std, mallocOk)
  {
    forall i: nat | PieceStart(i, room, std) < n && (0 < room ==> 0 < i) ensures mallocOk(i) {
      if pieces <= i {
        PieceStartGrows(pieces, i, room, std);
      }
    }
  }

  /** One round of CopyFrom's loop. */
  method CopySegment(to: array<Byte>, offset: nat, s: Segment)
    requires SegmentOk(s) && to != s.data && offset + s.size <= to.Length
    modifies to
    ensures to[..offset + s.size] == old(to[..offset]) + SegmentBytes(s)
  {
    Store(to, offset, s.data[s.start..s.start + s.size]);
    assert to[..offset + s.size] == to[..offset] + to[offset..offset + s.size];
  }

  /** MoveFallible's loop: every segment with its used part only, except that a lone empty one is dropped. */
  method GatherSegments(segs: seq<Segment>, appendOk: nat -> bool) returns (ok: bool, gathered: seq<Segment>)
    requires Walkable(segs)
    ensures ok ==> gathered == Gathered(segs)
    ensures !ok ==> gathered == []
    ensures (forall i: nat :: appendOk(i)) ==> ok
  {
    hide Flat, Ahead, Iter.Rest, PackedSegments, Separate;
    var iter := new Iter(segs);
    gathered := [];
    var moved := 0;
    while !iter.Done()
      invariant iter.In(segs) && 0 <= moved <= |segs|
      invariant gathered == Trimmed(segs[..moved]) && (0 < moved ==> AllInUse(segs))
      invariant !iter.Done() ==> moved == iter.segment && iter.data == segs[moved].start
      invariant iter.Done() ==> moved == |segs| || (moved == 0 && !AllInUse(segs))
      decreases |segs| - moved
    {
      var toAdvance := iter.RemainingInSegment();
      if toAdvance == 0 || !appendOk(moved) {
        return false, [];
      }
      gathered := gathered + [Segment(iter.buf, iter.data, toAdvance, toAdvance)];
      TrimmedNext(segs, moved);
      iter.MoveOn(segs, toAdvance);
      moved := moved + 1;
    }
    assert segs[..|segs|] == segs;
    ok := true;
  }

  /**
   * CopyFrom's loop: copies every segment, one after the other, to the front of a buffer. Stops before the first copy
   * that would go beyond its end, which the source makes all the same.
   */
  method CopySegments(to: array<Byte>, segs: seq<Segment>) returns (fits: bool)
    requires SegmentsOk(segs) && to !in Buffers(segs)
    modifies to
    ensures Flat(segs) == old(Flat(segs))
    ensures fits <==> TotalSize(segs) <= to.Length
    ensures fits ==> to[..TotalSize(segs)] == Flat(segs)
  {
    hide TotalSize, Flat, SegmentOk;
    var offset: nat := 0;
    FlatLength(segs);
    assert segs[..|segs|] == segs && segs[..0] == [];
    NothingCounted();
    for i := 0 to |segs|
      invariant Flat(segs) == old(Flat(segs))
      invariant offset == TotalSize(segs[..i]) <= TotalSize(segs) && offset <= to.Length
      invariant to[..offset] == Flat(segs)[..offset]
    {
      FlatSlice(segs, i);
      assert segs[i] in segs;
      if segs[i].size > to.Length - offset {
        return false;
      }
      CopySegment(to, offset, segs[i]);
      FlatSame(segs);
      offset := offset + segs[i].size;
    }
    fits := true;
  }

  /** A list of one segment. */
  lemma SingleSegment(segs: seq<Segment>)
    requires |segs| == 1 && SegmentOk(segs[0])
    ensures Flat(segs) == SegmentBytes(segs[0]) && TotalSize(segs) == segs[0].size
  {
    assert segs[1..] == [];
  }
}
