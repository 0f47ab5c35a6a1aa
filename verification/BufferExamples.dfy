/** Calls on buffer lists at which mfbt/BufferList.h does not do what its documentation says. */
module BufferExamples {
  import opened BufferExtraction
  import opened BufferIterators
  import opened BufferLists
  import opened Bytes
  import opened SegmentLayout
  import opened Segments

  /** Asking a full list for no bytes: the iterator's assertion fails at the crossing into the new segment. */
  method ZeroBytesOnFullList() returns (list: BufferList)
    ensures fresh(list) && list.Valid() && !Walkable(list.segments)
    ensures exists i :: 0 < i < |list.segments| && !EntersWell(list.segments, i)
  {
    list := new BufferList(8, 8, 8, true);
    OneSegment(list.segments);
    var ok, granted := list.AllocateBytes(0, true);
    assert ok;
    WalkableIff(list.segments);
  }

  /** That list, with an iterator at its start. */
  method ListEndingEmpty() returns (list: BufferList, iter: Iter)
    ensures fresh(list) && fresh(iter) && list.Valid() && iter.Inside(list.segments) && EndsEmpty(list.segments)
    ensures iter.segment == 0 && |iter.Rest(list.segments)| == 8
  {
    hide Flat, Buffers, PackedSegments, Separate;
    list := new BufferList(8, 8, 8, true);
    OneSegment(list.segments);
    var ok, granted := list.AllocateBytes(0, true);
    iter := new Iter(list.segments);
    iter.RestLength(list.segments);
    OneSegment(list.segments[1..]);
  }

  /** Reading all its bytes crashes. */
  method ReadFullList() returns (crashed: bool)
    ensures crashed
  {
    hide Flat, Buffers, ShapeOk, SegmentsOk, Separate, Ahead;
    var list, iter := ListEndingEmpty();
    BuffersAllocated(list.segments);
    var out := new Byte[8];
    assert iter.Inside(list.segments);
    var ok;
    ok, crashed := list.ReadBytes(iter, out, 8);
  }

  lemma OneSegment(segs: seq<Segment>)
    requires |segs| == 1
    ensures TotalSize(segs) == segs[0].size
  {
    assert segs[1..] == [];
  }

  lemma NewSegmentMisplaced(before: seq<Segment>, after: seq<Segment>)
    requires ExtendedBy(before, after, true) && TotalSize(before) % SEGMENT_ALIGNMENT != 0
    ensures !BytesAligned(after)
  {
    assert !OffsetAgrees(after, |before|, 0);
  }

  /** The layout after a packed list is moved and written to. */
  method MoveThenWrite(list: BufferList, bytes: seq<Byte>, appendOk: nat -> bool, mallocOk: nat -> bool)
    returns (ok: bool, result: BufferList)
    requires list.Packed() && Walkable(list.segments) && 0 < list.standardCapacity && bytes != []
    modifies list`segments, list`size, LastBuffer(list.segments)
    ensures (forall i: nat :: appendOk(i)) && (forall i: nat :: mallocOk(i)) ==> ok
    ensures ok ==> result.Valid() && result.Content() == old(list.Content()) + bytes
    ensures ok ==> (BytesAligned(result.segments) <==> old(list.size) % SEGMENT_ALIGNMENT == 0)
  {
    hide Flat, Buffers, PackedSegments, TotalSize, ShapeOk, Separate, BytesAligned, OffsetAgrees, PiecesGranted;
    ok, result := list.MoveFallible(appendOk);
    if !ok {
      return;
    }
    ghost var moved := result.segments;
    ok := result.WriteBytes(bytes, mallocOk);
    if ok {
      if old(list.size) % SEGMENT_ALIGNMENT == 0 {
        PackedAligned(result.segments);
      } else {
        NewSegmentMisplaced(moved, result.segments);
      }
    }
  }

  /** Four bytes, moved, and four more: the fifth byte of the list is the first of a buffer. */
  method FourBytesMoved() returns (ok: bool, result: BufferList)
    ensures ok && result.Valid() && |result.Content()| == 8 && !BytesAligned(result.segments)
  {
    hide Flat, Separate, BytesAligned, ExtendedBy, GrowLast;
    NoSegments();
    var list := new BufferList(0, 0, 8, true);
    ok := list.WriteBytes([1, 2, 3, 4], _ => true);
    ok, result := MoveThenWrite(list, [5, 6, 7, 8], _ => true, _ => true);
  }

  /** A list of two segments with the iterator at its start. */
  method TwoSegments(first: nat, second: nat, standardCapacity: nat) returns (list: BufferList, iter: Iter)
    requires 0 < first && 0 < second
    requires first % SEGMENT_ALIGNMENT == 0 && standardCapacity % SEGMENT_ALIGNMENT == 0
    ensures fresh(list) && fresh(iter) && list.Valid() && list.owning && iter.In(list.segments)
    ensures list.standardCapacity == standardCapacity
    ensures iter.RemainingInSegment() == first && iter.segment == 0 && |iter.Rest(list.segments)| == first + second
    ensures |list.Content()| == first + second
    ensures |list.segments| == 2 && list.segments[1].size == second
  {
    hide Flat, PackedSegments;
    list := new BufferList(first, first, standardCapacity, true);
    OneSegment(list.segments);
    FlatLength(list.segments);
    var data := new Byte[second];
    var ok := list.WriteBytesZeroCopy(data, second, second, true);
    iter := new Iter(list.segments);
    iter.RestLength(list.segments);
    OneSegment(list.segments[1..]);
  }

  /** Everything is granted, and the release assertion about mStandardCapacity fails. */
  method ExtractCrashes() returns (outcome: Outcome)
    ensures outcome.Crashed?
  {
    var list, iter := TwoSegments(8, 24, 8);
    assert LastPiece(8, iter.Behind(list.segments), 24) == 16;
    EveryPieceGranted(8, 0, 8);
    var result;
    outcome, result := Extract(list, iter, 24, true, _ => true, true);
  }

  lemma EveryPieceGranted(n: nat, room: nat, std: nat)
    ensures PiecesGranted(n, room, std, _ => true)
  {
  }

  /** A list that cannot be written to, because its standard capacity is 0, is not extracted from either. */
  method ExtractWithoutCapacity() returns (outcome: Outcome)
    ensures outcome.Crashed?
  {
    var list := new BufferList(8, 8, 0, true);
    var iter := new Iter(list.segments);
    OneSegment(list.segments);
    iter.RestLength(list.segments);
    var result;
    outcome, result := Extract(list, iter, 8, true, _ => true, true);
  }

  /** The last allocation fails: the list is as it was, and the iterator has lost 16 of its 32 bytes. */
  method ExtractMovesIterator() returns (outcome: Outcome, list: BufferList, iter: Iter)
    ensures outcome.Failed? && iter.In(list.segments) && list.Valid()
    ensures |list.Content()| == 32 && |iter.Rest(list.segments)| == 16
  {
    list, iter := TwoSegments(16, 16, 16);
    assert LastPiece(16, iter.Behind(list.segments), 24) == 8;
    EveryPieceGranted(16, 0, 16);
    var result;
    outcome, result := Extract(list, iter, 24, true, _ => true, false);
  }

  /**
   * Extracting from within a segment takes the bytes off the recorded size only: a copy of the list then is a copy of
   * 16 bytes into a buffer of 8.
   */
  method CopyAfterExtract() returns (outcome: CopyOutcome)
    ensures outcome.Overran?
  {
    var list := new BufferList(16, 16, 16, true);
    var iter := new Iter(list.segments);
    OneSegment(list.segments);
    iter.RestLength(list.segments);
    EveryPieceGranted(16, 0, 16);
    var extracted, result := Extract(list, iter, 8, true, _ => true, true);
    var copy := new BufferList(0, 0, 16, true);
    outcome := copy.CopyFrom(list, true);
  }
}
