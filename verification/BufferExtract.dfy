/**
 * Extract of mfbt/BufferList.h: cutting a byte range out of a list, by copying at both ends and
 * handing over the segments in between.
 */
module BufferExtraction {
  import opened BufferIterators
  import opened BufferLists
  import opened Bytes
  import opened SegmentLayout
  import opened Segments

  /** n bytes from `left` bytes before the end of segment `first` on: `whole` segments and then `last` bytes. */
  ghost predicate Walked(segs: seq<Segment>, first: nat, left: nat, n: nat, whole: nat, last: int) {
    && 0 < whole && 0 < left && first + whole <= |segs|
    && n == left + TotalSize(segs[first + 1..first + whole]) + last
  }

  lemma WalkedFurther(segs: seq<Segment>, first: nat, left: nat, n: nat, whole: nat, last: int)
    requires first + whole < |segs|
    requires if whole == 0 then 0 < left && last == n else Walked(segs, first, left, n, whole, last)
    ensures Walked(segs, first, left, n, whole + 1, last - if whole == 0 then left else segs[first + whole].size)
  {
    if 0 < whole {
      var k := first + whole;
      assert segs[first + 1..k + 1] == segs[first + 1..k] + [segs[k]];
      TotalSizeSnoc(segs[first + 1..k], segs[k]);
    }
  }

  /** How n bytes spread: `whole` segments, the first perhaps only in part, and `last` bytes of one more. */
  ghost predicate Spans(segs: seq<Segment>, first: nat, left: nat, n: nat, whole: nat, last: nat) {
    && (if whole == 0 then 0 < last == n < left else Walked(segs, first, left, n, whole, last))
    && (0 < last && 0 < whole ==> first + whole < |segs| && last < segs[first + whole].size)
  }

  /**
   * With `left` bytes left in the segment the iterator is in and the segments `behind` it: the bytes that n bytes take
   * of a later segment without emptying it.
   */
  ghost function LastPiece(left: nat, behind: seq<Segment>, n: nat): nat
    decreases |behind|
  {
    if n <= left then 0
    else if behind == [] || n - left < behind[0].size then n - left
    else LastPiece(behind[0].size, behind[1..], n - left)
  }

  lemma {:induction false} LastPieceAfter(left: nat, behind: seq<Segment>, n: nat, w: nat, last: nat)
    requires w <= |behind| && n == left + TotalSize(behind[..w]) + last
    requires forall i :: 0 <= i < |behind| ==> 0 < behind[i].size
    requires 0 < last ==> w < |behind| && last < behind[w].size
    ensures LastPiece(left, behind, n) == last
    decreases w
  {
    if w != 0 {
      assert behind[..w][1..] == behind[1..][..w - 1];
      assert TotalSize(behind[..w]) == behind[0].size + TotalSize(behind[1..][..w - 1]);
      LastPieceAfter(behind[0].size, behind[1..], n - left, w - 1, last);
    } else {
      assert behind[..0] == [];
    }
  }

  lemma Dropped(segs: seq<Segment>, k: nat, n: nat)
    requires k + n <= |segs|
    ensures segs[k..][..n] == segs[k..k + n]
    ensures forall i :: 0 <= i < |segs| - k ==> segs[k..][i] == segs[k + i]
  {
  }

  lemma SpansLastPiece(segs: seq<Segment>, iter: Iter, n: nat, whole: nat, last: nat)
    requires iter.In(segs) && segs != []
    requires Spans(segs, iter.segment, iter.RemainingInSegment(), n, whole, last)
    ensures LastPiece(iter.RemainingInSegment(), iter.Behind(segs), n) == if whole == 0 then 0 else last
  {
    if 0 < whole {
      var first := iter.segment;
      var behind := segs[first + 1..];
      Dropped(segs, first + 1, whole - 1);
      LastPieceAfter(iter.RemainingInSegment(), behind, n, whole - 1, last);
    }
  }

  method WalkSegments(segs: seq<Segment>, walker: Iter, n: nat) returns (whole: nat, last: nat)
    requires walker.In(segs) && 0 < n
    modifies walker
    ensures (last > 0 && walker.Done()) <==> |old(walker.Rest(segs))| < n
    ensures last == 0 || !walker.Done() ==>
      Spans(segs, old(walker.segment), old(walker.RemainingInSegment()), n, whole, last)
  {
    hide Walked, Walkable, TotalSize, Flat, Ahead, Iter.Rest;
    ghost var rest, first, left := walker.Rest(segs), walker.segment, walker.RemainingInSegment();
    whole, last := 0, n;
    while !walker.Done() && 0 < last && walker.RemainingInSegment() <= last
      invariant walker.In(segs) && last <= n <= |rest| + last && walker.Rest(segs) == rest[n - last..]
      invariant if whole == 0 then last == n && walker.RemainingInSegment() == left && walker.segment == first
        else Walked(segs, first, left, n, whole, last) && first + whole <= |segs|
      invariant 0 < whole ==> if first + whole == |segs| then walker.Done()
          else walker.segment == first + whole && walker.RemainingInSegment() == segs[walker.segment].size > 0
      decreases |segs| - whole
    {
      var step := walker.RemainingInSegment();
      walker.DoneIffNothingLeft(segs);
      SliceOn(rest, n - last, step);
      WalkedFurther(segs, first, left, n, whole, last);
      walker.FinishSegment(segs);
      last := last - step;
      whole := whole + 1;
    }
    walker.DoneIffNothingLeft(segs);
  }

  /** The walk over a copy of the iterator. */
  method CountSegments(segs: seq<Segment>, iter: Iter, n: nat) returns (enough: bool, whole: nat, last: nat)
    requires iter.In(segs) && 0 < n
    ensures enough <==> n <= |iter.Rest(segs)|
    ensures enough ==> Spans(segs, iter.segment, iter.RemainingInSegment(), n, whole, last)
    ensures iter.In(segs) && iter.Rest(segs) == old(iter.Rest(segs))
  {
    hide Spans, Walkable, ShapeOk, Flat, Ahead, Buffers;
    ghost var rest, left := iter.Rest(segs), iter.Left();
    var walker := new Iter.Copy(iter);
    AheadSame(segs, iter.segment, left);
    assert walker.Rest(segs) == rest;
    whole, last := WalkSegments(segs, walker, n);
    AheadSame(segs, iter.segment, left);
    enough := last == 0 || !walker.Done();
  }

  /** All segments but count of them from k on. */
  function Without(segs: seq<Segment>, k: nat, count: nat): seq<Segment>
    requires k + count <= |segs|
  {
    segs[..k] + segs[k + count..]
  }

  lemma CutOk(segs: seq<Segment>, k: nat, count: nat)
    requires Walkable(segs) && 0 < k && k + count <= |segs|
    ensures Walkable(Without(segs, k, count)) && AllInUse(segs[k..k + count])
    ensures Separate(segs) ==> Separate(Without(segs, k, count)) && Separate(segs[k..k + count])
    ensures Separate(segs) ==> Buffers(segs[k..k + count]) !! Buffers(Without(segs, k, count))
    ensures Buffers(segs[k..k + count]) <= Buffers(segs) && Buffers(Without(segs, k, count)) <= Buffers(segs)
  {
  }

  /** At the start of segment k, all of the segments from k on are ahead. */
  lemma AheadAtStart(segs: seq<Segment>, k: nat)
    requires SegmentsOk(segs) && k < |segs|
    ensures Ahead(segs, k, SegmentBytes(segs[k])) == Flat(SuffixOf(segs, k))
  {
    assert segs[k..][1..] == segs[k + 1..];
  }

  lemma CutFlat(segs: seq<Segment>, k: nat, count: nat)
    requires SegmentsOk(segs) && k + count <= |segs|
    ensures SegmentsOk(segs[k..k + count]) && SegmentsOk(Without(segs, k, count))
    ensures Flat(SuffixOf(segs, k)) == Flat(segs[k..k + count]) + Flat(SuffixOf(Without(segs, k, count), k))
  {
    assert segs[k..] == segs[k..k + count] + segs[k + count..];
    assert Without(segs, k, count)[k..] == segs[k + count..];
    FlatSplit(segs[k..k + count], segs[k + count..]);
  }

  /** At the start of segment k; or, with no such segment, done and pointing into a segment that is gone. */
  ghost predicate LeftBehind(kept: seq<Segment>, k: nat, iter: Iter)
    reads iter
  {
    if k < |kept| then
      && iter.segment == k && iter.buf == kept[k].data && iter.data == kept[k].start
      && iter.dataEnd == iter.data + kept[k].size
    else
      iter.segment == k - 1 && iter.Done() && iter.Placed(kept)
  }

  /** The loop that hands segments over, and erasing them. */
  method StealSegments(segs: seq<Segment>, iter: Iter, count: nat) returns (stolen: seq<Segment>, kept: seq<Segment>)
    requires iter.In(segs) && 0 < iter.segment < |segs| && iter.segment + count <= |segs|
    requires iter.RemainingInSegment() == segs[iter.segment].size
    modifies iter
    ensures stolen == segs[old(iter.segment)..old(iter.segment) + count]
    ensures kept == Without(segs, old(iter.segment), count)
    ensures LeftBehind(kept, old(iter.segment), iter)
  {
    hide Flat, Ahead, Iter.Rest, Walkable;
    ghost var k := iter.segment;
    var copyStart := iter.segment;
    stolen := [];
    for i := 0 to count
      invariant iter.In(segs) && stolen == segs[k..k + i]
      invariant if k + i < |segs| then iter.segment == k + i && iter.RemainingInSegment() == segs[k + i].size
        else iter.segment == |segs| - 1 && iter.Done()
    {
      stolen := stolen + [segs[iter.segment]];
      iter.FinishSegment(segs);
    }
    assert iter.segment == copyStart + count || (iter.Done() && iter.segment == copyStart + count - 1);
    kept := segs[..copyStart] + segs[copyStart + count..];
    iter.segment := iter.segment - count;
  }

  lemma RestAtStart(segs: seq<Segment>, iter: Iter)
    requires iter.In(segs) && segs != [] && iter.RemainingInSegment() == segs[iter.segment].size
    ensures iter.Rest(segs) == Flat(SuffixOf(segs, iter.segment))
  {
    AheadAtStart(segs, iter.segment);
    assert iter.Left() == SegmentBytes(segs[iter.segment]);
  }

  /** Where StealSegments leaves the iterator, just the kept segments from k on are ahead. */
  lemma RestAfterCut(kept: seq<Segment>, k: nat, iter: Iter)
    requires Walkable(kept) && 0 < k <= |kept| && 2 <= |kept| + k
    requires k < |kept| ==> 0 < kept[k].size
    requires LeftBehind(kept, k, iter)
    ensures iter.Placed(kept) && iter.Rest(kept) == Flat(SuffixOf(kept, k))
    ensures if k < |kept| then iter.In(kept) && iter.RemainingInSegment() == kept[k].size
      else iter.Rest(kept) == []
  {
    if k < |kept| {
      RestAtStart(kept, iter);
    }
  }

  lemma RestBeforeCut(segs: seq<Segment>, iter: Iter, count: nat)
    requires iter.In(segs) && 0 < iter.segment < |segs| && iter.segment + count <= |segs|
    requires iter.RemainingInSegment() == segs[iter.segment].size
    ensures var k, kept := iter.segment, Without(segs, iter.segment, count);
      && SegmentsOk(segs[k..k + count]) && SegmentsOk(kept)
      && iter.Rest(segs) == Flat(segs[k..k + count]) + Flat(SuffixOf(kept, k))
      && 0 < k <= |kept| && 2 <= |kept| + k && (k < |kept| <==> k + count < |segs|)
      && (k < |kept| ==> kept[k] == segs[k + count] && 0 < kept[k].size)
  {
    hide Flat, Ahead, Iter.Rest, SuffixOf, SegmentsOk, Buffers;
    CutFlat(segs, iter.segment, count);
    RestAtStart(segs, iter);
  }

  method StealBeside(segs: seq<Segment>, iter: Iter, count: nat,
    ghost a: seq<Segment>, ghost b: seq<Segment>, ghost c: seq<Segment>)
    returns (stolen: seq<Segment>, kept: seq<Segment>)
    requires iter.In(segs) && 0 < iter.segment < |segs| && iter.segment + count <= |segs|
    requires iter.RemainingInSegment() == segs[iter.segment].size
    requires SegmentsOk(a) && SegmentsOk(b) && SegmentsOk(c)
    modifies iter
    ensures stolen == segs[old(iter.segment)..old(iter.segment) + count]
    ensures kept == Without(segs, old(iter.segment), count)
    ensures LeftBehind(kept, old(iter.segment), iter)
    ensures Flat(a) == old(Flat(a)) && Flat(b) == old(Flat(b)) && Flat(c) == old(Flat(c))
  {
    hide Flat, Buffers, Walkable, Without, LeftBehind;
    stolen, kept := StealSegments(segs, iter, count);
    FlatSame(a);
    FlatSame(b);
    FlatSame(c);
  }

  /** What taking count segments out does to what the iterator has ahead. */
  method CutSegments(segs: seq<Segment>, iter: Iter, count: nat, ghost others: seq<Segment>)
    returns (stolen: seq<Segment>, kept: seq<Segment>)
    requires iter.In(segs) && Walkable(segs) && Separate(segs)
    requires 0 < iter.segment < |segs| && iter.segment + count <= |segs|
    requires iter.RemainingInSegment() == segs[iter.segment].size && SegmentsOk(others)
    modifies iter
    ensures stolen == segs[old(iter.segment)..old(iter.segment) + count]
    ensures Walkable(kept) && Separate(kept) && Buffers(kept) <= Buffers(segs) && iter.Placed(kept)
    ensures AllInUse(stolen) && Separate(stolen)
    ensures Buffers(stolen) !! Buffers(kept) && Buffers(stolen) <= Buffers(segs)
    ensures Flat(stolen) + iter.Rest(kept) == old(iter.Rest(segs))
    ensures iter.Rest(kept) == [] || iter.In(kept)
    ensures var next := old(iter.segment) + count;
      next < |segs| ==> kept != [] && iter.In(kept) && iter.RemainingInSegment() == segs[next].size
    ensures Flat(others) == old(Flat(others))
  {
    hide *;
    ghost var k := iter.segment;
    CutOk(segs, k, count);
    RestBeforeCut(segs, iter, count);
    ghost var taken, behind := segs[k..k + count], SuffixOf(Without(segs, k, count), k);
    stolen, kept := StealBeside(segs, iter, count, taken, behind, others);
    RestAfterCut(kept, k, iter);
  }

  /** Advance does not touch what other segments hold. */
  method AdvanceBeside(segs: seq<Segment>, iter: Iter, n: nat, ghost others: seq<Segment>)
    requires iter.In(segs) && segs != [] && n <= iter.RemainingInSegment() && SegmentsOk(others)
    modifies iter
    ensures iter.In(segs) && iter.Placed(segs)
    ensures n <= |old(iter.Rest(segs))| && iter.Rest(segs) == old(iter.Rest(segs))[n..]
    ensures n == old(iter.RemainingInSegment()) && old(iter.segment) + 1 < |segs| ==>
      iter.segment == old(iter.segment) + 1 && iter.RemainingInSegment() == segs[iter.segment].size
    ensures Flat(others) == old(Flat(others))
  {
    hide Flat, Buffers, Walkable, Ahead, Iter.Rest;
    iter.MoveOn(segs, n);
    FlatSame(others);
  }

  method ClearBeside(result: BufferList, segs: seq<Segment>, iter: Iter)
    requires result.Valid() && iter.In(segs)
    modifies result`segments, result`size
    ensures result.Valid() && result.segments == [] && result.size == 0
    ensures iter.In(segs) && iter.Rest(segs) == old(iter.Rest(segs))
  {
    hide Flat, Buffers, Walkable, Ahead;
    ghost var left := iter.Left();
    result.Clear();
    AheadSame(segs, iter.segment, left);
  }

  /** Copies the piece the iterator is in; when that fails, the result is dropped. */
  method CopyFirst(segs: seq<Segment>, iter: Iter, n: nat, result: BufferList, mallocOk: nat -> bool)
    returns (ok: bool)
    requires iter.In(segs) && segs != [] && 0 < n <= iter.RemainingInSegment()
    requires result.Valid() && result.owning && result.segments == [] && 0 < result.standardCapacity
    modifies result`segments, result`size, iter
    ensures iter.In(segs) && iter.Placed(segs) && result.Valid() && fresh(Buffers(result.segments))
    ensures n <= |old(iter.Rest(segs))|
    ensures !ok ==> iter.Rest(segs) == old(iter.Rest(segs)) && result.segments == [] && result.size == 0
    ensures ok ==> result.Content() == old(iter.Rest(segs))[..n] && AllInUse(result.segments)
    ensures Walkable(result.segments) && Separate(result.segments) && SegmentsOk(result.segments)
    ensures Buffers(result.segments) !! Buffers(segs)
    ensures ok ==> iter.Rest(segs) == old(iter.Rest(segs))[n..]
    ensures ok && n == old(iter.RemainingInSegment()) && old(iter.segment) + 1 < |segs| ==>
      iter.segment == old(iter.segment) + 1 && iter.RemainingInSegment() == segs[iter.segment].size
    ensures ok <==> PiecesGranted(n, 0, old(result.standardCapacity), mallocOk)
  {
    hide Flat, Buffers, Walkable, ShapeOk, Separate, Ahead, AllInUse, PiecesGranted;
    NoSegments();
    ghost var was := Buffers(segs);
    BuffersAllocated(segs);
    iter.DataIsAhead(segs, n);
    ghost var left := iter.Left();
    ok := result.WriteBytes(iter.Data(n), mallocOk);
    AheadSame(segs, iter.segment, left);
    if ok {
      AllInUseIf(result.segments);
      AllInUseShape(result.segments);
      AdvanceBeside(segs, iter, n, result.segments);
    } else {
      ClearBeside(result, segs, iter);
    }
  }

  lemma ShapeGivesOk(segs: seq<Segment>)
    requires ShapeOk(segs)
    ensures SegmentsOk(segs)
  {
  }

  lemma EmptyAtEnd(segs: seq<Segment>, s: Segment)
    requires AllInUse(segs) && ShapeOk(segs) && SegmentOk(s) && s.size == 0 < s.capacity
    requires Separate(segs) && s.data !in Buffers(segs)
    ensures ShapeOk(segs + [s]) && Separate(segs + [s]) && Flat(segs + [s]) == Flat(segs)
    ensures Room(segs + [s]) == s.capacity && LastBuffer(segs + [s]) == {s.data}
    ensures Buffers(segs + [s]) == Buffers(segs) + {s.data}
  {
    hide ShapeOk, Separate, Flat, AllInUse, PackedSegments, SegmentsOk, Buffers;
    ShapeGivesOk(segs);
    if segs != [] {
      LastInUse(segs);
    }
    FlatSnoc(segs, s);
    SnocKeeps(segs, s);
    LastApart(segs + [s]);
    assert AllButLast(segs + [s]) == segs && SegmentBytes(s) == [];
  }

  method AppendEmpty(list: BufferList, data: array<Byte>)
    requires list.Valid() && list.owning && data !in Buffers(list.segments) && 0 < data.Length
    requires AllInUse(list.segments)
    modifies list`segments
    ensures list.Valid() && list.Content() == old(list.Content())
    ensures Room(list.segments) == data.Length && LastBuffer(list.segments) == {data}
    ensures Buffers(list.segments) == old(Buffers(list.segments)) + {data}
  {
    ghost var before := list.segments;
    EmptyAtEnd(before, Segment(data, 0, 0, data.Length));
    hide Buffers, Flat, Separate, AllInUse, Room, LastBuffer;
    list.segments := list.segments + [Segment(data, 0, 0, data.Length)];
    FlatSame(list.segments);
  }

  /** Appends a segment over a pre-allocated buffer and writes bytes to it, which cannot fail. */
  method FillLast(result: BufferList, finalSegment: array<Byte>, bytes: seq<Byte>)
    requires result.Valid() && result.owning && 0 < |bytes| <= result.standardCapacity == finalSegment.Length
    requires AllInUse(result.segments) && finalSegment !in Buffers(result.segments)
    modifies result`segments, result`size, finalSegment
    ensures result.Valid() && AllInUse(result.segments)
    ensures result.Content() == old(result.Content()) + bytes
    ensures forall b :: b in Buffers(result.segments) ==>
      b == finalSegment || b in old(Buffers(result.segments)) || fresh(b)
  {
    hide Flat, Buffers, Walkable, ShapeOk, Separate, AllInUse;
    AppendEmpty(result, finalSegment);
    var r := result.WriteBytes(bytes, i => true);
    assert r;
    AllInUseIf(result.segments);
  }

  method CopyLast(segs: seq<Segment>, iter: Iter, n: nat, result: BufferList, finalSegment: array<Byte>)
    requires iter.In(segs) && segs != [] && 0 < n <= iter.RemainingInSegment()
    requires result.Valid() && result.owning && n <= result.standardCapacity == finalSegment.Length
    requires AllInUse(result.segments)
    requires finalSegment !in Buffers(segs) && finalSegment !in Buffers(result.segments)
    modifies result`segments, result`size, iter, finalSegment
    ensures iter.In(segs) && iter.Placed(segs) && result.Valid()
    ensures n <= |old(iter.Rest(segs))| && iter.Rest(segs) == old(iter.Rest(segs))[n..]
    ensures result.Content() == old(result.Content()) + old(iter.Rest(segs))[..n]
    ensures AllInUse(result.segments)
    ensures forall b :: b in Buffers(result.segments) ==>
      b == finalSegment || b in old(Buffers(result.segments)) || fresh(b)
  {
    iter.DataIsAhead(segs, n);
    assert forall s :: s in segs ==> s.data in Buffers(segs);
    ghost var left := iter.Left();
    hide Flat, Buffers, Walkable, ShapeOk, Separate, Ahead, AllInUse;
    FillLast(result, finalSegment, iter.Data(n));
    AheadSame(segs, iter.segment, left);
    AdvanceBeside(segs, iter, n, result.segments);
  }

  lemma BuffersJoined(a: seq<Segment>, b: seq<Segment>)
    ensures Buffers(a + b) == Buffers(a) + Buffers(b)
  {
  }

  lemma Joined(a: seq<Segment>, b: seq<Segment>)
    requires AllInUse(a) && AllInUse(b) && Separate(a) && Separate(b) && Buffers(a) !! Buffers(b)
    ensures |Flat(b)| == TotalSize(b)
    ensures AllInUse(a + b) && Separate(a + b) && Flat(a + b) == Flat(a) + Flat(b)
    ensures Buffers(a + b) == Buffers(a) + Buffers(b)
  {
    FlatLength(b);
    FlatSplit(a, b);
    BuffersJoined(a, b);
    hide Flat, TotalSize;
    forall i, j | 0 <= i < j < |a + b| ensures (a + b)[i].data != (a + b)[j].data {
      if i < |a| <= j {
        assert a[i].data in Buffers(a) && b[j - |a|].data in Buffers(b);
      }
    }
  }

  /** Hands the lists their new segments, which changes no bytes. */
  method Install(list: BufferList, kept: seq<Segment>, result: BufferList, joined: seq<Segment>, iter: Iter)
    requires list.Valid() && result.Valid() && result != list && iter.Placed(kept)
    requires AllInUse(joined) && Walkable(kept) && Separate(joined) && Separate(kept)
    modifies list`segments, result`segments
    ensures list.segments == kept && result.segments == joined && list.Valid() && result.Valid()
    ensures iter.Placed(kept) && iter.Rest(kept) == old(iter.Rest(kept))
    ensures old(iter.In(kept)) ==> iter.In(kept) && iter.RemainingInSegment() == old(iter.RemainingInSegment())
    ensures Flat(joined) == old(Flat(joined))
  {
    hide Flat, Buffers, Separate, Ahead;
    ghost var left := iter.Left();
    list.segments, result.segments := kept, joined;
    AllInUseShape(joined);
    FlatSame(joined);
    AheadSame(kept, iter.segment, left);
  }

  /** What follows the first piece: count whole segments, then the first `last` bytes of one more. */
  method TakeRest(list: BufferList, iter: Iter, count: nat, last: nat, result: BufferList, finalSegment: array?<Byte>)
    requires list.Valid() && list.owning && iter.In(list.segments)
    requires Walkable(list.segments) && Separate(list.segments)
    requires Separate(result.segments) && SegmentsOk(result.segments)
    requires 0 < iter.segment < |list.segments| && iter.segment + count <= |list.segments|
    requires iter.RemainingInSegment() == list.segments[iter.segment].size
    requires 0 < last ==> iter.segment + count < |list.segments| && last < list.segments[iter.segment + count].size
    requires result.Valid() && result.owning && last <= result.standardCapacity && result != list
    requires AllInUse(result.segments) && Buffers(result.segments) !! Buffers(list.segments)
    requires 0 < last ==>
      && finalSegment != null && finalSegment.Length == result.standardCapacity
      && finalSegment !in Buffers(list.segments) && finalSegment !in Buffers(result.segments)
    modifies list`segments, result`segments, result`size, iter, finalSegment
    ensures list.Valid() && Walkable(list.segments) && result.Valid() && AllInUse(result.segments)
    ensures iter.Placed(list.segments) && (iter.Rest(list.segments) == [] || iter.In(list.segments))
    ensures Buffers(result.segments) !! Buffers(list.segments)
    ensures result.Content() + iter.Rest(list.segments) == old(result.Content() + iter.Rest(list.segments))
    ensures |result.Content()| == |old(result.Content())|
      + TotalSize(old(list.segments)[old(iter.segment)..old(iter.segment) + count]) + last
  {
    hide Flat, Buffers, Walkable, ShapeOk, Separate, AllInUse, TotalSize, SegmentsOk, Without,
      Iter.In, Iter.Placed, Iter.Rest, Ahead, SegmentOk, Iter.Left, SuffixOf, SegmentBytes;
    ghost var was := Buffers(list.segments);
    BuffersAllocated(list.segments);
    var stolen, kept := CutSegments(list.segments, iter, count, result.segments);
    Joined(result.segments, stolen);
    Install(list, kept, result, result.segments + stolen, iter);
    if 0 < last {
      CopyLast(list.segments, iter, last, result, finalSegment);
      assert forall b :: b in Buffers(result.segments) && b in was ==> b !in Buffers(list.segments);
    }
  }

  lemma SpansFurther(segs: seq<Segment>, first: nat, left: nat, n: nat, whole: nat, last: nat)
    requires Spans(segs, first, left, n, whole, last) && 0 < n
    ensures 0 < left && (whole == 0 || (whole == 1 && last == 0) ==> n <= left)
    ensures 2 <= whole || (whole == 1 && 0 < last) ==>
      && left <= n && first + 1 < |segs| && first + whole <= |segs|
      && n == left + TotalSize(segs[first + 1..first + whole]) + last
      && (0 < last ==> first + whole < |segs| && last < segs[first + whole].size)
  {
  }

  /** More is needed than what is left of the segment, and so later segments give some of it. */
  lemma SpansBeyond(segs: seq<Segment>, first: nat, left: nat, n: nat, whole: nat, last: nat)
    requires Spans(segs, first, left, n, whole, last) && 0 < n && Walkable(segs) && first < |segs|
    requires 2 <= whole || (whole == 1 && 0 < last)
    ensures left < n
  {
    SpansFurther(segs, first, left, n, whole, last);
    if 2 <= whole {
      var middle := segs[first + 1..first + whole];
      assert middle[0] == segs[first + 1] && TotalSize(middle) == middle[0].size + TotalSize(middle[1..]);
    }
  }

  lemma CutAt(whole: seq<Byte>, front: seq<Byte>, back: seq<Byte>)
    requires front + back == whole
    ensures front == whole[..|front|] && back == whole[|front|..]
  {
  }

  ghost predicate SomeLargerThan(segs: seq<Segment>, capacity: nat) {
    exists i :: 0 <= i < |segs| && capacity < segs[i].size
  }

  /** pod_malloc, which changes nothing that is there. */
  method AllocateBeside(capacity: nat, segs: seq<Segment>, iter: Iter, ghost others: seq<Segment>)
    returns (data: array<Byte>)
    requires iter.In(segs) && SegmentsOk(others)
    ensures fresh(data) && data.Length == capacity
    ensures data !in Buffers(segs) && data !in Buffers(others)
    ensures iter.In(segs) && iter.Rest(segs) == old(iter.Rest(segs)) && Flat(others) == old(Flat(others))
  {
    hide Flat, Ahead, Walkable;
    BuffersAllocated(segs);
    BuffersAllocated(others);
    ghost var left := iter.Left();
    data := new Byte[capacity];
    AheadSame(segs, iter.segment, left);
    FlatSame(others);
  }

  method NewBeside(capacity: nat, segs: seq<Segment>, iter: Iter) returns (result: BufferList)
    requires iter.In(segs) && capacity % SEGMENT_ALIGNMENT == 0
    ensures fresh(result) && result.Valid() && result.owning && result.standardCapacity == capacity
    ensures result.segments == [] && result.size == 0
    ensures iter.In(segs) && iter.Rest(segs) == old(iter.Rest(segs))
  {
    hide Flat, Ahead, Walkable, Buffers;
    ghost var left := iter.Left();
    result := new BufferList(0, 0, capacity, true);
    AheadSame(segs, iter.segment, left);
  }

  method SetSizes(list: BufferList, size: int, result: BufferList, resultSize: int, iter: Iter)
    requires list.Valid() && result.Valid() && result != list && iter.Placed(list.segments)
    modifies list`size, result`size
    ensures list.size == size && result.size == resultSize && list.Valid() && result.Valid()
    ensures iter.Placed(list.segments) && iter.Rest(list.segments) == old(iter.Rest(list.segments))
    ensures old(iter.In(list.segments)) ==> iter.In(list.segments)
    ensures result.Content() == old(result.Content())
  {
    hide Flat, Ahead, Walkable, Buffers, Separate;
    ghost var left := iter.Left();
    list.size, result.size := size, resultSize;
    AheadSame(list.segments, iter.segment, left);
    FlatSame(result.segments);
  }

  /** Crashed: one of the two release assertions about mStandardCapacity failed. */
  datatype Outcome = Extracted | Failed | Crashed

  lemma ListParts(list: BufferList, iter: Iter)
    requires list.Valid() && list.owning && iter.In(list.segments)
    ensures Separate(list.segments) && SegmentsOk(list.segments) && Walkable(list.segments)
    ensures iter.data <= iter.dataEnd && iter.Placed(list.segments)
    ensures iter.Rest(list.segments) != [] ==> list.segments != []
  {
  }

  /** Whether the bytes taken from the segment the iterator is in could be copied. */
  ghost predicate FirstCopied(left: nat, n: nat, standardCapacity: nat, mallocOk: nat -> bool) {
    PiecesGranted(Min(n, left), 0, standardCapacity, mallocOk)
  }

  /** A failing call has moved the iterator to the end of its segment exactly if the first copy was made. */
  ghost predicate IterAfterFailure(before: seq<Byte>, left: nat, copied: bool, after: seq<Byte>) {
    if copied then left <= |before| && after == before[left..] else after == before
  }

  /** Extract once it is known how the bytes spread over segments. */
  method Transfer(list: BufferList, iter: Iter, n: nat, whole: nat, last: nat, result: BufferList,
      mallocOk: nat -> bool, finalOk: bool)
    returns (outcome: Outcome)
    requires list.Valid() && list.owning && iter.In(list.segments) && iter.Placed(list.segments)
    requires iter.data <= iter.dataEnd && Walkable(list.segments) && Separate(list.segments) && list.segments != []
    requires 0 < n && Spans(list.segments, iter.segment, iter.RemainingInSegment(), n, whole, last)
    requires result.Valid() && result.owning && result.segments == [] && result.size == 0
    requires 0 < result.standardCapacity && result != list
    modifies list`segments, result`segments, result`size, iter
    ensures list.Valid() && result.Valid()
    ensures outcome.Extracted? ==>
      && Walkable(result.segments) && Walkable(list.segments) && Buffers(result.segments) !! Buffers(list.segments)
      && iter.Placed(list.segments) && (iter.Rest(list.segments) == [] || iter.In(list.segments))
      && result.Content() + iter.Rest(list.segments) == old(iter.Rest(list.segments)) && |result.Content()| == n
    ensures outcome.Failed? ==>
      && result.segments == [] && result.size == 0 && list.segments == old(list.segments)
      && iter.In(list.segments) && iter.Placed(list.segments)
    ensures var copied := FirstCopied(old(iter.RemainingInSegment()), n, old(result.standardCapacity), mallocOk);
      var last := LastPiece(old(iter.RemainingInSegment()), old(iter.Behind(list.segments)), n);
      && (outcome.Crashed? <==> copied && result.standardCapacity < last)
      && (outcome.Failed? <==> !copied || (0 < last <= result.standardCapacity && !finalOk))
      && (outcome.Failed? ==> IterAfterFailure(old(iter.Rest(list.segments)), old(iter.RemainingInSegment()), copied,
            iter.Rest(list.segments)))
    ensures outcome.Crashed? ==> SomeLargerThan(old(list.segments), result.standardCapacity)
    ensures n <= old(iter.RemainingInSegment()) ==> list.segments == old(list.segments)
  {
    hide PiecesGranted, LastPiece, Flat, Buffers, Walkable, ShapeOk, Separate, AllInUse, SegmentsOk, Spans, TotalSize,
      Iter.In, Iter.Placed, Iter.Rest, Ahead, Iter.Left;
    ghost var segs, start, left := list.segments, iter.segment, iter.RemainingInSegment();
    SpansFurther(segs, iter.segment, left, n, whole, last);
    SpansLastPiece(segs, iter, n, whole, last);
    var first := Min(n, iter.RemainingInSegment());
    var copied := CopyFirst(list.segments, iter, first, result, mallocOk);
    if !copied {
      return Failed;
    }
    if 2 <= whole || (whole == 1 && 0 < last) {
      SpansBeyond(segs, start, left, n, whole, last);
      var finalSegment: array?<Byte> := null;
      if 0 < last {
        if result.standardCapacity < last {
          return Crashed;
        }
        if !finalOk {
          ClearBeside(result, list.segments, iter);
          return Failed;
        }
        finalSegment := AllocateBeside(result.standardCapacity, list.segments, iter, result.segments);
      }
      TakeRest(list, iter, whole - 1, last, result, finalSegment);
      AllInUseShape(result.segments);
    }
    outcome := Extracted;
  }

  /**
   * Cuts the n bytes at the iterator out of the list. The bytes the first and the last segment
   * contribute are copied, and stay in the list too, before the iterator; the segments in between
   * change hands.
   */
  method Extract(list: BufferList, iter: Iter, n: nat, reserveOk: bool, mallocOk: nat -> bool, finalOk: bool)
    returns (outcome: Outcome, result: BufferList)
    requires list.Valid() && list.owning && iter.In(list.segments) && 0 < n
    modifies list`segments, list`size, iter
    ensures fresh(result) && list.Valid()
    ensures outcome.Extracted? ==>
      && result.Valid() && result.owning && Walkable(result.segments) && result.size == n
      && n <= |old(iter.Rest(list.segments))| && result.Content() == old(iter.Rest(list.segments))[..n]
      && list.size == old(list.size) - n && Walkable(list.segments)
      && Buffers(result.segments) !! Buffers(list.segments)
      && iter.Placed(list.segments) && iter.Rest(list.segments) == old(iter.Rest(list.segments))[n..]
      && (iter.Rest(list.segments) == [] || iter.In(list.segments))
    ensures outcome.Failed? ==>
      && result.segments == [] && result.size == 0
      && list.segments == old(list.segments) && list.size == old(list.size)
      && list.Content() == old(list.Content()) && iter.In(list.segments)
    ensures |old(iter.Rest(list.segments))| < n || !reserveOk ==>
      outcome.Failed? && iter.Rest(list.segments) == old(iter.Rest(list.segments))
    ensures n <= |old(iter.Rest(list.segments))| && reserveOk && list.standardCapacity == 0 ==> outcome.Crashed?
    ensures n <= |old(iter.Rest(list.segments))| && reserveOk && 0 < list.standardCapacity ==>
      var copied := FirstCopied(old(iter.RemainingInSegment()), n, list.standardCapacity, mallocOk);
      var last := LastPiece(old(iter.RemainingInSegment()), old(iter.Behind(list.segments)), n);
      && (outcome.Crashed? <==> copied && list.standardCapacity < last)
      && (outcome.Failed? <==> !copied || (0 < last <= list.standardCapacity && !finalOk))
      && (outcome.Failed? ==> IterAfterFailure(old(iter.Rest(list.segments)), old(iter.RemainingInSegment()), copied,
            iter.Rest(list.segments)))
    ensures outcome.Crashed? ==>
      list.standardCapacity == 0 || SomeLargerThan(old(list.segments), list.standardCapacity)
    ensures reserveOk && finalOk && (forall i: nat :: mallocOk(i)) && n <= |old(iter.Rest(list.segments))| ==>
      !outcome.Failed?
    ensures n <= old(iter.RemainingInSegment()) ==> list.segments == old(list.segments)
  {
    hide IterAfterFailure, LastPiece, Flat, Buffers, Walkable, ShapeOk, Separate, AllInUse, SegmentsOk, Spans,
      Iter.In, Iter.Placed, Iter.Rest, Iter.Behind, Ahead, Iter.Left, SomeLargerThan;
    ListParts(list, iter);
    ghost var rest := iter.Rest(list.segments);
    var enough, whole, last := CountSegments(list.segments, iter, n);
    result := NewBeside(list.standardCapacity, list.segments, iter);
    FlatSame(list.segments);
    if !enough || !reserveOk {
      return Failed, result;
    }
    if list.standardCapacity == 0 {
      return Crashed, result;
    }
    outcome := Transfer(list, iter, n, whole, last, result, mallocOk, finalOk);
    if outcome == Extracted {
      SetSizes(list, list.size - n, result, n, iter);
      CutAt(rest, result.Content(), iter.Rest(list.segments));
    } else if outcome == Failed {
      FlatSame(list.segments);
    }
  }
}
