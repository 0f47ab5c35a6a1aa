/** What the segment lists of mfbt/BufferList.h look like, and what appending to them keeps. */
module SegmentLayout {
  import opened Bytes
  import opened Segments

  const SEGMENT_ALIGNMENT := 8

  function RoundUp(n: nat): nat {
    (n + SEGMENT_ALIGNMENT - 1) / SEGMENT_ALIGNMENT * SEGMENT_ALIGNMENT
  }

  /** The unused bytes of the last segment. */
  ghost function Room(segs: seq<Segment>): nat {
    if segs == [] || Last(segs).capacity < Last(segs).size then 0 else Last(segs).capacity - Last(segs).size
  }

  /** Only the last segment may be empty. */
  ghost predicate ShapeOk(segs: seq<Segment>) {
    && SegmentsOk(segs)
    && (forall i :: 0 <= i < |segs| ==> 0 < segs[i].capacity)
    && (forall i :: 0 <= i < |segs| - 1 ==> 0 < segs[i].size)
  }

  /** Only a lone segment may be empty: iterators fail a release assertion on entering an empty segment. */
  ghost predicate Walkable(segs: seq<Segment>) {
    && SegmentsOk(segs)
    && (forall i :: 0 <= i < |segs| ==> 0 < segs[i].capacity)
    && (|segs| == 1 || forall i :: 0 <= i < |segs| ==> 0 < segs[i].size)
  }

  function End(s: Segment): nat {
    s.start + s.size
  }

  /** The assertion made on entering a segment from the one before. */
  ghost predicate EntersWell(segs: seq<Segment>, i: nat)
    requires i < |segs|
  {
    segs[i].start < End(segs[i])
  }

  /** The only way for a list of this shape not to be walkable. */
  ghost predicate EndsEmpty(segs: seq<Segment>) {
    1 < |segs| && Last(segs).size == 0
  }

  /** The release assertion on entering a segment holds at every crossing exactly if the list is walkable. */
  lemma WalkableIff(segs: seq<Segment>)
    requires ShapeOk(segs)
    ensures Walkable(segs) <==> !EndsEmpty(segs)
    ensures Walkable(segs) <==> forall i :: 0 < i < |segs| ==> EntersWell(segs, i)
  {
    if 1 < |segs| && Walkable(segs) {
      assert forall i :: 0 < i < |segs| ==> 0 < segs[i].size;
    }
    if 1 < |segs| && EntersWell(segs, |segs| - 1) {
      assert forall i :: 0 <= i < |segs| ==> 0 < segs[i].size;
    }
  }

  lemma WalkableCrossing(segs: seq<Segment>, i: nat)
    requires Walkable(segs) && 0 < i < |segs|
    ensures EntersWell(segs, i)
  {
  }

  ghost predicate AllInUse(segs: seq<Segment>) {
    SegmentsOk(segs) && forall i :: 0 <= i < |segs| ==> 0 < segs[i].size
  }

  lemma LastInUse(segs: seq<Segment>)
    requires AllInUse(segs) && segs != []
    ensures 0 < Last(segs).size
  {
  }

  lemma AllInUseShape(segs: seq<Segment>)
    requires AllInUse(segs)
    ensures ShapeOk(segs) && Walkable(segs)
  {
  }

  lemma NoSegments()
    ensures AllInUse([]) && SegmentsOk([]) && Walkable([]) && Separate([]) && Flat([]) == [] && Buffers([]) == {}
  {
  }

  lemma AllInUseIf(segs: seq<Segment>)
    requires Walkable(segs) && Flat(segs) != []
    ensures AllInUse(segs)
  {
    FlatLength(segs);
    if |segs| == 1 {
      assert TotalSize(segs) == segs[0].size + TotalSize(segs[1..]);
    }
  }

  /** The layout that lists grown only by writing have. */
  ghost predicate PackedSegments(segs: seq<Segment>) {
    && (forall i :: 0 <= i < |segs| ==> segs[i].start == 0 && segs[i].capacity % SEGMENT_ALIGNMENT == 0)
    && (forall i :: 0 <= i < |segs| - 1 ==> segs[i].size == segs[i].capacity)
  }

  /** Every segment of a packed list starts at an offset divisible by 8... */
  lemma {:induction false} SegmentOffsetAligned(segs: seq<Segment>, i: nat)
    requires PackedSegments(segs) && i < |segs|
    ensures TotalSize(segs[..i]) % SEGMENT_ALIGNMENT == 0
  {
    if i > 0 {
      SegmentOffsetAligned(segs[1..], i - 1);
      assert segs[..i][1..] == segs[1..][..i - 1];
    }
  }

  /** Where the byte at some offset is. */
  lemma {:induction false} ByteFound(segs: seq<Segment>, offset: nat) returns (i: nat, at: nat)
    requires SegmentsOk(segs) && offset < |Flat(segs)|
    ensures i < |segs| && segs[i].start <= at < segs[i].start + segs[i].size
    ensures offset == TotalSize(segs[..i]) + at - segs[i].start
    ensures SegmentOk(segs[i]) && segs[i].data[at] == Flat(segs)[offset]
  {
    if offset < segs[0].size {
      i, at := 0, segs[0].start + offset;
    } else {
      i, at := ByteFound(segs[1..], offset - segs[0].size);
      i := i + 1;
      assert segs[..i][1..] == segs[1..][..i - 1];
    }
  }

  /** ...so a byte's offset in the list and its place in its buffer agree modulo 8. */
  lemma ByteAligned(segs: seq<Segment>, offset: nat) returns (i: nat, at: nat)
    requires SegmentsOk(segs) && PackedSegments(segs) && offset < |Flat(segs)|
    ensures i < |segs| && segs[i].start <= at < segs[i].start + segs[i].size
    ensures SegmentOk(segs[i]) && segs[i].data[at] == Flat(segs)[offset]
    ensures at % SEGMENT_ALIGNMENT == offset % SEGMENT_ALIGNMENT
  {
    hide TotalSize, Flat, SegmentsOk;
    i, at := ByteFound(segs, offset);
    SegmentOffsetAligned(segs, i);
  }

  /** The byte at `at` in the buffer of segment i has an offset in the list that agrees with it modulo 8. */
  ghost predicate OffsetAgrees(segs: seq<Segment>, i: nat, at: nat)
    requires i < |segs| && segs[i].start <= at
  {
    (TotalSize(segs[..i]) + at - segs[i].start) % SEGMENT_ALIGNMENT == at % SEGMENT_ALIGNMENT
  }

  ghost predicate BytesAligned(segs: seq<Segment>) {
    forall i: nat, at: nat :: i < |segs| && segs[i].start <= at < End(segs[i]) ==> OffsetAgrees(segs, i, at)
  }

  lemma PackedAligned(segs: seq<Segment>)
    requires PackedSegments(segs)
    ensures BytesAligned(segs)
  {
    hide TotalSize;
    forall i: nat, at: nat | i < |segs| && segs[i].start <= at < End(segs[i]) ensures OffsetAgrees(segs, i, at) {
      SegmentOffsetAligned(segs, i);
    }
  }

  lemma GrowKeeps(segs: seq<Segment>, more: nat)
    requires segs != [] && ShapeOk(segs) && Last(segs).size + more <= Last(segs).capacity
    requires Separate(segs)
    ensures ShapeOk(GrowLast(segs, more)) && Separate(GrowLast(segs, more))
    ensures PackedSegments(segs) ==> PackedSegments(GrowLast(segs, more))
    ensures LastBuffer(GrowLast(segs, more)) == LastBuffer(segs)
  {
  }

  lemma SnocKeeps(segs: seq<Segment>, s: Segment)
    requires ShapeOk(segs) && SegmentOk(s) && 0 < s.capacity
    requires segs != [] ==> 0 < Last(segs).size
    ensures ShapeOk(segs + [s])
    ensures Separate(segs) && s.data !in Buffers(segs) ==> Separate(segs + [s])
    ensures (PackedSegments(segs) && (segs != [] ==> Last(segs).size == Last(segs).capacity)
             && s.start == 0 && s.capacity % SEGMENT_ALIGNMENT == 0) ==> PackedSegments(segs + [s])
  {
    forall i | 0 <= i < |segs| ensures segs[i].data in Buffers(segs) {
      assert segs[i] in segs;
    }
  }

  lemma {:induction false} FlatSlice(segs: seq<Segment>, i: nat)
    requires SegmentsOk(segs) && i < |segs|
    ensures TotalSize(segs[..i + 1]) == TotalSize(segs[..i]) + segs[i].size <= |Flat(segs)|
    ensures Flat(segs)[..TotalSize(segs[..i])] + SegmentBytes(segs[i]) == Flat(segs)[..TotalSize(segs[..i + 1])]
  {
    hide Flat, TotalSize;
    assert segs == segs[..i + 1] + segs[i + 1..];
    assert segs[..i + 1] == segs[..i] + [segs[i]];
    FlatSnoc(segs[..i], segs[i]);
    FlatSplit(segs[..i + 1], segs[i + 1..]);
    FlatLength(segs[..i]);
    FlatLength(segs[..i + 1]);
    FlatPrefix(Flat(segs[..i]), SegmentBytes(segs[i]), Flat(segs[i + 1..]));
  }

  lemma FlatPrefix(a: seq<Byte>, b: seq<Byte>, c: seq<Byte>)
    ensures (a + b + c)[..|a|] + b == (a + b + c)[..|a + b|]
  {
  }

  ghost predicate GrownInPlace(before: seq<Segment>, after: seq<Segment>, more: nat) {
    before != [] && after == GrowLast(before, more)
  }

  ghost predicate AllButLastIs(segs: seq<Segment>, before: seq<Segment>) {
    segs != [] && AllButLast(segs) == before
  }

  lemma BuffersGrow(before: seq<Segment>, after: seq<Segment>)
    requires SegmentsOk(before) && SegmentsOk(after) && after != []
    requires (before != [] && exists more: nat :: after == GrowLast(before, more)) || AllButLastIs(after, before)
    ensures Buffers(after) == Buffers(before) + LastBuffer(after)
  {
    LastApart(after);
    if before != [] {
      LastApart(before);
    }
  }

  lemma TakeMore(s: seq<Byte>, i: nat, more: nat)
    requires i + more <= |s|
    ensures s[..i] + s[i..][..more] == s[..i + more]
  {
  }

  /** The same segments with their unused capacity given up. */
  function Trimmed(segs: seq<Segment>): (r: seq<Segment>)
    ensures |r| == |segs|
    ensures forall i :: 0 <= i < |r| ==> r[i] == segs[i].(capacity := segs[i].size)
  {
    seq(|segs|, i requires 0 <= i < |segs| => segs[i].(capacity := segs[i].size))
  }

  lemma {:induction false} TrimmedFlat(segs: seq<Segment>)
    requires SegmentsOk(segs)
    ensures SegmentsOk(Trimmed(segs)) && Flat(Trimmed(segs)) == Flat(segs)
    ensures TotalSize(Trimmed(segs)) == TotalSize(segs)
  {
    if segs != [] {
      TrimmedFlat(segs[1..]);
      assert Trimmed(segs)[1..] == Trimmed(segs[1..]);
      assert SegmentBytes(Trimmed(segs)[0]) == SegmentBytes(segs[0]);
    }
  }

  lemma TrimmedNext(segs: seq<Segment>, i: nat)
    requires i < |segs|
    ensures Trimmed(segs[..i + 1])
      == Trimmed(segs[..i]) + [Segment(segs[i].data, segs[i].start, segs[i].size, segs[i].size)]
  {
  }

  /** Trimming a packed list leaves it packed only if its bytes are a multiple of 8. */
  lemma TrimmedPacked(segs: seq<Segment>)
    requires PackedSegments(segs)
    ensures PackedSegments(Trimmed(segs)) <==> TotalSize(segs) % SEGMENT_ALIGNMENT == 0
  {
    if segs != [] {
      LastSizeAligned(segs);
      hide TotalSize;
      var t := Trimmed(segs);
      assert forall i :: 0 <= i < |segs| - 1 ==> segs[i].size == segs[i].capacity;
      if PackedSegments(t) {
        assert t[|segs| - 1].capacity % SEGMENT_ALIGNMENT == 0;
      }
    }
  }

  lemma LastSizeAligned(segs: seq<Segment>)
    requires PackedSegments(segs) && segs != []
    ensures TotalSize(segs) % SEGMENT_ALIGNMENT == Last(segs).size % SEGMENT_ALIGNMENT
  {
    hide PackedSegments, TotalSize;
    var n := |segs| - 1;
    SegmentOffsetAligned(segs, n);
    TotalSizeSnoc(segs[..n], segs[n]);
    assert segs == segs[..n] + [segs[n]];
  }

  /** What MoveFallible hands over: the used parts, and nothing of a lone empty segment. */
  ghost function Gathered(segs: seq<Segment>): seq<Segment> {
    if AllInUse(segs) then Trimmed(segs) else []
  }

  lemma GatheredSame(segs: seq<Segment>)
    requires Walkable(segs)
    ensures ShapeOk(Gathered(segs)) && Flat(Gathered(segs)) == Flat(segs)
    ensures TotalSize(Gathered(segs)) == TotalSize(segs) && Room(Gathered(segs)) == 0
    ensures LastBuffer(Gathered(segs)) <= LastBuffer(segs)
    ensures Separate(segs) ==> Separate(Gathered(segs))
    ensures PackedSegments(segs) ==>
      (PackedSegments(Gathered(segs)) <==> TotalSize(segs) % SEGMENT_ALIGNMENT == 0)
  {
    hide *;
    if AllInUse(segs) {
      GatheredIs(segs);
      TrimmedFlat(segs);
      TrimmedShape(segs);
      if PackedSegments(segs) {
        TrimmedPacked(segs);
      }
    } else {
      GatheredIs(segs);
      LoneEmpty(segs);
    }
  }

  lemma GatheredIs(segs: seq<Segment>)
    requires Walkable(segs)
    ensures Gathered(segs) == if AllInUse(segs) then Trimmed(segs) else []
    ensures SegmentsOk(segs)
    ensures ShapeOk([]) && Flat([]) == [] && TotalSize([]) == 0 && Room([]) == 0 && LastBuffer([]) == {}
    ensures Separate([]) && PackedSegments([]) && 0 % SEGMENT_ALIGNMENT == 0
  {
  }

  lemma TrimmedShape(segs: seq<Segment>)
    requires AllInUse(segs)
    ensures ShapeOk(Trimmed(segs)) && Room(Trimmed(segs)) == 0 && LastBuffer(Trimmed(segs)) <= LastBuffer(segs)
    ensures Separate(segs) ==> Separate(Trimmed(segs))
  {
  }

  lemma LoneEmpty(segs: seq<Segment>)
    requires Walkable(segs) && !AllInUse(segs)
    ensures TotalSize(segs) == 0 && Flat(segs) == []
  {
    assert segs == [segs[0]] && segs[0].size == 0;
    assert segs[1..] == [];
    FlatLength(segs);
  }

  lemma {:induction false} TotalSizeSnoc(a: seq<Segment>, s: Segment)
    ensures TotalSize(a + [s]) == TotalSize(a) + s.size
  {
    if a != [] {
      assert (a + [s])[1..] == a[1..] + [s];
      TotalSizeSnoc(a[1..], s);
    } else {
      assert a + [s] == [s];
      assert [s][1..] == [];
    }
  }

  lemma NothingCounted()
    ensures TotalSize([]) == 0
  {
  }

  lemma TotalSizeHead(segs: seq<Segment>, i: nat)
    requires i < |segs|
    ensures TotalSize(segs[i..]) == segs[i].size + TotalSize(segs[i + 1..])
  {
    assert segs[i..][1..] == segs[i + 1..];
  }

  lemma TotalSizeNone(segs: seq<Segment>)
    ensures TotalSize(segs[|segs|..]) == 0
  {
  }
}
