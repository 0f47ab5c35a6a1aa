/** The segments of mfbt/BufferList.h and the byte sequence they hold. */
module Segments {
  import opened Bytes

  /** A stretch of a buffer: mData is data + start, of which the first size bytes are in use. */
  datatype Segment = Segment(data: array<Byte>, start: nat, size: nat, capacity: nat)

  ghost predicate SegmentOk(s: Segment) {
    s.size <= s.capacity && s.start + s.capacity <= s.data.Length
  }

  ghost predicate SegmentsOk(segs: seq<Segment>) {
    forall i :: 0 <= i < |segs| ==> SegmentOk(segs[i])
  }

  ghost function Buffers(segs: seq<Segment>): set<array<Byte>> {
    set s | s in segs :: s.data
  }

  lemma BuffersAllocated(segs: seq<Segment>)
    ensures forall b :: b in Buffers(segs) ==> allocated(b)
  {
  }

  ghost function SegmentBytes(s: Segment): seq<Byte>
    requires SegmentOk(s)
    reads s.data
  {
    s.data[s.start..s.start + s.size]
  }

  /** All bytes, in order. */
  ghost function Flat(segs: seq<Segment>): seq<Byte>
    requires SegmentsOk(segs)
    reads Buffers(segs)
  {
    if segs == [] then []
    else
      assert segs[0] in segs && forall s :: s in segs[1..] ==> s in segs;
      SegmentBytes(segs[0]) + Flat(segs[1..])
  }

  ghost function TotalSize(segs: seq<Segment>): nat {
    if segs == [] then 0 else segs[0].size + TotalSize(segs[1..])
  }

  lemma {:induction false} FlatLength(segs: seq<Segment>)
    requires SegmentsOk(segs)
    ensures |Flat(segs)| == TotalSize(segs)
  {
    if segs != [] {
      FlatLength(segs[1..]);
    }
  }

  lemma {:induction false} FlatSplit(a: seq<Segment>, b: seq<Segment>)
    requires SegmentsOk(a) && SegmentsOk(b)
    ensures SegmentsOk(a + b) && Flat(a + b) == Flat(a) + Flat(b)
    ensures TotalSize(a + b) == TotalSize(a) + TotalSize(b)
  {
    if a == [] {
      assert a + b == b;
    } else {
      assert (a + b)[1..] == a[1..] + b;
      FlatSplit(a[1..], b);
    }
  }

  lemma FlatSnoc(a: seq<Segment>, s: Segment)
    requires SegmentsOk(a) && SegmentOk(s)
    ensures SegmentsOk(a + [s]) && Flat(a + [s]) == Flat(a) + SegmentBytes(s)
    ensures TotalSize(a + [s]) == TotalSize(a) + s.size
  {
    FlatSplit(a, [s]);
    assert Flat([s]) == SegmentBytes(s) + Flat([s][1..]);
    assert TotalSize([s]) == s.size + TotalSize([s][1..]);
  }

  /** Only the used bytes matter. */
  twostate lemma {:induction false} FlatSame(segs: seq<Segment>)
    requires SegmentsOk(segs)
    requires forall s :: s in segs ==> old(SegmentBytes(s)) == SegmentBytes(s)
    ensures Flat(segs) == old(Flat(segs))
  {
    if segs != [] {
      assert segs[0] in segs && forall s :: s in segs[1..] ==> s in segs;
      FlatSame(segs[1..]);
    }
  }

  /** No two segments share a buffer. */
  ghost predicate Separate(segs: seq<Segment>) {
    forall i, j :: 0 <= i < j < |segs| ==> segs[i].data != segs[j].data
  }

  function Last(segs: seq<Segment>): Segment
    requires segs != []
  {
    segs[|segs| - 1]
  }

  function AllButLast(segs: seq<Segment>): seq<Segment>
    requires segs != []
  {
    segs[..|segs| - 1]
  }

  /** The buffer that writing may touch. */
  ghost function LastBuffer(segs: seq<Segment>): set<array<Byte>> {
    if segs == [] then {} else {Last(segs).data}
  }

  lemma LastApart(segs: seq<Segment>)
    requires segs != []
    ensures segs == AllButLast(segs) + [Last(segs)]
    ensures Buffers(segs) == Buffers(AllButLast(segs)) + {Last(segs).data}
    ensures Separate(segs) ==> Last(segs).data !in Buffers(AllButLast(segs))
  {
    assert segs == AllButLast(segs) + [Last(segs)];
  }

  /** The last segment after `more` further bytes of its capacity are taken into use. */
  function GrowLast(segs: seq<Segment>, more: nat): seq<Segment>
    requires segs != []
  {
    AllButLast(segs) + [Last(segs).(size := Last(segs).size + more)]
  }

  lemma PrefixAfter(a: seq<Byte>, b: seq<Byte>, c: seq<Byte>)
    requires b <= c
    ensures a + b <= a + c
  {
  }

  lemma GrowLastFlat(segs: seq<Segment>, more: nat)
    requires segs != [] && SegmentsOk(segs) && Last(segs).size + more <= Last(segs).capacity
    ensures SegmentsOk(GrowLast(segs, more))
    ensures TotalSize(GrowLast(segs, more)) == TotalSize(segs) + more
    ensures Flat(segs) <= Flat(GrowLast(segs, more))
  {
    hide Flat, TotalSize, SegmentOk, SegmentsOk, SegmentBytes;
    var last, front := Last(segs), AllButLast(segs);
    LastIsOk(segs);
    MoreBytes(last, more);
    FlatSnoc(front, last);
    FlatSnoc(front, last.(size := last.size + more));
    PrefixAfter(Flat(front), SegmentBytes(last), SegmentBytes(last.(size := last.size + more)));
  }

  lemma LastIsOk(segs: seq<Segment>)
    requires segs != [] && SegmentsOk(segs)
    ensures SegmentsOk(AllButLast(segs)) && SegmentOk(Last(segs)) && segs == AllButLast(segs) + [Last(segs)]
  {
  }

  lemma MoreBytes(s: Segment, more: nat)
    requires SegmentOk(s) && s.size + more <= s.capacity
    ensures SegmentOk(s.(size := s.size + more)) && SegmentBytes(s) <= SegmentBytes(s.(size := s.size + more))
  {
  }

  /** memcpy from a byte string. */
  method Store(a: array<Byte>, at: nat, bytes: seq<Byte>)
    requires at + |bytes| <= a.Length
    modifies a
    ensures a[at..at + |bytes|] == bytes
    ensures a[..at] == old(a[..at]) && a[at + |bytes|..] == old(a[at + |bytes|..])
  {
    for i := 0 to |bytes|
      invariant a[at..at + i] == bytes[..i]
      invariant a[..at] == old(a[..at]) && a[at + i..] == old(a[at + i..])
    {
      a[at + i] := bytes[i];
      assert a[at + i + 1..] == old(a[at + i..])[1..];
    }
  }

  /** memcpy into the most recently granted bytes. */
  method StoreAtEnd(segs: seq<Segment>, bytes: seq<Byte>)
    requires segs != [] && SegmentsOk(segs) && Separate(segs) && |bytes| <= Last(segs).size
    modifies Last(segs).data
    ensures TotalSize(segs) == |old(Flat(segs))| >= |bytes|
    ensures Flat(segs) == old(Flat(segs))[..TotalSize(segs) - |bytes|] + bytes
  {
    hide Flat, TotalSize, Separate;
    ghost var before := AllButLast(segs);
    LastIsOk(segs);
    LastApart(segs);
    FlatLength(segs);
    FlatSnoc(before, Last(segs));
    BuffersApart(before, Last(segs).data);
    StoreInSegment(Last(segs), bytes);
    FlatSame(before);
    FlatSnoc(before, Last(segs));
  }

  lemma BuffersApart(segs: seq<Segment>, data: array<Byte>)
    requires data !in Buffers(segs)
    ensures forall s :: s in segs ==> s.data != data
  {
    forall s | s in segs ensures s.data != data {
      assert s.data in Buffers(segs);
    }
  }

  method StoreInSegment(s: Segment, bytes: seq<Byte>)
    requires SegmentOk(s) && |bytes| <= s.size
    modifies s.data
    ensures SegmentBytes(s) == old(SegmentBytes(s))[..s.size - |bytes|] + bytes
  {
    ghost var kept := s.data[s.start..s.start + s.size - |bytes|];
    assert SegmentBytes(s)[..s.size - |bytes|] == kept;
    Store(s.data, s.start + s.size - |bytes|, bytes);
    assert kept == s.data[..s.start + s.size - |bytes|][s.start..];
    assert SegmentBytes(s) == kept + bytes;
  }
}
