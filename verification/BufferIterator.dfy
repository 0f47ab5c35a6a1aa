/**
 * The iterator of mfbt/BufferList.h.
 *
 * The list an iterator walks enters its methods as that list's segments. Of the release assertions of the original,
 * only the one after a crossing can fail: an iterator crashes on entering an empty segment.
 */
module BufferIterators {
  import opened Bytes
  import opened SegmentLayout
  import opened Segments

  const TWO_TO_32: nat := 0x1_0000_0000

  /** What is left of the current segment, and everything behind it. */
  ghost function Ahead(segs: seq<Segment>, segment: nat, left: seq<Byte>): seq<Byte>
    requires SegmentsOk(segs)
    reads Buffers(segs)
  {
    left + if segment < |segs| then Flat(SuffixOf(segs, segment + 1)) else []
  }

  /** All but the first i segments. */
  ghost function SuffixOf(segs: seq<Segment>, i: nat): (r: seq<Segment>)
    requires SegmentsOk(segs) && i <= |segs|
    ensures SegmentsOk(r) && Buffers(r) <= Buffers(segs)
  {
    segs[i..]
  }

  /** Moving on within a segment. */
  lemma AheadWithin(segs: seq<Segment>, segment: nat, left: seq<Byte>, n: nat)
    requires SegmentsOk(segs) && n <= |left|
    ensures n <= |Ahead(segs, segment, left)|
    ensures Ahead(segs, segment, left[n..]) == Ahead(segs, segment, left)[n..]
    ensures left[..n] == Ahead(segs, segment, left)[..n]
  {
  }

  /** At the end of a segment, going to the start of the next changes nothing. */
  lemma AheadAcross(segs: seq<Segment>, segment: nat)
    requires SegmentsOk(segs) && segment + 1 < |segs|
    ensures Ahead(segs, segment, []) == Ahead(segs, segment + 1, SegmentBytes(segs[segment + 1]))
  {
    assert segs[segment + 1..][1..] == segs[segment + 2..];
  }

  lemma AheadMoved(segs: seq<Segment>, k: nat, left: seq<Byte>, n: nat, kNow: nat, leftNow: seq<Byte>)
    requires SegmentsOk(segs) && k < |segs| && n <= |left|
    requires if n == |left| && k + 1 < |segs| then kNow == k + 1 && leftNow == SegmentBytes(segs[k + 1])
      else kNow == k && leftNow == left[n..]
    ensures n <= |Ahead(segs, k, left)| && Ahead(segs, kNow, leftNow) == Ahead(segs, k, left)[n..]
  {
    hide Ahead, Flat, Buffers;
    AheadWithin(segs, k, left, n);
    if n == |left| && k + 1 < |segs| {
      assert left[n..] == [];
      AheadAcross(segs, k);
    }
  }

  /** What is ahead depends on the bytes in use only. */
  twostate lemma AheadSame(segs: seq<Segment>, new segment: nat, new left: seq<Byte>)
    requires SegmentsOk(segs)
    requires forall s :: s in segs ==> old(SegmentBytes(s)) == SegmentBytes(s)
    ensures Ahead(segs, segment, left) == old(Ahead(segs, segment, left))
  {
    if segment < |segs| {
      assert forall s :: s in SuffixOf(segs, segment + 1) ==> s in segs;
      FlatSame(SuffixOf(segs, segment + 1));
    }
  }

  /** What asking for n bytes gives when `rest` is left: whether they are there, the bytes, and what is left. */
  ghost function Asked(rest: seq<Byte>, n: nat): (bool, seq<Byte>, seq<Byte>) {
    if n <= |rest| then (true, rest[..n], rest[n..]) else (false, rest, [])
  }

  /** Asking twice is asking once for the sum. */
  lemma AskedTwice(rest: seq<Byte>, a: nat, b: nat)
    ensures var (ok1, bytes1, rest1) := Asked(rest, a);
      var (ok2, bytes2, rest2) := Asked(rest1, b);
      ok1 ==> Asked(rest, a + b) == (ok2, bytes1 + bytes2, rest2)
  {
    if a <= |rest| {
      if a + b <= |rest| {
        assert rest[a..][..b] == rest[a..a + b];
        assert rest[..a] + rest[a..][..b] == rest[..a + b];
        assert rest[a..][b..] == rest[a + b..];
      } else {
        assert rest[..a] + rest[a..] == rest;
      }
    }
  }

  lemma SliceOn(s: seq<Byte>, i: nat, n: nat)
    requires i + n <= |s|
    ensures s[i..][n..] == s[i + n..] && s[..i] + s[i..][..n] == s[..i + n]
  {
  }

  class Iter {
    var segment: nat
    var buf: array?<Byte>
    var data: nat
    var dataEnd: nat

    /** Enough to speak of the bytes ahead; an iterator left behind by Extract may be no more than this. */
    ghost predicate Placed(segs: seq<Segment>)
      reads this
    {
      && SegmentsOk(segs) && data <= dataEnd
      && if buf == null then data == dataEnd else dataEnd <= buf.Length
    }

    /** The invariants the original lists, and the pointers being into the current segment. */
    ghost predicate Inside(segs: seq<Segment>)
      reads this
    {
      && Placed(segs) && ShapeOk(segs)
      && if segs == [] then segment == 0 && data == dataEnd
         else
           && segment < |segs| && buf == segs[segment].data
           && segs[segment].start <= data && dataEnd == segs[segment].start + segs[segment].size
           && (segment + 1 < |segs| ==> data < dataEnd)
    }

    /** Inside a list in which no crossing fails. */
    ghost predicate In(segs: seq<Segment>)
      reads this
    {
      Inside(segs) && Walkable(segs)
    }

    ghost function Rest(segs: seq<Segment>): seq<Byte>
      requires Placed(segs)
      reads this, buf, Buffers(segs)
    {
      Ahead(segs, segment, Left())
    }

    /** The bytes left in the current segment. */
    ghost function Left(): seq<Byte>
      requires data <= dataEnd && if buf == null then data == dataEnd else dataEnd <= buf.Length
      reads this, buf
    {
      if buf == null then [] else buf[data..dataEnd]
    }

    constructor (segs: seq<Segment>)
      requires ShapeOk(segs)
      ensures Inside(segs) && (Walkable(segs) ==> In(segs)) && Rest(segs) == Flat(segs)
      ensures segment == 0 && (segs != [] ==> data == segs[0].start)
    {
      segment, buf, data, dataEnd := 0, null, 0, 0;
      if segs != [] {
        buf, data, dataEnd := segs[0].data, segs[0].start, segs[0].start + segs[0].size;
      }
    }

    constructor Copy(other: Iter)
      ensures segment == other.segment && buf == other.buf && data == other.data && dataEnd == other.dataEnd
    {
      segment, buf, data, dataEnd := other.segment, other.buf, other.data, other.dataEnd;
    }

    function RemainingInSegment(): nat
      requires data <= dataEnd
      reads this
    {
      dataEnd - data
    }

    /** The segments after the current one. */
    ghost function Behind(segs: seq<Segment>): seq<Segment>
      reads this
    {
      if segment < |segs| then segs[segment + 1..] else []
    }

    predicate Done()
      reads this
    {
      data == dataEnd
    }

    /** Done means just that nothing is left. */
    lemma DoneIffNothingLeft(segs: seq<Segment>)
      requires Inside(segs)
      ensures Done() <==> Rest(segs) == []
      ensures RemainingInSegment() <= |Rest(segs)|
    {
    }

    /** The parameter is a uint32_t: a larger argument is cut to its low 32 bits on the way in. */
    method HasBytesAvailable(segs: seq<Segment>, bytes: nat) returns (r: bool)
      requires In(segs)
      ensures r <==> bytes % TWO_TO_32 <= |Rest(segs)|
    {
      hide Flat, SegmentBytes, Ahead, Walkable, SegmentsOk, Iter.Rest, TotalSize, Buffers;
      RestLength(segs);
      var n := bytes % TWO_TO_32;
      if RemainingInSegment() >= n {
        return true;
      }
      n := n - RemainingInSegment();
      if segs == [] {
        return false;
      }
      var i := segment + 1;
      while i < |segs|
        invariant segment < i <= |segs|
        invariant 0 < n && bytes % TWO_TO_32 - n + TotalSize(segs[i..]) == |Rest(segs)|
      {
        TotalSizeHead(segs, i);
        if segs[i].size >= n {
          return true;
        }
        n := n - segs[i].size;
        i := i + 1;
      }
      TotalSizeNone(segs);
      return false;
    }

    lemma RestLength(segs: seq<Segment>)
      requires Inside(segs)
      ensures |Rest(segs)| == RemainingInSegment() + if segs == [] then 0 else TotalSize(segs[segment + 1..])
    {
      if segs != [] {
        FlatLength(SuffixOf(segs, segment + 1));
      }
    }

    /** What moving the pointers as Advance does means for the bytes ahead. */
    twostate lemma Moved(segs: seq<Segment>, new n: nat)
      requires old(Inside(segs)) && segs != [] && n <= old(RemainingInSegment())
      requires if old(data) + n == old(dataEnd) && old(segment) + 1 < |segs|
        then (segment == old(segment) + 1 && buf == segs[segment].data && data == segs[segment].start
              && dataEnd == data + segs[segment].size && data < dataEnd)
        else (segment == old(segment) && buf == old(buf) && data == old(data) + n && dataEnd == old(dataEnd)
              && Left() == old(Left())[n..])
      requires forall s :: s in segs ==> old(SegmentBytes(s)) == SegmentBytes(s)
      ensures Inside(segs) && n <= |old(Rest(segs))| && Rest(segs) == old(Rest(segs))[n..]
    {
      hide Flat, Ahead, Buffers;
      ghost var k, left := old(segment), old(Left());
      AheadSame(segs, k, left);
      AheadMoved(segs, k, left, n, segment, Left());
    }

    /** The assertion after a crossing may fail; the others hold. */
    method Advance(segs: seq<Segment>, n: nat) returns (crashed: bool)
      requires Inside(segs) && segs != [] && n <= RemainingInSegment()
      modifies this
      ensures crashed <==>
        old(data) + n == old(dataEnd) && old(segment) + 1 < |segs| && segs[old(segment) + 1].size == 0
      ensures !crashed ==> Inside(segs) && n <= |old(Rest(segs))| && Rest(segs) == old(Rest(segs))[n..]
      ensures !crashed ==>
        if old(data) + n == old(dataEnd) && old(segment) + 1 < |segs|
        then segment == old(segment) + 1 && data == segs[segment].start
        else segment == old(segment) && data == old(data) + n
    {
      hide Flat, Ahead, ShapeOk, SegmentsOk, Iter.Rest;
      var current := segs[segment];
      assert current.start <= data;
      assert data <= dataEnd;
      assert dataEnd == End(current);
      assert n <= RemainingInSegment();
      data := data + n;
      if data == dataEnd && segment + 1 < |segs| {
        segment := segment + 1;
        var next := segs[segment];
        buf, data, dataEnd := next.data, next.start, End(next);
        if !(data < dataEnd) {
          return true;
        }
      }
      Moved(segs, n);
      crashed := false;
    }

    /** Advance in a list in which no crossing fails. */
    method MoveOn(segs: seq<Segment>, n: nat)
      requires In(segs) && segs != [] && n <= RemainingInSegment()
      modifies this
      ensures In(segs) && n <= |old(Rest(segs))| && Rest(segs) == old(Rest(segs))[n..]
      ensures if old(data) + n == old(dataEnd) && old(segment) + 1 < |segs|
        then segment == old(segment) + 1 && data == segs[segment].start
        else segment == old(segment) && data == old(data) + n
    {
      hide Flat, Ahead, ShapeOk, SegmentsOk, Iter.Rest;
      if segment + 1 < |segs| {
        WalkableCrossing(segs, segment + 1);
      }
      var crashed := Advance(segs, n);
      assert !crashed;
    }

    /** To the start of the next segment, or to the end. */
    method FinishSegment(segs: seq<Segment>)
      requires In(segs) && segs != []
      modifies this
      ensures In(segs) && old(RemainingInSegment()) <= |old(Rest(segs))|
      ensures Rest(segs) == old(Rest(segs))[old(RemainingInSegment())..]
      ensures if old(segment) + 1 < |segs|
        then
          && segment == old(segment) + 1 && data == segs[segment].start
          && RemainingInSegment() == segs[segment].size > 0
        else segment == old(segment) && Done()
    {
      hide Flat, Ahead, Iter.Rest;
      MoveOn(segs, RemainingInSegment());
    }

    /** Between the segments ahead there is one crossing that fails: the one into an empty last segment. */
    ghost predicate CrashAhead(segs: seq<Segment>)
      reads this
    {
      EndsEmpty(segs) && segment + 1 < |segs|
    }

    /** That crossing comes when nothing is left but the empty segment. */
    lemma CrossingIntoEmpty(segs: seq<Segment>)
      requires Inside(segs)
      ensures segment + 1 < |segs| ==> 0 < RemainingInSegment() <= |Rest(segs)|
      ensures segment + 1 < |segs| && segs[segment + 1].size == 0 ==>
        EndsEmpty(segs) && |Rest(segs)| == RemainingInSegment()
      ensures EndsEmpty(segs) && segment + 2 == |segs| ==> segs[segment + 1].size == 0
    {
      if segment + 1 < |segs| && segs[segment + 1].size == 0 {
        var next := SuffixOf(segs, segment + 1);
        assert next[1..] == [];
        assert Flat(next) == SegmentBytes(next[0]) + Flat(next[1..]);
      }
    }

    /** Crashes exactly if it gets to the crossing into an empty last segment: if it asks for all that is left. */
    method AdvanceAcrossSegments(segs: seq<Segment>, n: nat) returns (ok: bool, crashed: bool)
      requires Inside(segs)
      modifies this
      ensures crashed <==> old(CrashAhead(segs)) && |old(Rest(segs))| <= n
      ensures !crashed ==>
        Inside(segs) && ok == Asked(old(Rest(segs)), n).0 && Rest(segs) == Asked(old(Rest(segs)), n).2
      ensures old(In(segs)) ==> !crashed && In(segs)
    {
      hide Ahead, Flat, Iter.Rest, ShapeOk, SegmentsOk;
      ghost var rest := Rest(segs);
      var bytes := n;
      while bytes > 0
        invariant Inside(segs) && 0 <= bytes <= n && n - bytes <= |rest| && Rest(segs) == rest[n - bytes..]
        invariant CrashAhead(segs) == old(CrashAhead(segs))
      {
        var toAdvance := Min(bytes, RemainingInSegment());
        DoneIffNothingLeft(segs);
        CrossingIntoEmpty(segs);
        if toAdvance == 0 {
          return false, false;
        }
        crashed := Advance(segs, toAdvance);
        if crashed {
          return false, true;
        }
        bytes := bytes - toAdvance;
      }
      CrossingIntoEmpty(segs);
      return true, false;
    }

    /** The n bytes Data() points at. */
    function Data(n: nat): seq<Byte>
      requires buf != null && data + n <= dataEnd <= buf.Length && !Done()
      reads this, buf
    {
      buf[data..data + n]
    }

    lemma DataIsAhead(segs: seq<Segment>, n: nat)
      requires Inside(segs) && 0 < n <= RemainingInSegment()
      ensures buf != null && dataEnd <= buf.Length && segs != [] && buf in Buffers(segs)
      ensures n <= |Rest(segs)| && Data(n) == Rest(segs)[..n]
    {
      AheadWithin(segs, segment, Left(), n);
      assert segs[segment] in segs && Data(n) == Left()[..n];
    }

    /** The next n bytes of the current segment as a further segment. */
    lemma PieceOk(segs: seq<Segment>, taken: seq<Segment>, n: nat)
      requires In(segs) && 0 < n <= RemainingInSegment()
      requires AllInUse(taken) && Buffers(taken) <= Buffers(segs)
      ensures buf != null && segs != [] && segment < |segs| && segs[segment].data == buf && SegmentsOk(segs)
      ensures var r := taken + [Segment(buf, data, n, n)];
        && AllInUse(r) && SegmentsOk(r) && SegmentsOk(taken) && Buffers(r) <= Buffers(segs)
        && n <= |Rest(segs)| && Flat(r) == Flat(taken) + Rest(segs)[..n]
    {
      hide Flat, Walkable, ShapeOk, Ahead;
      var piece := Segment(buf, data, n, n);
      var r := taken + [piece];
      assert segs[segment] in segs;
      AheadWithin(segs, segment, Left(), n);
      assert SegmentBytes(piece) == Left()[..n];
      FlatSnoc(taken, piece);
      LastApart(r);
    }

    /** The next n bytes of the current segment as a segment of their own: one round of Borrow's loop. */
    method TakePiece(segs: seq<Segment>, taken: seq<Segment>, n: nat) returns (r: seq<Segment>)
      requires In(segs) && 0 < n <= RemainingInSegment()
      requires AllInUse(taken) && Buffers(taken) <= Buffers(segs)
      modifies this
      ensures In(segs) && n <= |old(Rest(segs))| && Rest(segs) == old(Rest(segs))[n..]
      ensures AllInUse(r) && SegmentsOk(r) && Buffers(r) <= Buffers(segs)
      ensures Flat(r) == old(Flat(taken)) + old(Rest(segs))[..n]
      ensures r == taken + [Segment(segs[old(segment)].data, old(data), n, n)]
      ensures if old(data) + n == old(dataEnd) && old(segment) + 1 < |segs|
        then segment == old(segment) + 1 && data == segs[segment].start
        else segment == old(segment) && data == old(data) + n
    {
      hide Flat, Walkable, ShapeOk, Ahead, Buffers, AllInUse, SegmentsOk, Iter.In, Iter.Rest;
      PieceOk(segs, taken, n);
      r := taken + [Segment(buf, data, n, n)];
      MoveOn(segs, n);
      FlatSame(r);
    }

    /** Borrow's loop: the next n bytes as segments, or as many as there are and can be appended. */
    method TakePieces(segs: seq<Segment>, n: nat, appendOk: nat -> bool) returns (ok: bool, taken: seq<Segment>)
      requires In(segs)
      modifies this
      ensures In(segs) && AllInUse(taken) && Buffers(taken) <= Buffers(segs)
      ensures Flat(taken) + Rest(segs) == old(Rest(segs))
      ensures if ok then |Flat(taken)| == n else |Flat(taken)| < n
      ensures (forall i: nat :: appendOk(i)) && n <= |old(Rest(segs))| ==> ok
    {
      hide Flat, Ahead, Iter.Rest, ShapeOk, Walkable, SegmentsOk, AllInUse, Buffers, Iter.Left;
      NoSegments();
      ghost var rest := Rest(segs);
      var size, pieces := n, 0;
      taken := [];
      while size > 0
        invariant 0 <= size <= n && n - size <= |rest| && In(segs) && Rest(segs) == rest[n - size..]
        invariant AllInUse(taken) && SegmentsOk(taken) && Buffers(taken) <= Buffers(segs)
        invariant Flat(taken) == rest[..n - size]
      {
        DoneIffNothingLeft(segs);
        var toAdvance := Min(size, RemainingInSegment());
        if toAdvance == 0 || !appendOk(pieces) {
          return false, taken;
        }
        taken := TakePiece(segs, taken, toAdvance);
        SliceOn(rest, n - size, toAdvance);
        size, pieces := size - toAdvance, pieces + 1;
      }
      ok := true;
    }

    /** One round of ReadBytes' loop. */
    method ReadPiece(segs: seq<Segment>, out: array<Byte>, at: nat, n: nat) returns (crashed: bool)
      requires Inside(segs) && 0 < n <= RemainingInSegment() && at + n <= out.Length && out !in Buffers(segs)
      modifies this, out
      ensures crashed <==>
        old(data) + n == old(dataEnd) && old(segment) + 1 < |segs| && segs[old(segment) + 1].size == 0
      ensures !crashed ==> Inside(segs) && n <= |old(Rest(segs))| && Rest(segs) == old(Rest(segs))[n..]
      ensures !crashed ==> segment == old(segment) + if old(data) + n == old(dataEnd) && old(segment) + 1 < |segs|
        then 1 else 0
      ensures out[..at] == old(out[..at]) && out[at + n..] == old(out[at + n..])
      ensures n <= |old(Rest(segs))| && out[at..at + n] == old(Rest(segs))[..n]
    {
      hide Flat, ShapeOk, Ahead, Buffers, Iter.Rest, Iter.Left;
      DataIsAhead(segs, n);
      StoreBeside(segs, out, at, Data(n));
      crashed := Advance(segs, n);
    }

    /** Storing elsewhere does not touch what is ahead. */
    method StoreBeside(segs: seq<Segment>, out: array<Byte>, at: nat, bytes: seq<Byte>)
      requires Inside(segs) && segs != [] && at + |bytes| <= out.Length && out !in Buffers(segs)
      modifies out
      ensures Inside(segs) && Rest(segs) == old(Rest(segs))
      ensures out[..at] == old(out[..at]) && out[at + |bytes|..] == old(out[at + |bytes|..])
      ensures out[at..at + |bytes|] == bytes
    {
      hide Flat, ShapeOk, Ahead;
      assert segs[segment] in segs;
      ghost var left := Left();
      Store(out, at, bytes);
      AheadSame(segs, segment, left);
    }
  }
}
