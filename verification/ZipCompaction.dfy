/** The compaction that config/MozZipFile.py does when a zip file with overwritten entries is closed. */
module ZipCompaction {
  import opened Bytes
  import opened Sequences
  import opened Sorting

  /** A file opened for reading and writing. */
  class File {
    var bytes: seq<Byte>
    var pos: nat

    method Seek(to: nat)
      modifies this`pos
      ensures pos == to
    {
      pos := to;
    }

    method Read(n: nat) returns (content: seq<Byte>)
      requires pos <= |bytes|
      modifies this`pos
      ensures content == bytes[old(pos)..Min(old(pos) + n, |bytes|)] && pos == old(pos) + |content|
    {
      content := bytes[pos..Min(pos + n, |bytes|)];
      pos := pos + |content|;
    }

    method Write(content: seq<Byte>)
      requires pos <= |bytes|
      modifies this
      ensures pos == old(pos) + |content|
      ensures bytes == old(bytes)[..old(pos)] + content + old(bytes)[Min(pos, |old(bytes)|)..]
    {
      bytes := bytes[..pos] + content + bytes[Min(pos + |content|, |bytes|)..];
      pos := pos + |content|;
    }

    method Truncate()
      requires pos <= |bytes|
      modifies this`bytes
      ensures bytes == old(bytes)[..pos]
    {
      bytes := bytes[..pos];
    }
  }

  class ZipInfo {
    var headerOffset: nat
  }

  /** An entry as sorted by close: which one it is, where it starts, and whether it is kept. */
  datatype Item = Item(id: nat, offset: nat, keep: bool)

  function ByOffset(): (Item, Item) -> bool {
    (a: Item, b: Item) => a.offset < b.offset
  }

  /** Each entry reaches to the start of the next one, the last to the end of all entries. */
  function RangeEnd(items: seq<Item>, i: nat, end: nat): nat
    requires i < |items|
  {
    if i + 1 < |items| then items[i + 1].offset else end
  }

  /** Entries follow each other and end within the file. */
  ghost predicate Laid(items: seq<Item>, end: nat, size: nat) {
    end <= size && forall i :: 0 <= i < |items| ==> items[i].offset <= RangeEnd(items, i, end) <= size
  }

  /** The bytes of the kept ones among the first n entries, one after the other. */
  ghost function KeptBytes(items: seq<Item>, end: nat, bytes: seq<Byte>, n: nat): seq<Byte>
    requires Laid(items, end, |bytes|) && n <= |items|
  {
    if n == 0 then []
    else if items[n - 1].keep then
      KeptBytes(items, end, bytes, n - 1) + bytes[items[n - 1].offset..RangeEnd(items, n - 1, end)]
    else KeptBytes(items, end, bytes, n - 1)
  }

  /** The kept bytes of the entries so far never reach past where the next one starts. */
  lemma {:induction false} KeptBytesBehind(items: seq<Item>, end: nat, bytes: seq<Byte>, n: nat)
    requires Laid(items, end, |bytes|) && n <= |items|
    ensures |KeptBytes(items, end, bytes, n)| <= if n < |items| then items[n].offset else Min(end, |bytes|)
  {
    if n > 0 {
      KeptBytesBehind(items, end, bytes, n - 1);
    }
  }

  /** The bytes of a kept entry are found again where the kept bytes before it end. */
  lemma {:induction false} RangeMoved(items: seq<Item>, end: nat, bytes: seq<Byte>, i: nat, n: nat)
    requires Laid(items, end, |bytes|) && i < n <= |items| && items[i].keep
    ensures var at := |KeptBytes(items, end, bytes, i)|;
      var length := RangeEnd(items, i, end) - items[i].offset;
      && at + length <= |KeptBytes(items, end, bytes, n)|
      && KeptBytes(items, end, bytes, n)[at..at + length] == bytes[items[i].offset..items[i].offset + length]
  {
    if i + 1 < n {
      RangeMoved(items, end, bytes, i, n - 1);
    }
  }

  /** The entries with what sorting needs to know; the first `kept` ones are kept. */
  function Listed(infos: seq<ZipInfo>, kept: nat): (items: seq<Item>)
    reads infos
    ensures |items| == |infos|
    ensures forall i :: 0 <= i < |items| ==> items[i] == Item(i, infos[i].headerOffset, i < kept)
  {
    seq(|infos|, i requires 0 <= i < |infos| reads infos => Item(i, infos[i].headerOffset, i < kept))
  }

  /** What sorting by offset gives: each entry once, laid out one after the other. */
  ghost predicate Arranged(items: seq<Item>, listed: seq<Item>) {
    && multiset(items) == multiset(listed) && |items| == |listed|
    && (forall i :: 0 <= i < |items| ==> items[i].id < |listed| && listed[items[i].id] == items[i])
    && (forall i, j :: 0 <= i < j < |items| ==> items[i].id != items[j].id)
  }

  ghost predicate Numbered(listed: seq<Item>) {
    forall i :: 0 <= i < |listed| ==> listed[i].id == i
  }

  lemma PermutedItem(items: seq<Item>, listed: seq<Item>, i: nat)
    requires Numbered(listed) && multiset(items) == multiset(listed) && i < |items|
    ensures items[i].id < |listed| && listed[items[i].id] == items[i]
  {
    assert items[i] in multiset(listed);
    assert items[i] in listed;
  }

  lemma PermutationArranged(items: seq<Item>, listed: seq<Item>)
    requires Numbered(listed) && multiset(items) == multiset(listed) && |items| == |listed|
    ensures Arranged(items, listed)
  {
    forall i | 0 <= i < |items| ensures items[i].id < |listed| && listed[items[i].id] == items[i] {
      PermutedItem(items, listed, i);
    }
    forall i, j | 0 <= i < j < |items| ensures items[i].id != items[j].id {
      if items[i] == items[j] {
        DuplicateCounts(items, i, j);
        AtMostOnce(listed, items[i]);
      }
    }
  }

  lemma SortArranges(listed: seq<Item>, end: nat, size: nat)
    requires Numbered(listed) && end <= size
    requires forall i :: 0 <= i < |listed| ==> listed[i].offset <= end
    ensures Arranged(Sort(ByOffset(), listed), listed) && Laid(Sort(ByOffset(), listed), end, size)
  {
    hide Sort, Arranged, Laid, InOrder;
    SortKeeps(ByOffset(), listed);
    PermutationArranged(Sort(ByOffset(), listed), listed);
    SortedLaid(Sort(ByOffset(), listed), listed, end, size);
  }

  lemma SortedLaid(items: seq<Item>, listed: seq<Item>, end: nat, size: nat)
    requires InOrder(ByOffset(), items) && Arranged(items, listed) && end <= size
    requires forall i :: 0 <= i < |listed| ==> listed[i].offset <= end
    ensures Laid(items, end, size)
  {
    hide InOrder;
    forall i | 0 <= i < |items| ensures items[i].offset <= RangeEnd(items, i, end) <= size {
      if i + 1 < |items| {
        Neighbours(items, i);
      }
    }
  }

  lemma Neighbours(items: seq<Item>, i: nat)
    requires InOrder(ByOffset(), items) && i + 1 < |items|
    ensures items[i].offset <= items[i + 1].offset
  {
    var less := ByOffset();
    assert !less(items[i + 1], items[i]);
  }

  /** After the first i entries: what is kept of them, and then the file as it was. */
  ghost predicate Slid(now: seq<Byte>, items: seq<Item>, end: nat, before: seq<Byte>, i: nat, toPos: nat)
    requires Laid(items, end, |before|) && i <= |items|
  {
    && |now| == |before| && toPos == |KeptBytes(items, end, before, i)| <= |before|
    && now[..toPos] == KeptBytes(items, end, before, i) && now[toPos..] == before[toPos..]
  }

  /** The bytes that move are still those of the original file, although they may move onto themselves. */
  lemma SlidOn(now: seq<Byte>, items: seq<Item>, end: nat, before: seq<Byte>, i: nat, toPos: nat, next: seq<Byte>)
    requires Laid(items, end, |before|) && i < |items| && items[i].keep && Slid(now, items, end, before, i, toPos)
    requires var from, length := items[i].offset, RangeEnd(items, i, end) - items[i].offset;
      toPos <= from && next == now[..toPos] + now[from..from + length] + now[toPos + length..]
    ensures Slid(next, items, end, before, i + 1, toPos + RangeEnd(items, i, end) - items[i].offset)
  {
    Spliced(now, before, toPos, items[i].offset, RangeEnd(items, i, end) - items[i].offset);
  }

  lemma Spliced(now: seq<Byte>, before: seq<Byte>, toPos: nat, from: nat, length: nat)
    requires |now| == |before| && toPos <= from && from + length <= |now| && now[toPos..] == before[toPos..]
    ensures var next := now[..toPos] + now[from..from + length] + now[toPos + length..];
      && |next| == |now| && next[..toPos + length] == now[..toPos] + before[from..from + length]
      && next[toPos + length..] == before[toPos + length..]
  {
    forall k | toPos <= k < |now| ensures now[k] == before[k] {
      assert now[toPos..][k - toPos] == before[toPos..][k - toPos];
    }
  }

  /** Where entry j starts once the first n entries have been dealt with. */
  ghost function NewStart(items: seq<Item>, end: nat, before: seq<Byte>, n: nat, j: nat): nat
    requires Laid(items, end, |before|) && j < |items|
  {
    if j < n && items[j].keep then |KeptBytes(items, end, before, j)| else items[j].offset
  }

  function LengthOf(items: seq<Item>, i: nat, end: nat, ghost before: seq<Byte>): nat
    requires Laid(items, end, |before|) && i < |items|
  {
    RangeEnd(items, i, end) - items[i].offset
  }

  ghost predicate SomeKept(items: seq<Item>, n: nat)
    requires n <= |items|
  {
    exists i :: 0 <= i < n && items[i].keep
  }

  lemma KeptSoFar(items: seq<Item>, n: nat)
    requires n <= |items|
    ensures SomeKept(items, n) <==> 0 < n && (SomeKept(items, n - 1) || items[n - 1].keep)
  {
  }

  ghost predicate Indexing(items: seq<Item>, infos: seq<ZipInfo>) {
    && (forall i :: 0 <= i < |items| ==> items[i].id < |infos|)
    && (forall i, j :: 0 <= i < j < |items| ==> items[i].id != items[j].id)
  }

  /** The header offsets once the first n entries have been dealt with. */
  ghost predicate Rebased(infos: seq<ZipInfo>, items: seq<Item>, end: nat, before: seq<Byte>, n: nat)
    requires Laid(items, end, |before|) && Indexing(items, infos)
    reads set zi | zi in infos
  {
    forall j :: 0 <= j < |items| ==> infos[items[j].id].headerOffset == NewStart(items, end, before, n, j)
  }

  lemma EntryFits(infos: seq<ZipInfo>, items: seq<Item>, end: nat, now: seq<Byte>, before: seq<Byte>, i: nat,
                  toPos: nat)
    requires Laid(items, end, |before|) && Indexing(items, infos) && i < |items|
    requires Slid(now, items, end, before, i, toPos) && Rebased(infos, items, end, before, i)
    ensures infos[items[i].id].headerOffset == items[i].offset
    ensures toPos <= items[i].offset && RangeEnd(items, i, end) <= |now| == |before|
  {
    KeptBytesBehind(items, end, before, i);
  }

  twostate lemma RebasedOn(infos: seq<ZipInfo>, new items: seq<Item>, new end: nat, new before: seq<Byte>,
      new i: nat, new toPos: nat)
    requires Laid(items, end, |before|) && Indexing(items, infos) && i < |items| && items[i].keep
    requires NoDuplicates(infos) && toPos == |KeptBytes(items, end, before, i)|
    requires old(Rebased(infos, items, end, before, i))
    requires infos[items[i].id].headerOffset == toPos
    requires forall zi :: zi in infos && zi != infos[items[i].id] ==> zi.headerOffset == old(zi.headerOffset)
    ensures Rebased(infos, items, end, before, i + 1)
  {
  }

  lemma SkipEntry(now: seq<Byte>, infos: seq<ZipInfo>, items: seq<Item>, end: nat, before: seq<Byte>, i: nat,
                  toPos: nat)
    requires Laid(items, end, |before|) && Indexing(items, infos) && i < |items| && !items[i].keep
    requires Slid(now, items, end, before, i, toPos) && Rebased(infos, items, end, before, i)
    ensures Slid(now, items, end, before, i + 1, toPos) && Rebased(infos, items, end, before, i + 1)
  {
  }

  // What is left of a file --------------------------------------------------------------------------

  /** From the start of entry i, position p comes before the end and before the start of any later entry. */
  ghost predicate Reaches(offsets: seq<nat>, end: nat, i: nat, p: nat) {
    i < |offsets| && offsets[i] <= p < end && forall j :: 0 <= j < |offsets| ==> !(offsets[i] < offsets[j] <= p)
  }

  /** No other entry starts where this one does. */
  ghost predicate Alone(offsets: seq<nat>, i: nat) {
    i < |offsets| && forall j :: 0 <= j < |offsets| && j != i ==> offsets[j] != offsets[i]
  }

  /** Position q of the new file holds what a kept entry reached at p. */
  ghost predicate Kept(was: seq<nat>, now: seq<nat>, kept: nat, end: nat, q: nat)
    requires kept <= |was| == |now|
  {
    exists i: nat, p: nat :: i < kept && Reaches(was, end, i, p) && q == now[i] + (p - was[i])
  }

  ghost predicate HasItem(items: seq<Item>, id: nat) {
    exists k :: 0 <= k < |items| && items[k].id == id
  }

  /**
   * The first `kept` entries have kept their bytes at their new offsets, each behind those in front of it, and there
   * is nothing else in the file.
   */
  ghost predicate Compacted(was: seq<nat>, now: seq<nat>, kept: nat, end: nat, before: seq<Byte>, after: seq<Byte>) {
    && kept <= |was| == |now| && end <= |before|
    && (forall i: nat, p: nat :: i < kept && Alone(was, i) && Reaches(was, end, i, p) ==>
        now[i] + (p - was[i]) < |after| && after[now[i] + (p - was[i])] == before[p])
    && (forall i: nat, j: nat, p: nat ::
        i < kept && j < kept && Alone(was, i) && Reaches(was, end, i, p) && was[i] < was[j] ==>
        now[i] + (p - was[i]) < now[j])
    && forall q: nat :: q < |after| ==> Kept(was, now, kept, end, q)
  }

  /** The entries in the order of their offsets, with the offsets they have before and after. */
  ghost predicate InFile(items: seq<Item>, was: seq<nat>, now: seq<nat>, kept: nat, end: nat, before: seq<Byte>) {
    && kept <= |was| == |now| == |items| && Laid(items, end, |before|)
    && (forall k :: 0 <= k < |items| ==>
        items[k].id < |was| && items[k].offset == was[items[k].id] && (items[k].keep <==> items[k].id < kept))
    && (forall k, l :: 0 <= k < l < |items| ==> items[k].id != items[l].id && items[k].offset <= items[l].offset)
    && (forall i: nat :: i < |was| ==> HasItem(items, i))
    && forall k :: 0 <= k < |items| && items[k].keep ==> now[items[k].id] == |KeptBytes(items, end, before, k)|
  }

  lemma ItemOf(items: seq<Item>, was: seq<nat>, now: seq<nat>, kept: nat, end: nat, before: seq<Byte>, i: nat)
    returns (k: nat)
    requires InFile(items, was, now, kept, end, before) && i < |was|
    ensures k < |items| && items[k].id == i && items[k].offset == was[i]
    ensures i < kept ==> items[k].keep && Laid(items, end, |before|) && now[i] == |KeptBytes(items, end, before, k)|
  {
    hide KeptBytes, Laid;
    assert HasItem(items, i);
    k :| 0 <= k < |items| && items[k].id == i;
  }

  lemma ReachesRange(items: seq<Item>, was: seq<nat>, now: seq<nat>, kept: nat, end: nat, before: seq<Byte>, k: nat,
                     p: nat)
    requires InFile(items, was, now, kept, end, before) && k < |items|
    requires Alone(was, items[k].id) && Reaches(was, end, items[k].id, p)
    ensures items[k].offset <= p < RangeEnd(items, k, end)
  {
    hide KeptBytes, Laid;
    if k + 1 < |items| {
      assert items[k].id != items[k + 1].id && items[k].offset <= items[k + 1].offset;
      assert was[items[k + 1].id] != was[items[k].id];
    }
  }

  lemma RangeReached(items: seq<Item>, was: seq<nat>, now: seq<nat>, kept: nat, end: nat, before: seq<Byte>, k: nat,
                     p: nat)
    requires InFile(items, was, now, kept, end, before) && k < |items|
    requires items[k].offset <= p < RangeEnd(items, k, end)
    ensures Reaches(was, end, items[k].id, p)
  {
    hide KeptBytes, InFile, Laid, RangeEnd;
    OffsetsAscend(items, was, now, kept, end, before);
    LastEndsLast(items, end, |before|, k);
    forall j: nat | j < |was| ensures !(was[items[k].id] < was[j] <= p) {
      var l := ItemOf(items, was, now, kept, end, before, j);
      RangeBounds(items, k, end, l);
    }
    ReachesIf(was, end, items[k].id, p);
  }

  lemma ReachesIf(offsets: seq<nat>, end: nat, i: nat, p: nat)
    requires i < |offsets| && offsets[i] <= p < end
    requires forall j: nat :: j < |offsets| ==> !(offsets[i] < offsets[j] <= p)
    ensures Reaches(offsets, end, i, p)
  {
  }

  lemma OffsetsAscend(items: seq<Item>, was: seq<nat>, now: seq<nat>, kept: nat, end: nat, before: seq<Byte>)
    requires InFile(items, was, now, kept, end, before)
    ensures |items| == |was| && Laid(items, end, |before|)
    ensures forall k :: 0 <= k < |items| ==> items[k].id < |was| && items[k].offset == was[items[k].id]
    ensures forall k, l :: 0 <= k < l < |items| ==> items[k].offset <= items[l].offset
  {
    hide KeptBytes, Laid;
  }

  lemma RangeBounds(items: seq<Item>, k: nat, end: nat, l: nat)
    requires k < |items| && l < |items|
    requires forall k, l :: 0 <= k < l < |items| ==> items[k].offset <= items[l].offset
    ensures l <= k ==> items[l].offset <= items[k].offset
    ensures l > k ==> RangeEnd(items, k, end) <= items[l].offset
  {
  }

  lemma LastEndsLast(items: seq<Item>, end: nat, size: nat, k: nat)
    requires Laid(items, end, size) && k < |items|
    requires forall k, l :: 0 <= k < l < |items| ==> items[k].offset <= items[l].offset
    ensures RangeEnd(items, k, end) <= end
  {
    assert items[|items| - 1].offset <= RangeEnd(items, |items| - 1, end);
  }

  /** Where a byte of the kept ones comes from. */
  lemma {:induction false} ByteOrigin(items: seq<Item>, end: nat, before: seq<Byte>, n: nat, q: nat)
    returns (k: nat, p: nat)
    requires Laid(items, end, |before|) && n <= |items| && q < |KeptBytes(items, end, before, n)|
    ensures k < n && items[k].keep && items[k].offset <= p < RangeEnd(items, k, end)
    ensures q == |KeptBytes(items, end, before, k)| + (p - items[k].offset)
  {
    var front := |KeptBytes(items, end, before, n - 1)|;
    if q < front {
      k, p := ByteOrigin(items, end, before, n - 1, q);
    } else {
      k, p := n - 1, items[n - 1].offset + (q - front);
    }
  }

  lemma ByteKept(items: seq<Item>, end: nat, before: seq<Byte>, k: nat, p: nat)
    requires Laid(items, end, |before|) && k < |items| && items[k].keep
    requires items[k].offset <= p < RangeEnd(items, k, end)
    ensures var at, after := |KeptBytes(items, end, before, k)|, KeptBytes(items, end, before, |items|);
      at + (p - items[k].offset) < |after| && after[at + (p - items[k].offset)] == before[p]
  {
    hide KeptBytes;
    RangeMoved(items, end, before, k, |items|);
    var at, from := |KeptBytes(items, end, before, k)|, items[k].offset;
    var length := RangeEnd(items, k, end) - from;
    var after := KeptBytes(items, end, before, |items|);
    assert after[at..at + length][p - from] == before[from..from + length][p - from];
  }

  lemma {:induction false} KeptGrows(items: seq<Item>, end: nat, before: seq<Byte>, k: nat, l: nat)
    requires Laid(items, end, |before|) && k < l <= |items| && items[k].keep
    ensures |KeptBytes(items, end, before, k)| + (RangeEnd(items, k, end) - items[k].offset)
      <= |KeptBytes(items, end, before, l)|
    decreases l
  {
    if k + 1 < l {
      KeptGrows(items, end, before, k, l - 1);
    }
  }

  lemma KeptInPlace(items: seq<Item>, was: seq<nat>, now: seq<nat>, kept: nat, end: nat, before: seq<Byte>, i: nat,
                    p: nat)
    requires InFile(items, was, now, kept, end, before) && i < kept && Alone(was, i) && Reaches(was, end, i, p)
    ensures var after := KeptBytes(items, end, before, |items|);
      now[i] + (p - was[i]) < |after| && after[now[i] + (p - was[i])] == before[p]
  {
    hide KeptBytes, Reaches, Alone, Laid, InFile;
    FileSizes(items, was, now, kept, end, before);
    var k := ItemOf(items, was, now, kept, end, before, i);
    ReachesRange(items, was, now, kept, end, before, k, p);
    ByteKept(items, end, before, k, p);
  }

  lemma KeptInOrder(items: seq<Item>, was: seq<nat>, now: seq<nat>, kept: nat, end: nat, before: seq<Byte>, i: nat,
                    j: nat, p: nat)
    requires InFile(items, was, now, kept, end, before) && i < kept && j < kept && was[i] < was[j]
    requires Alone(was, i) && Reaches(was, end, i, p)
    ensures now[i] + (p - was[i]) < now[j]
  {
    hide KeptBytes, Reaches, Alone, Laid, InFile;
    FileSizes(items, was, now, kept, end, before);
    OffsetsAscend(items, was, now, kept, end, before);
    var k := ItemOf(items, was, now, kept, end, before, i);
    var l := ItemOf(items, was, now, kept, end, before, j);
    ReachesRange(items, was, now, kept, end, before, k, p);
    KeptGrows(items, end, before, k, l);
  }

  lemma NothingElse(items: seq<Item>, was: seq<nat>, now: seq<nat>, kept: nat, end: nat, before: seq<Byte>, q: nat)
    requires InFile(items, was, now, kept, end, before) && q < |KeptBytes(items, end, before, |items|)|
    ensures Kept(was, now, kept, end, q)
  {
    hide KeptBytes, Reaches, Laid;
    var k, p := ByteOrigin(items, end, before, |items|, q);
    RangeReached(items, was, now, kept, end, before, k, p);
    assert items[k].id < kept && q == now[items[k].id] + (p - was[items[k].id]);
  }

  /** The kept bytes are what compacting leaves. */
  lemma KeptIsCompacted(items: seq<Item>, was: seq<nat>, now: seq<nat>, kept: nat, end: nat, before: seq<Byte>)
    requires InFile(items, was, now, kept, end, before)
    ensures Compacted(was, now, kept, end, before, KeptBytes(items, end, before, |items|))
  {
    hide KeptBytes, Reaches, Alone, InFile, Kept;
    FileSizes(items, was, now, kept, end, before);
    var after := KeptBytes(items, end, before, |items|);
    forall i: nat, p: nat | i < kept && Alone(was, i) && Reaches(was, end, i, p)
      ensures now[i] + (p - was[i]) < |after| && after[now[i] + (p - was[i])] == before[p]
    {
      KeptInPlace(items, was, now, kept, end, before, i, p);
    }
    forall i: nat, j: nat, p: nat |
      i < kept && j < kept && Alone(was, i) && Reaches(was, end, i, p) && was[i] < was[j]
      ensures now[i] + (p - was[i]) < now[j]
    {
      KeptInOrder(items, was, now, kept, end, before, i, j, p);
    }
    forall q: nat | q < |after| ensures Kept(was, now, kept, end, q) {
      NothingElse(items, was, now, kept, end, before, q);
    }
  }

  lemma FileSizes(items: seq<Item>, was: seq<nat>, now: seq<nat>, kept: nat, end: nat, before: seq<Byte>)
    requires InFile(items, was, now, kept, end, before)
    ensures kept <= |was| == |now| && end <= |before| && Laid(items, end, |before|)
    ensures forall i: nat, p: nat :: Reaches(was, end, i, p) ==> i < |was| && was[i] <= p < |before|
  {
  }

  function Offsets(infos: seq<ZipInfo>): (r: seq<nat>)
    reads infos
    ensures |r| == |infos| && forall i :: 0 <= i < |r| ==> r[i] == infos[i].headerOffset
  {
    seq(|infos|, i requires 0 <= i < |infos| reads infos => infos[i].headerOffset)
  }

  /** Sorting the entries arranges them, and dealing with all of them gives them their new offsets. */
  lemma SortedInFile(listed: seq<Item>, was: seq<nat>, now: seq<nat>, kept: nat, end: nat, before: seq<Byte>)
    requires var items := Sort(ByOffset(), listed);
      Arranged(items, listed) && Laid(items, end, |before|)
    requires kept <= |was| == |now| == |listed|
    requires forall i :: 0 <= i < |listed| ==> listed[i] == Item(i, was[i], i < kept)
    requires var items := Sort(ByOffset(), listed);
      forall j :: 0 <= j < |items| ==> now[items[j].id] == NewStart(items, end, before, |items|, j)
    ensures InFile(Sort(ByOffset(), listed), was, now, kept, end, before)
  {
    hide Sort, KeptBytes, Laid;
    var items := Sort(ByOffset(), listed);
    SortKeeps(ByOffset(), listed);
    forall k, l | 0 <= k < l < |items| ensures items[k].id != items[l].id && items[k].offset <= items[l].offset {
      assert !ByOffset()(items[l], items[k]);
    }
    forall i: nat | i < |was| ensures HasItem(items, i) {
      assert listed[i] in multiset(items);
    }
  }

  /** Moves one entry down. */
  method MoveEntry(fp: File, zi: ZipInfo, toPos: nat, length: nat)
    requires toPos <= zi.headerOffset && zi.headerOffset + length <= |fp.bytes|
    modifies fp, zi
    ensures zi.headerOffset == toPos && fp.pos == toPos + length
    ensures var from := old(zi.headerOffset); var was := old(fp.bytes);
      fp.bytes == was[..toPos] + was[from..from + length] + was[toPos + length..]
  {
    var oldoff := zi.headerOffset;
    zi.headerOffset := toPos;
    fp.Seek(oldoff);
    var content := fp.Read(length);
    fp.Seek(toPos);
    fp.Write(content);
  }

  /** One round of the loop for a kept entry. */
  method MoveItem(fp: File, infos: seq<ZipInfo>, items: seq<Item>, i: nat, toPos: nat, length: nat,
      ghost end: nat, ghost before: seq<Byte>)
    requires Laid(items, end, |before|) && Indexing(items, infos) && NoDuplicates(infos)
    requires i < |items| && items[i].keep && length == RangeEnd(items, i, end) - items[i].offset
    requires Slid(fp.bytes, items, end, before, i, toPos) && Rebased(infos, items, end, before, i)
    modifies fp, infos[items[i].id]
    ensures Slid(fp.bytes, items, end, before, i + 1, toPos + length) && fp.pos == toPos + length
    ensures Rebased(infos, items, end, before, i + 1)
  {
    hide Laid, KeptBytes, Rebased;
    EntryFits(infos, items, end, fp.bytes, before, i, toPos);
    MoveEntry(fp, infos[items[i].id], toPos, length);
    SlidOn(old(fp.bytes), items, end, before, i, toPos, fp.bytes);
    RebasedOn(infos, items, end, before, i, toPos);
  }

  class ZipFile {
    const fp: File
    var filelist: seq<ZipInfo>
    var toRemove: seq<ZipInfo>
    var end: nat

    /** Entries are different objects, and all start within the entry part of the file. */
    ghost predicate Valid()
      reads this, fp, set zi | zi in filelist + toRemove
    {
      && NoDuplicates(filelist + toRemove) && fp.pos <= |fp.bytes| && end <= |fp.bytes|
      && forall zi :: zi in filelist + toRemove ==> zi.headerOffset <= end
    }

    /** All entries, in the order of their offsets. */
    ghost function Items(): seq<Item>
      reads this, set zi | zi in filelist + toRemove
    {
      Sort(ByOffset(), Listed(filelist + toRemove, |filelist|))
    }

    constructor (fp: File, filelist: seq<ZipInfo>, toRemove: seq<ZipInfo>, end: nat)
      ensures this.fp == fp && this.filelist == filelist && this.toRemove == toRemove && this.end == end
    {
      this.fp, this.filelist, this.toRemove, this.end := fp, filelist, toRemove, end;
    }

    /** One turn of the loop over all entries. */
    method SlideOne(infos: seq<ZipInfo>, items: seq<Item>, i: nat, toPos: nat, ghost before: seq<Byte>)
      returns (next: nat)
      requires Laid(items, end, |before|) && Indexing(items, infos) && NoDuplicates(infos) && i < |items|
      requires Slid(fp.bytes, items, end, before, i, toPos) && Rebased(infos, items, end, before, i)
      modifies fp, set zi | zi in infos
      ensures Slid(fp.bytes, items, end, before, i + 1, next) && Rebased(infos, items, end, before, i + 1)
      ensures fp.pos == if items[i].keep then next else old(fp.pos)
    {
      hide Slid, Laid, KeptBytes, Rebased, NoDuplicates;
      next := toPos;
      if items[i].keep {
        var length := LengthOf(items, i, end, before);
        MoveItem(fp, infos, items, i, toPos, length, end, before);
        next := toPos + length;
      } else {
        SkipEntry(fp.bytes, infos, items, end, before, i, toPos);
      }
    }

    /** The loop over all entries. */
    method Slide(infos: seq<ZipInfo>, items: seq<Item>) returns (toPos: nat)
      requires NoDuplicates(infos) && Laid(items, end, |fp.bytes|) && Indexing(items, infos)
      requires Rebased(infos, items, end, fp.bytes, 0)
      modifies fp, set zi | zi in infos
      ensures Slid(fp.bytes, items, end, old(fp.bytes), |items|, toPos)
      ensures fp.pos == if SomeKept(items, |items|) then toPos else old(fp.pos)
      ensures Rebased(infos, items, end, old(fp.bytes), |items|)
    {
      toPos := 0;
      assert Slid(fp.bytes, items, end, fp.bytes, 0, toPos);
      hide Slid, Laid, KeptBytes, Rebased, NoDuplicates, Indexing, SomeKept;
      KeptSoFar(items, 0);
      for i := 0 to |items|
        invariant Slid(fp.bytes, items, end, old(fp.bytes), i, toPos)
        invariant Rebased(infos, items, end, old(fp.bytes), i)
        invariant fp.pos == if SomeKept(items, i) then toPos else old(fp.pos)
      {
        KeptSoFar(items, i + 1);
        toPos := SlideOne(infos, items, i, toPos, old(fp.bytes));
      }
    }

    /**
     * What close does before the central directory is written. With nothing kept, the file is cut
     * where its position happens to be: at the start when it is reopened.
     */
    method Close(reopen: bool)
      requires Valid()
      modifies this`toRemove, fp, set zi | zi in filelist + toRemove
      ensures var items, before := old(Items()), old(fp.bytes);
        && Laid(items, end, |before|) && Indexing(items, old(filelist + toRemove)) && toRemove == []
        && (if old(toRemove) == [] then
              fp.bytes == before && Rebased(old(filelist + toRemove), items, end, before, 0)
            else
              && Rebased(old(filelist + toRemove), items, end, before, |items|)
              && fp.bytes == if filelist != [] then KeptBytes(items, end, before, |items|)
                             else before[..if reopen then 0 else old(fp.pos)])
      ensures old(toRemove) != [] && filelist != [] ==>
        Compacted(old(Offsets(filelist + toRemove)), Offsets(old(filelist + toRemove)), |filelist|, end, old(fp.bytes),
                  fp.bytes)
    {
      hide Sort, Laid, KeptBytes, Slid, NoDuplicates, Arranged, Indexing, Rebased, SomeKept, Compacted, NewStart;
      var infos := filelist + toRemove;
      var listed := Listed(infos, |filelist|);
      SortArranges(listed, end, |fp.bytes|);
      var all := Sort(ByOffset(), listed);
      Unmoved(infos, all, end, fp.bytes, |filelist|);
      if toRemove != [] {
        ghost var was, before := Offsets(infos), fp.bytes;
        toRemove := [];
        Compact(infos, all, reopen);
        NewOffsets(infos, all, end, before);
        SortedInFile(listed, was, Offsets(infos), |filelist|, end, before);
        KeptIsCompacted(all, was, Offsets(infos), |filelist|, end, before);
      }
    }

    method Compact(infos: seq<ZipInfo>, items: seq<Item>, reopen: bool)
      requires NoDuplicates(infos) && |filelist| <= |infos| && fp.pos <= |fp.bytes| && Indexing(items, infos)
      requires Laid(items, end, |fp.bytes|) && Arranged(items, Listed(infos, |filelist|))
      modifies fp, set zi | zi in infos
      ensures Rebased(infos, items, end, old(fp.bytes), |items|)
      ensures fp.bytes == if filelist != [] then KeptBytes(items, end, old(fp.bytes), |items|)
        else old(fp.bytes)[..if reopen then 0 else old(fp.pos)]
    {
      hide Laid, KeptBytes, Slid, NoDuplicates, Arranged, Indexing, Rebased, SomeKept;
      KeptExists(items, Listed(infos, |filelist|), |filelist|);
      ghost var before := fp.bytes;
      if reopen {
        fp.Seek(0);
      }
      Unmoved(infos, items, end, before, |filelist|);
      var toPos := Slide(infos, items);
      SlidEnd(fp.bytes, items, end, before, toPos);
      Truncated(infos, items, before);
    }

    /** Cuts the file at its position. */
    method Truncated(ghost infos: seq<ZipInfo>, ghost items: seq<Item>, ghost before: seq<Byte>)
      requires fp.pos <= |fp.bytes| && Laid(items, end, |before|) && Indexing(items, infos)
      modifies fp`bytes
      ensures fp.bytes == old(fp.bytes)[..fp.pos]
      ensures old(Rebased(infos, items, end, before, |items|)) ==> Rebased(infos, items, end, before, |items|)
    {
      fp.Truncate();
    }
  }

  lemma NewOffsets(infos: seq<ZipInfo>, items: seq<Item>, end: nat, before: seq<Byte>)
    requires Laid(items, end, |before|) && Indexing(items, infos) && Rebased(infos, items, end, before, |items|)
    ensures forall j :: 0 <= j < |items| ==>
      items[j].id < |infos| && Offsets(infos)[items[j].id] == NewStart(items, end, before, |items|, j)
  {
  }

  lemma SlidEnd(now: seq<Byte>, items: seq<Item>, end: nat, before: seq<Byte>, toPos: nat)
    requires Laid(items, end, |before|) && Slid(now, items, end, before, |items|, toPos)
    ensures toPos <= |now| == |before| && now[..toPos] == KeptBytes(items, end, before, |items|)
    ensures !SomeKept(items, |items|) ==> now == before
  {
    if !SomeKept(items, |items|) {
      NoneKept(items, end, before, |items|);
      assert now == now[0..] && before == before[0..];
    }
  }

  lemma {:induction false} NoneKept(items: seq<Item>, end: nat, before: seq<Byte>, n: nat)
    requires Laid(items, end, |before|) && n <= |items| && !SomeKept(items, n)
    ensures KeptBytes(items, end, before, n) == []
  {
    if n > 0 {
      assert !SomeKept(items, n - 1);
      NoneKept(items, end, before, n - 1);
    }
  }

  lemma Unmoved(infos: seq<ZipInfo>, items: seq<Item>, end: nat, before: seq<Byte>, kept: nat)
    requires Laid(items, end, |before|) && Arranged(items, Listed(infos, kept))
    ensures Indexing(items, infos) && Rebased(infos, items, end, before, 0)
  {
  }

  lemma KeptExists(items: seq<Item>, listed: seq<Item>, kept: nat)
    requires Arranged(items, listed) && kept <= |listed|
    requires forall i :: 0 <= i < |listed| ==> (listed[i].keep <==> i < kept)
    ensures SomeKept(items, |items|) <==> 0 < kept
  {
    if 0 < kept {
      assert listed[0] in multiset(items);
    }
  }
}
