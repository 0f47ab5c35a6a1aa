/** Filling slots and moving entries to new storage: the array-level work of insertion and changeTableSize. */
module Rebuilding {
  import opened Wrappers
  import opened Modular
  import opened DoubleHashing
  import opened HashSlots
  import opened Probing

  /** setLive on a reachable slot: keyHash carries the collision bit if a tombstone is recycled. */
  method SetLive<K, V>(a: array<Slot<K, V>>, slot: nat, keyHash: HashNumber, entry: Entry<K, V>,
                       ghost hashOf: K -> HashNumber, ghost probe: Prober)
    requires StructOk(hashOf, a[..], probe) && slot < a.Length && !a[slot].IsLive()
    requires IsLiveHash(keyHash) && WithoutCollision(keyHash) == hashOf(entry.key)
    requires a[slot].IsRemoved() ==> HasCollisionBit(keyHash)
    requires entry.key !in Contents(a[..]) && Reachable(a[..], probe, hashOf(entry.key), slot)
    modifies a
    ensures StructOk(hashOf, a[..], probe)
    ensures Contents(a[..]) == Contents(old(a[..]))[entry.key := entry.value]
    ensures |LiveSet(a[..])| == |LiveSet(old(a[..]))| + 1
    ensures |RemovedSet(a[..])| == |RemovedSet(old(a[..]))| - (if old(a[slot]).IsRemoved() then 1 else 0)
    ensures a[..] == old(a[..])[slot := Slot(keyHash, Some(entry))]
  {
    ghost var s := a[..];
    FilledKeeps(hashOf, s, probe, slot, Slot(keyHash, Some(entry)));
    a[slot] := Slot(keyHash, Some(entry));
    assert a[..] == s[slot := Slot(keyHash, Some(entry))];
  }

  /** findNonLiveSlot(hn).setLive(hn, ...) in storage without tombstones. */
  method MoveOne<K, V>(a: array<Slot<K, V>>, log2: nat, keyHash: HashNumber, entry: Entry<K, V>,
                       ghost hashOf: K -> HashNumber, ghost probe: Prober)
    requires Probes(probe, log2) && a.Length == Pow2(log2) && StructOk(hashOf, a[..], probe)
    requires RemovedSet(a[..]) == {} && |LiveSet(a[..])| < a.Length
    requires keyHash == hashOf(entry.key) && IsLiveHash(keyHash) && !HasCollisionBit(keyHash)
    requires entry.key !in Contents(a[..])
    modifies a
    ensures StructOk(hashOf, a[..], probe) && RemovedSet(a[..]) == {}
    ensures Contents(a[..]) == Contents(old(a[..]))[entry.key := entry.value]
    ensures |LiveSet(a[..])| == |LiveSet(old(a[..]))| + 1
  {
    ghost var s := a[..];
    CountsBound(s);
    var slot := FindNonLiveSlot(a, log2, keyHash, probe);
    MarkedKeeps(hashOf, s, a[..], probe);
    NotRemoved(a[..], slot);
    SetLive(a, slot, keyHash, entry, hashOf, probe);
  }

  lemma NotRemoved<K, V>(s: Slots<K, V>, i: nat)
    requires RemovedSet(s) == {} && i < |s|
    ensures !s[i].IsRemoved()
  {
    assert i in RemovedSet(s) <==> s[i].IsRemoved();
  }

  /** What one more slot contributes to the map of a prefix. */
  lemma PrefixStep<K, V>(s: Slots<K, V>, i: nat)
    requires UniqueKeys(s) && LiveIffPresent(s) && i < |s|
    ensures UniqueKeys(s[..i]) && UniqueKeys(s[..i + 1])
    ensures !s[i].IsLive() ==> Contents(s[..i + 1]) == Contents(s[..i])
    ensures s[i].IsLive() ==>
      && s[i].entry.value.key !in Contents(s[..i])
      && Contents(s[..i + 1]) == Contents(s[..i])[s[i].entry.value.key := s[i].entry.value.value]
    ensures |LiveSet(s[..i + 1])| == |LiveSet(s[..i])| + (if s[i].IsLive() then 1 else 0)
  {
    var p := s[..i];
    assert s[..i + 1] == p + [s[i]];
    PrefixContents(p, s[i]);
    PrefixLiveSet(p, s[i]);
    if s[i].IsLive() {
      PrefixLacksKey(s, i);
    }
  }

  lemma NoSlots<K, V>(s: Slots<K, V>)
    requires s == []
    ensures UniqueKeys(s) && Contents(s) == map[] && LiveSet(s) == {}
  {
  }

  lemma PrefixLacksKey<K, V>(s: Slots<K, V>, i: nat)
    requires UniqueKeys(s) && i < |s| && s[i].entry.Some?
    requires UniqueKeys(s[..i])
    ensures s[i].entry.value.key !in Contents(s[..i])
  {
    if s[i].entry.value.key in Contents(s[..i]) {
      var j := ContentsHas(s[..i], s[i].entry.value.key);
      assert false;
    }
  }

  lemma PrefixLiveSet<K, V>(p: Slots<K, V>, slot: Slot<K, V>)
    ensures LiveSet(p + [slot]) == LiveSet(p) + (if slot.IsLive() then {|p|} else {})
    ensures |LiveSet(p + [slot])| == |LiveSet(p)| + (if slot.IsLive() then 1 else 0)
  {
    assert LiveSet(p + [slot]) == LiveSet(p) + (if slot.IsLive() then {|p|} else {});
  }

  lemma PrefixContents<K, V>(p: Slots<K, V>, slot: Slot<K, V>)
    requires UniqueKeys(p) && UniqueKeys(p + [slot])
    ensures Contents(p + [slot]) ==
      if slot.entry.Some? then Contents(p)[slot.entry.value.key := slot.entry.value.value] else Contents(p)
  {
    var p' := p + [slot];
    if slot.entry.Some? {
      ContentsAt(p', |p|);
    }
    forall k | k in Contents(p)
      ensures k in Contents(p') && Contents(p')[k] == Contents(p)[k]
    {
      var j := ContentsHas(p, k);
      ContentsAt(p, j);
      ContentsAt(p', j);
    }
    forall k | k in Contents(p')
      ensures k in Contents(p) || (slot.entry.Some? && k == slot.entry.value.key)
    {
      var j := ContentsHas(p', k);
      if j < |p| {
        ContentsAt(p, j);
      }
    }
  }

  /** Live slots of a prefix, with one more live slot behind it, are fewer than all live slots. */
  lemma PrefixLiveCount<K, V>(s: Slots<K, V>, i: nat)
    requires i <= |s|
    ensures |LiveSet(s[..i])| + (if i < |s| && s[i].IsLive() then 1 else 0) <= |LiveSet(s)|
  {
    var pre := LiveSet(s[..i]);
    var more := if i < |s| && s[i].IsLive() then {i as int} else {};
    assert |pre + more| == |pre| + |more|;
    SubsetCardinality(pre + more, LiveSet(s));
  }

  lemma SubsetCardinality(a: set<int>, b: set<int>)
    requires a <= b
    ensures |a| <= |b|
  {
    assert b == a + (b - a);
  }

  /** The copying loop of changeTableSize: live entries move, tombstones stay behind, the old slots are cleared. */
  method MoveEntries<K, V>(src: array<Slot<K, V>>, dst: array<Slot<K, V>>, log2: nat,
                           ghost hashOf: K -> HashNumber, ghost srcProbe: Prober, ghost probe: Prober)
    requires Probes(probe, log2) && dst.Length == Pow2(log2) && StructOk(hashOf, dst[..], probe)
    requires RemovedSet(dst[..]) == {} && Contents(dst[..]) == map[] && LiveSet(dst[..]) == {}
    requires src != dst && StructOk(hashOf, src[..], srcProbe)
    requires |LiveSet(src[..])| <= dst.Length
    modifies src, dst
    ensures StructOk(hashOf, dst[..], probe) && RemovedSet(dst[..]) == {}
    ensures Contents(dst[..]) == Contents(old(src[..]))
    ensures |LiveSet(dst[..])| == |LiveSet(old(src[..]))|
    ensures forall i :: 0 <= i < src.Length ==> src[i] == FreeSlot()
  {
    hide LiveSet, RemovedSet, Contents, Chained;
    ghost var s := src[..];
    NoSlots(s[..0]);
    for i := 0 to src.Length
      invariant forall j :: 0 <= j < i ==> src[j] == FreeSlot()
      invariant forall j :: i <= j < src.Length ==> src[j] == s[j]
      invariant StructOk(hashOf, dst[..], probe) && RemovedSet(dst[..]) == {}
      invariant UniqueKeys(s[..i]) && Contents(dst[..]) == Contents(s[..i])
      invariant |LiveSet(dst[..])| == |LiveSet(s[..i])|
    {
      PrefixStep(s, i);
      PrefixLiveCount(s, i);
      if src[i].IsLive() {
        MoveOne(dst, log2, src[i].KeyHash(), src[i].entry.value, hashOf, probe);
      }
      src[i] := FreeSlot();
    }
    assert s[..src.Length] == s;
  }

  method ClearSlots<K, V>(a: array<Slot<K, V>>)
    modifies a
    ensures forall i :: 0 <= i < a.Length ==> a[i] == FreeSlot()
  {
    for i := 0 to a.Length
      invariant forall j :: 0 <= j < i ==> a[j] == FreeSlot()
    {
      a[i] := FreeSlot();
    }
  }
}
