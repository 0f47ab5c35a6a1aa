/**
 * rehashTableInPlace of mfbt/HashTable.h: re-insert every entry without a second table. While it runs, the
 * collision bit means "already placed".
 */
module InPlaceRehash {
  import opened Wrappers
  import opened Modular
  import opened DoubleHashing
  import opened HashSlots

  /** Live slots not yet placed. */
  ghost function Unplaced<K, V>(s: Slots<K, V>): set<int> {
    set i | 0 <= i < |s| && s[i].IsLive() && !s[i].HasCollision()
  }

  /** No tombstones; every placed entry is reachable through placed entries. */
  ghost predicate Rehashing<K, V>(hashOf: K -> HashNumber, s: Slots<K, V>, probe: Prober) {
    && ProbesInside(probe, |s|)
    && SlotsOk(hashOf, s)
    && UniqueKeys(s)
    && (forall i :: 0 <= i < |s| && !s[i].IsLive() ==> s[i].IsFree())
    && PlacedChained(s, probe)
  }

  ghost predicate PlacedChained<K, V>(s: Slots<K, V>, probe: Prober)
    requires ProbesInside(probe, |s|)
  {
    forall t :: 0 <= t < |s| && s[t].IsLive() && s[t].HasCollision() ==> Reachable(s, probe, s[t].KeyHash(), t)
  }

  /** Slot i goes to slot t, what was in t goes to slot i, and t is marked as placed. */
  function SwapAndPlace<K, V>(s: Slots<K, V>, i: nat, t: nat): (s': Slots<K, V>)
    requires i < |s| && t < |s| && s[i].IsLive()
    ensures |s'| == |s|
  {
    s[i := s[t]][t := s[i].SetCollision()]
  }

  lemma UnsetAllStarts<K, V>(hashOf: K -> HashNumber, probe: Prober, s: Slots<K, V>, s': Slots<K, V>)
    requires StructOk(hashOf, s, probe)
    requires |s'| == |s| && forall i :: 0 <= i < |s| ==> s'[i] == s[i].UnsetCollision()
    ensures Rehashing(hashOf, s', probe)
    ensures Contents(s') == Contents(s)
  {
    SameEntriesSameContents(s, s');
  }

  lemma SwapKeepsUnique<K, V>(s: Slots<K, V>, i: nat, t: nat)
    requires UniqueKeys(s) && i < |s| && t < |s| && s[i].IsLive() && s[i].entry.Some?
    ensures UniqueKeys(SwapAndPlace(s, i, t))
  {
    var s' := SwapAndPlace(s, i, t);
    forall a, b | 0 <= a < |s'| && 0 <= b < |s'| && s'[a].entry.Some? && s'[b].entry.Some?
      && s'[a].entry.value.key == s'[b].entry.value.key
      ensures a == b
    {
      var a0 := if a == i then t else if a == t then i else a;
      var b0 := if b == i then t else if b == t then i else b;
      assert s'[a].entry == s[a0].entry && s'[b].entry == s[b0].entry;
    }
  }

  lemma SwapKeepsContents<K, V>(s: Slots<K, V>, i: nat, t: nat)
    requires UniqueKeys(s) && i < |s| && t < |s| && s[i].IsLive() && s[i].entry.Some?
    requires UniqueKeys(SwapAndPlace(s, i, t))
    ensures Contents(SwapAndPlace(s, i, t)) == Contents(s)
  {
    var s' := SwapAndPlace(s, i, t);
    forall k | k in Contents(s)
      ensures k in Contents(s') && Contents(s')[k] == Contents(s)[k]
    {
      var a := ContentsHas(s, k);
      ContentsAt(s, a);
      ContentsAt(s', if a == i then t else if a == t then i else a);
    }
    forall k | k in Contents(s')
      ensures k in Contents(s)
    {
      var a := ContentsHas(s', k);
      ContentsAt(s, if a == i then t else if a == t then i else a);
    }
  }

  /** Placing entry i at a reachable unplaced slot keeps everything, and no placed entry moves. */
  lemma PlaceKeeps<K, V>(hashOf: K -> HashNumber, s: Slots<K, V>, probe: Prober, i: nat, t: nat)
    requires Rehashing(hashOf, s, probe)
    requires i < |s| && t < |s| && s[i].IsLive() && !s[i].HasCollision() && !s[t].HasCollision()
    requires Reachable(s, probe, s[i].KeyHash(), t)
    ensures Rehashing(hashOf, SwapAndPlace(s, i, t), probe)
    ensures Contents(SwapAndPlace(s, i, t)) == Contents(s)
    ensures forall u :: 0 <= u < |s| && s[u].HasCollision() ==> SwapAndPlace(s, i, t)[u] == s[u]
    ensures Unplaced(SwapAndPlace(s, i, t)) < Unplaced(s)
  {
    SwapKeepsUnique(s, i, t);
    SwapKeepsContents(s, i, t);
    SwapKeepsPlaced(s, probe, i, t);
    SwapShrinksUnplaced(s, i, t);
  }

  lemma SwapKeepsPlaced<K, V>(s: Slots<K, V>, probe: Prober, i: nat, t: nat)
    requires ProbesInside(probe, |s|) && PlacedChained(s, probe)
    requires i < |s| && t < |s| && s[i].IsLive() && !s[i].HasCollision() && !s[t].HasCollision()
    requires Reachable(s, probe, s[i].KeyHash(), t)
    ensures PlacedChained(SwapAndPlace(s, i, t), probe)
  {
    var s' := SwapAndPlace(s, i, t);
    forall u | 0 <= u < |s'| && s'[u].IsLive() && s'[u].HasCollision()
      ensures Reachable(s', probe, s'[u].KeyHash(), u)
    {
      ReachableMono(s, s', probe, s'[u].KeyHash(), u);
    }
  }

  lemma SwapShrinksUnplaced<K, V>(s: Slots<K, V>, i: nat, t: nat)
    requires i < |s| && t < |s| && s[i].IsLive() && !s[i].HasCollision() && !s[t].HasCollision()
    ensures Unplaced(SwapAndPlace(s, i, t)) < Unplaced(s)
  {
    var s' := SwapAndPlace(s, i, t);
    var gone := if s[t].IsLive() then t else i;
    assert gone in Unplaced(s) && gone !in Unplaced(s');
  }

  lemma AllPlacedEnds<K, V>(hashOf: K -> HashNumber, s: Slots<K, V>, probe: Prober)
    requires Rehashing(hashOf, s, probe)
    requires forall i :: 0 <= i < |s| && s[i].IsLive() ==> s[i].HasCollision()
    ensures StructOk(hashOf, s, probe) && RemovedSet(s) == {}
  {
  }

  /** The inner loop: the first unplaced slot on the probe path of keyHash. */
  method FindUnplaced<K, V>(a: array<Slot<K, V>>, log2: nat, keyHash: HashNumber, ghost probe: Prober, ghost i: nat)
    returns (tgt: nat)
    requires Probes(probe, log2) && a.Length == Pow2(log2) && ProbesInside(probe, a.Length)
    requires i < a.Length && !a[i].HasCollision()
    ensures tgt < a.Length && !a[tgt].HasCollision() && Reachable(a[..], probe, keyHash, tgt)
  {
    ghost var last := ProbesReachAll(probe, log2, keyHash, i);
    ProbeStarts(probe, log2, keyHash);
    tgt := Hash1(keyHash, log2);
    var step := Hash2(keyHash, log2);
    ghost var n: nat := 0;
    while a[tgt].HasCollision()
      invariant tgt == probe(keyHash, n)
      invariant PathMarked(a[..], probe, keyHash, n)
      decreases last - n
    {
      PathGrows(a[..], probe, keyHash, n);
      assert n < last;
      ProbeContinues(probe, log2, keyHash, n);
      tgt := ApplyDoubleHash(tgt, step, log2);
      n := n + 1;
    }
  }

  lemma PathGrows<K, V>(s: Slots<K, V>, probe: Prober, h: HashNumber, n: nat)
    requires ProbesInside(probe, |s|) && PathMarked(s, probe, h, n) && s[probe(h, n)].HasCollision()
    ensures PathMarked(s, probe, h, n + 1)
  {
  }

  method UnsetCollisions<K, V>(a: array<Slot<K, V>>)
    modifies a
    ensures forall i :: 0 <= i < a.Length ==> a[i] == old(a[i]).UnsetCollision()
  {
    for i := 0 to a.Length
      invariant forall j :: 0 <= j < i ==> a[j] == old(a[j]).UnsetCollision()
      invariant forall j :: i <= j < a.Length ==> a[j] == old(a[j])
    {
      a[i] := a[i].UnsetCollision();
    }
  }

  /** One round for a slot that still has to be placed. */
  method PlaceEntry<K, V>(a: array<Slot<K, V>>, log2: nat, i: nat,
                          ghost hashOf: K -> HashNumber, ghost probe: Prober)
    requires Probes(probe, log2) && a.Length == Pow2(log2) && Rehashing(hashOf, a[..], probe)
    requires i < a.Length && a[i].IsLive() && !a[i].HasCollision()
    modifies a
    ensures Rehashing(hashOf, a[..], probe)
    ensures Contents(a[..]) == Contents(old(a[..]))
    ensures forall u :: 0 <= u < a.Length && old(a[u]).HasCollision() ==> a[u] == old(a[u])
    ensures forall u :: 0 <= u < a.Length && u != i ==> a[u] == old(a[u]) || a[u].HasCollision()
    ensures Unplaced(a[..]) < Unplaced(old(a[..]))
  {
    ghost var s := a[..];
    var tgt := FindUnplaced(a, log2, a[i].KeyHash(), probe, i);
    PlaceKeeps(hashOf, s, probe, i, tgt);
    a[i], a[tgt] := a[tgt], a[i];
    a[tgt] := a[tgt].SetCollision();
    assert a[..] == SwapAndPlace(s, i, tgt);
  }

  /** Terminates, keeps every entry, drops every tombstone and restores the probe chains. */
  method RehashInPlace<K, V>(a: array<Slot<K, V>>, log2: nat,
                             ghost hashOf: K -> HashNumber, ghost probe: Prober)
    requires Probes(probe, log2) && a.Length == Pow2(log2) && StructOk(hashOf, a[..], probe)
    modifies a
    ensures StructOk(hashOf, a[..], probe)
    ensures Contents(a[..]) == Contents(old(a[..]))
    ensures RemovedSet(a[..]) == {}
    ensures forall i :: 0 <= i < a.Length && a[i].IsLive() ==> a[i].HasCollision()
  {
    ghost var s := a[..];
    UnsetCollisions(a);
    UnsetAllStarts(hashOf, probe, s, a[..]);
    var i := 0;
    while i < a.Length
      invariant 0 <= i <= a.Length
      invariant Rehashing(hashOf, a[..], probe)
      invariant Contents(a[..]) == Contents(s)
      invariant forall j :: 0 <= j < i && a[j].IsLive() ==> a[j].HasCollision()
      decreases Unplaced(a[..]), a.Length - i
    {
      if !a[i].IsLive() || a[i].HasCollision() {
        i := i + 1;
      } else {
        ghost var before := a[..];
        PlaceEntry(a, log2, i, hashOf, probe);
        PrefixStaysPlaced(before, a[..], i);
      }
    }
    AllPlacedEnds(hashOf, a[..], probe);
  }

  lemma PrefixStaysPlaced<K, V>(s: Slots<K, V>, s': Slots<K, V>, i: nat)
    requires |s'| == |s| && i < |s|
    requires forall j :: 0 <= j < i && s[j].IsLive() ==> s[j].HasCollision()
    requires forall u :: 0 <= u < |s| && u != i ==> s'[u] == s[u] || s'[u].HasCollision()
    ensures forall j :: 0 <= j < i && s'[j].IsLive() ==> s'[j].HasCollision()
  {
  }
}
