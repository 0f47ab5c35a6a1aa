/** The three probing loops of mfbt/HashTable.h, over the slot array of a table with 2^log2 slots. */
module Probing {
  import opened Wrappers
  import opened Modular
  import opened DoubleHashing
  import opened HashSlots

  /** Some search for key must end: the key is present, or a free slot stops every search. */
  ghost predicate SearchEnds<K, V>(s: Slots<K, V>, key: K)
    requires UniqueKeys(s)
  {
    key in Contents(s) || exists f :: 0 <= f < |s| && s[f].IsFree()
  }

  lemma LastProbe<K, V>(hashOf: K -> HashNumber, probe: Prober, log2: nat, s: Slots<K, V>, key: K)
    returns (last: nat)
    requires Probes(probe, log2) && |s| == Pow2(log2) && StructOk(hashOf, s, probe) && SearchEnds(s, key)
    ensures s[probe(hashOf(key), last)].IsFree() || Matches(s[probe(hashOf(key), last)], key)
  {
    var t: nat;
    if key in Contents(s) {
      t := ContentsHas(s, key);
    } else {
      t :| t < |s| && s[t].IsFree();
    }
    last := ProbesReachAll(probe, log2, hashOf(key), t);
  }

  /** The first n slots probed are neither free nor occupied by key. */
  ghost predicate PassedOver<K, V>(s: Slots<K, V>, probe: Prober, h: HashNumber, key: K, n: nat)
    requires ProbesInside(probe, |s|)
  {
    forall j: nat :: j < n ==> !s[probe(h, j)].IsFree() && !Matches(s[probe(h, j)], key)
  }

  ghost predicate AllLive<K, V>(s: Slots<K, V>, probe: Prober, h: HashNumber, n: nat)
    requires ProbesInside(probe, |s|)
  {
    forall j: nat :: j < n ==> s[probe(h, j)].IsLive()
  }

  lemma PassedOverExtends<K, V>(s: Slots<K, V>, probe: Prober, h: HashNumber, key: K, n: nat)
    requires ProbesInside(probe, |s|)
    requires PassedOver(s, probe, h, key, n)
    requires !s[probe(h, n)].IsFree() && !Matches(s[probe(h, n)], key)
    ensures PassedOver(s, probe, h, key, n + 1)
  {
  }

  /** Probes for key until its slot or a free slot turns up. */
  method Search<K(==), V>(a: array<Slot<K, V>>, log2: nat, key: K, keyHash: HashNumber,
                          ghost hashOf: K -> HashNumber, ghost probe: Prober, ghost last: nat)
    returns (slot: nat, ghost n: nat)
    requires Probes(probe, log2) && ProbesInside(probe, a.Length) && SlotsOk(hashOf, a[..])
    requires keyHash == hashOf(key) && IsLiveHash(keyHash)
    requires a[probe(keyHash, last)].IsFree() || Matches(a[probe(keyHash, last)], key)
    ensures slot < a.Length && slot == probe(keyHash, n)
    ensures PassedOver(a[..], probe, keyHash, key, n)
    ensures a[slot].IsFree() || Matches(a[slot], key)
  {
    ghost var s := a[..];
    n := 0;
    ProbeStarts(probe, log2, keyHash);
    slot := Hash1(keyHash, log2);
    var step := Hash2(keyHash, log2);
    // The test of the primary slot and the tests in the loop are the same test: the loop starts with it.
    while !a[slot].IsFree()
      invariant slot == probe(keyHash, n)
      invariant PassedOver(s, probe, keyHash, key, n)
      decreases last - n
    {
      HitIsMatch(hashOf, s, slot, key);
      if Hits(a[slot], keyHash, key) {
        return;
      }
      assert n < last;
      PassedOverExtends(s, probe, keyHash, key, n);
      ProbeContinues(probe, log2, keyHash, n);
      slot := ApplyDoubleHash(slot, step, log2);
      n := n + 1;
    }
  }

  /** lookup<ForNonAdd>: finds the key's slot, or the free slot that ends its search; changes nothing. */
  method LookupForNonAdd<K(==), V>(a: array<Slot<K, V>>, log2: nat, key: K, keyHash: HashNumber,
                                   ghost hashOf: K -> HashNumber, ghost probe: Prober)
    returns (slot: nat)
    requires Probes(probe, log2) && a.Length == Pow2(log2) && StructOk(hashOf, a[..], probe)
    requires keyHash == hashOf(key) && IsLiveHash(keyHash)
    requires SearchEnds(a[..], key)
    ensures slot < a.Length
    ensures a[slot].IsLive() <==> key in Contents(a[..])
    ensures if a[slot].IsLive() then Matches(a[slot], key) else a[slot].IsFree()
  {
    ghost var s := a[..];
    ghost var last := LastProbe(hashOf, probe, log2, s, key);
    ghost var n;
    slot, n := Search(a, log2, key, keyHash, hashOf, probe, last);
    SearchResult(hashOf, s, probe, key, n);
  }

  lemma SearchResult<K, V>(hashOf: K -> HashNumber, s: Slots<K, V>, probe: Prober, key: K, n: nat)
    requires StructOk(hashOf, s, probe)
    requires PassedOver(s, probe, hashOf(key), key, n)
    requires s[probe(hashOf(key), n)].IsFree() || Matches(s[probe(hashOf(key), n)], key)
    ensures s[probe(hashOf(key), n)].IsLive() <==> key in Contents(s)
    ensures if s[probe(hashOf(key), n)].IsLive() then Matches(s[probe(hashOf(key), n)], key)
            else s[probe(hashOf(key), n)].IsFree()
  {
    if s[probe(hashOf(key), n)].IsFree() {
      LookupMiss(hashOf, s, probe, key, n);
    } else {
      ContentsAt(s, probe(hashOf(key), n));
    }
  }

  lemma AllLiveExtends<K, V>(s: Slots<K, V>, probe: Prober, h: HashNumber, n: nat)
    requires ProbesInside(probe, |s|)
    requires AllLive(s, probe, h, n)
    requires s[probe(h, n)].IsLive()
    ensures AllLive(s, probe, h, n + 1)
  {
  }

  /** Marking one more live slot. */
  lemma MarkOne<K, V>(s: Slots<K, V>, s': Slots<K, V>, t: nat)
    requires Marked(s, s') && t < |s| && s[t].IsLive()
    ensures s'[t].IsLive()
    ensures Marked(s, s'[t := s'[t].SetCollision()])
  {
  }

  lemma PathExtends<K, V>(s: Slots<K, V>, probe: Prober, h: HashNumber, n: nat)
    requires ProbesInside(probe, |s|)
    requires PathMarked(s, probe, h, n) && s[probe(h, n)].IsLive()
    ensures PathMarked(s[probe(h, n) := s[probe(h, n)].SetCollision()], probe, h, n + 1)
  {
  }

  /**
   * findNonLiveSlot: the first non-live slot on the probe path; every live slot passed on the way is marked,
   * so that the result is reachable for the new entry.
   */
  method FindNonLiveSlot<K, V>(a: array<Slot<K, V>>, log2: nat, keyHash: HashNumber, ghost probe: Prober)
    returns (slot: nat)
    requires Probes(probe, log2) && a.Length == Pow2(log2) && ProbesInside(probe, a.Length)
    requires exists i :: 0 <= i < a.Length && !a[i].IsLive()
    modifies a
    ensures Marked(old(a[..]), a[..])
    ensures slot < a.Length && !a[slot].IsLive()
    ensures Reachable(a[..], probe, keyHash, slot) && FirstNonLive(old(a[..]), probe, keyHash, slot)
  {
    ghost var s := a[..];
    ghost var t: nat :| t < a.Length && !a[t].IsLive();
    ghost var last := ProbesReachAll(probe, log2, keyHash, t);
    ProbeStarts(probe, log2, keyHash);
    slot := Hash1(keyHash, log2);
    var step := Hash2(keyHash, log2);
    ghost var i: nat := 0;
    while a[slot].IsLive()
      invariant slot == probe(keyHash, i)
      invariant Marked(s, a[..])
      invariant AllLive(s, probe, keyHash, i)
      invariant PathMarked(a[..], probe, keyHash, i)
      decreases last - i
    {
      ghost var cur := a[..];
      MarkedSlot(s, cur, slot);
      AllLiveExtends(s, probe, keyHash, i);
      assert i < last;
      MarkOne(s, cur, slot);
      PathExtends(cur, probe, keyHash, i);
      a[slot] := a[slot].SetCollision();
      assert a[..] == cur[slot := cur[slot].SetCollision()];
      ProbeContinues(probe, log2, keyHash, i);
      slot := ApplyDoubleHash(slot, step, log2);
      i := i + 1;
    }
    MarkedSlot(s, a[..], slot);
  }

  lemma MarkedSlot<K, V>(s: Slots<K, V>, s': Slots<K, V>, i: nat)
    requires Marked(s, s') && i < |s|
    ensures s'[i].entry == s[i].entry && s'[i].KeyHash() == s[i].KeyHash()
    ensures s'[i].IsFree() == s[i].IsFree() && s'[i].IsLive() == s[i].IsLive()
    ensures s'[i].IsRemoved() == s[i].IsRemoved()
  {
  }

  /** How far an insertion search has come: the path so far is marked, or a tombstone on it was set aside. */
  ghost predicate Progress<K, V>(s: Slots<K, V>, probe: Prober, h: HashNumber, n: nat, firstRemoved: Option<nat>)
    requires ProbesInside(probe, |s|)
  {
    match firstRemoved
    case None => PathMarked(s, probe, h, n)
    case Some(r) => r < |s| && s[r].IsRemoved() && Reachable(s, probe, h, r)
  }

  /** The first slot on the path of h that is not live: a tombstone, or the free slot that ends the path. */
  ghost predicate FirstNonLive<K, V>(s: Slots<K, V>, probe: Prober, h: HashNumber, t: nat)
    requires ProbesInside(probe, |s|)
  {
    t < |s| && !s[t].IsLive() && exists d: nat :: probe(h, d) == t && AllLive(s, probe, h, d)
  }

  /** The entry went into that slot, and some live slots have been marked. */
  ghost predicate PutAt<K, V>(s: Slots<K, V>, s': Slots<K, V>, h: HashNumber, entry: Entry<K, V>, t: nat) {
    && |s'| == |s| && t < |s| && IsLiveHash(h)
    && s'[t] == Slot(if s[t].IsRemoved() then WithCollision(h) else h, Some(entry))
    && forall i :: 0 <= i < |s| && i != t ==> s'[i] == s[i] || (s[i].IsLive() && s'[i] == s[i].SetCollision())
  }

  /** The entry went into the first slot on the path of h that was not live, and the path to it is marked. */
  ghost predicate PutFirst<K, V>(s: Slots<K, V>, s': Slots<K, V>, probe: Prober, h: HashNumber, entry: Entry<K, V>)
    requires ProbesInside(probe, |s|)
  {
    |s'| == |s| && exists t :: FirstNonLive(s, probe, h, t) && PutAt(s, s', h, entry, t) && Reachable(s', probe, h, t)
  }

  lemma FirstNonLiveUnique<K, V>(s: Slots<K, V>, probe: Prober, h: HashNumber, t: nat)
    requires ProbesInside(probe, |s|) && FirstNonLive(s, probe, h, t)
    ensures forall u: nat :: FirstNonLive(s, probe, h, u) ==> u == t
  {
    var d: nat :| probe(h, d) == t && AllLive(s, probe, h, d);
    forall u: nat | FirstNonLive(s, probe, h, u) ensures u == t {
      var e: nat :| probe(h, e) == u && AllLive(s, probe, h, e);
    }
  }

  lemma PutAfterMarking<K, V>(s: Slots<K, V>, m: Slots<K, V>, probe: Prober, h: HashNumber, entry: Entry<K, V>, t: nat)
    requires ProbesInside(probe, |s|) && FirstNonLive(s, probe, h, t) && Marked(s, m) && IsLiveHash(h)
    ensures m[t].IsRemoved() == s[t].IsRemoved() && !m[t].IsLive()
    ensures var s' := m[t := Slot(if m[t].IsRemoved() then WithCollision(h) else h, Some(entry))];
      Reachable(s', probe, h, t) ==> PutFirst(s, s', probe, h, entry)
  {
  }

  lemma PutOnMarked<K, V>(s: Slots<K, V>, m: Slots<K, V>, s': Slots<K, V>, probe: Prober, h: HashNumber,
                          entry: Entry<K, V>, t: nat)
    requires ProbesInside(probe, |s|) && FirstNonLive(s, probe, h, t) && Marked(s, m)
    requires Reachable(m, probe, h, t) && PutAt(m, s', h, entry, t)
    ensures PutFirst(s, s', probe, h, entry)
  {
    hide Reachable;
    MarkedSlot(s, m, t);
    ReachableMono(m, s', probe, h, t);
    assert PutAt(s, s', h, entry, t);
  }

  /** The entry of key was taken out of its slot. */
  ghost predicate TakenOut<K, V>(s: Slots<K, V>, s': Slots<K, V>, key: K) {
    exists i :: 0 <= i < |s| && Matches(s[i], key) && s' == s[i := Vacated(s[i])]
  }

  ghost predicate SetAside<K, V>(s: Slots<K, V>, probe: Prober, h: HashNumber, n: nat, firstRemoved: Option<nat>)
    requires ProbesInside(probe, |s|)
  {
    match firstRemoved
    case None => AllLive(s, probe, h, n)
    case Some(r) => FirstNonLive(s, probe, h, r)
  }

  /** Marks the slot being left, or sets it aside if it is the first tombstone met. */
  method LeaveSlot<K, V>(a: array<Slot<K, V>>, slot: nat, firstRemoved: Option<nat>, ghost s: Slots<K, V>,
                         ghost probe: Prober, ghost h: HashNumber, ghost n: nat)
    returns (firstRemoved': Option<nat>)
    requires ProbesInside(probe, a.Length) && slot < a.Length && slot == probe(h, n) && !a[slot].IsFree()
    requires Marked(s, a[..]) && Progress(a[..], probe, h, n, firstRemoved) && SetAside(s, probe, h, n, firstRemoved)
    modifies a
    ensures Marked(s, a[..]) && Progress(a[..], probe, h, n + 1, firstRemoved')
    ensures SetAside(s, probe, h, n + 1, firstRemoved')
  {
    firstRemoved' := firstRemoved;
    MarkedSlot(s, a[..], slot);
    if firstRemoved.None? {
      if a[slot].IsRemoved() {
        firstRemoved' := Some(slot);
      } else {
        ghost var cur := a[..];
        MarkOne(s, cur, slot);
        PathExtends(cur, probe, h, n);
        AllLiveExtends(s, probe, h, n);
        a[slot] := a[slot].SetCollision();
        assert a[..] == cur[slot := cur[slot].SetCollision()];
      }
    }
  }

  /** keyHash is a hash number for key: its prepared hash, perhaps with the collision bit set. */
  ghost predicate HashesTo<K>(hashOf: K -> HashNumber, keyHash: HashNumber, key: K) {
    IsLiveHash(keyHash) && IsLiveHash(hashOf(key)) && WithoutCollision(keyHash) == hashOf(key)
  }

  /** The probe test stops at this slot; with the collision bit set in the hash number looked for, it never does. */
  ghost predicate Stops<K, V>(slot: Slot<K, V>, keyHash: HashNumber, key: K) {
    !HasCollisionBit(keyHash) && Matches(slot, key)
  }

  /** The first n slots probed are neither free nor a hit. */
  ghost predicate PassedBy<K, V>(s: Slots<K, V>, probe: Prober, keyHash: HashNumber, key: K, n: nat)
    requires ProbesInside(probe, |s|)
  {
    forall j: nat :: j < n ==> !s[probe(keyHash, j)].IsFree() && !Stops(s[probe(keyHash, j)], keyHash, key)
  }

  /** The probe test in a partly marked array decides whether the unmarked slot matches. */
  lemma HitInMarked<K, V>(hashOf: K -> HashNumber, s: Slots<K, V>, s': Slots<K, V>, i: nat, keyHash: HashNumber, key: K)
    requires SlotsOk(hashOf, s) && Marked(s, s') && i < |s| && HashesTo(hashOf, keyHash, key)
    ensures s'[i].KeyHash() == keyHash ==> s'[i].entry.Some?
    ensures Hits(s'[i], keyHash, key) <==> Stops(s[i], keyHash, key)
    ensures s'[i].IsFree() == s[i].IsFree()
  {
    MarkedSlot(s, s', i);
    HitIsMatch(hashOf, s, i, key);
  }

  method SearchForAdd<K(==), V>(a: array<Slot<K, V>>, log2: nat, key: K, keyHash: HashNumber,
                                ghost hashOf: K -> HashNumber, ghost probe: Prober, ghost last: nat)
    returns (slot: nat, ghost n: nat)
    requires Probes(probe, log2) && ProbesInside(probe, a.Length) && SlotsOk(hashOf, a[..])
    requires HashesTo(hashOf, keyHash, key)
    requires a[probe(keyHash, last)].IsFree() || Stops(a[probe(keyHash, last)], keyHash, key)
    modifies a
    ensures Marked(old(a[..]), a[..])
    ensures PassedBy(old(a[..]), probe, keyHash, key, n)
    ensures slot < a.Length
    ensures if old(a[..])[probe(keyHash, n)].IsFree()
            then Reachable(a[..], probe, keyHash, slot) && FirstNonLive(old(a[..]), probe, keyHash, slot)
            else slot == probe(keyHash, n) && Stops(old(a[..])[slot], keyHash, key)
  {
    hide Stops, HashesTo, PassedBy, Progress, SetAside, FirstNonLive, Reachable;
    ghost var s := a[..];
    n := 0;
    AddSearchStarts(s, probe, keyHash, key);
    ProbeStarts(probe, log2, keyHash);
    slot := Hash1(keyHash, log2);
    var step := Hash2(keyHash, log2);
    var firstRemoved: Option<nat> := None;
    while !a[slot].IsFree()
      invariant slot == probe(keyHash, n)
      invariant PassedBy(s, probe, keyHash, key, n)
      invariant Marked(s, a[..])
      invariant Progress(a[..], probe, keyHash, n, firstRemoved) && SetAside(s, probe, keyHash, n, firstRemoved)
      decreases last - n
    {
      HitInMarked(hashOf, s, a[..], slot, keyHash, key);
      if Hits(a[slot], keyHash, key) {
        return;
      }
      PassedByExtends(s, probe, keyHash, key, n, last);
      firstRemoved := LeaveSlot(a, slot, firstRemoved, s, probe, keyHash, n);
      ProbeContinues(probe, log2, keyHash, n);
      slot := ApplyDoubleHash(slot, step, log2);
      n := n + 1;
    }
    AddSearchEnds(s, a[..], probe, keyHash, n, firstRemoved);
    slot := if firstRemoved.Some? then firstRemoved.value else slot;
  }

  lemma AddSearchStarts<K, V>(s: Slots<K, V>, probe: Prober, keyHash: HashNumber, key: K)
    requires ProbesInside(probe, |s|)
    ensures PassedBy(s, probe, keyHash, key, 0) && Marked(s, s)
    ensures Progress(s, probe, keyHash, 0, None) && SetAside(s, probe, keyHash, 0, None)
  {
  }

  lemma PassedByExtends<K, V>(s: Slots<K, V>, probe: Prober, keyHash: HashNumber, key: K, n: nat, last: nat)
    requires ProbesInside(probe, |s|) && PassedBy(s, probe, keyHash, key, n)
    requires !s[probe(keyHash, n)].IsFree() && !Stops(s[probe(keyHash, n)], keyHash, key)
    requires s[probe(keyHash, last)].IsFree() || Stops(s[probe(keyHash, last)], keyHash, key)
    ensures PassedBy(s, probe, keyHash, key, n + 1) && n < last
  {
  }

  /** At the free slot that ends the path, the slot to fill is known. */
  lemma AddSearchEnds<K, V>(s: Slots<K, V>, s': Slots<K, V>, probe: Prober, keyHash: HashNumber, n: nat,
                            firstRemoved: Option<nat>)
    requires ProbesInside(probe, |s|) && Marked(s, s') && s'[probe(keyHash, n)].IsFree()
    requires Progress(s', probe, keyHash, n, firstRemoved) && SetAside(s, probe, keyHash, n, firstRemoved)
    ensures s[probe(keyHash, n)].IsFree()
    ensures var slot := if firstRemoved.Some? then firstRemoved.value else probe(keyHash, n);
      slot < |s| && Reachable(s', probe, keyHash, slot) && FirstNonLive(s, probe, keyHash, slot)
  {
    MarkedSlot(s, s', probe(keyHash, n));
  }

  lemma LastForAdd<K, V>(hashOf: K -> HashNumber, probe: Prober, log2: nat, s: Slots<K, V>, keyHash: HashNumber, key: K)
    returns (last: nat)
    requires Probes(probe, log2) && |s| == Pow2(log2) && StructOk(hashOf, s, probe)
    requires HashesTo(hashOf, keyHash, key)
    requires if HasCollisionBit(keyHash) then exists f :: 0 <= f < |s| && s[f].IsFree() else SearchEnds(s, key)
    ensures s[probe(keyHash, last)].IsFree() || Stops(s[probe(keyHash, last)], keyHash, key)
  {
    if HasCollisionBit(keyHash) {
      var f: nat :| f < |s| && s[f].IsFree();
      last := ProbesReachAll(probe, log2, keyHash, f);
    } else {
      last := LastProbe(hashOf, probe, log2, s, key);
    }
  }

  lemma ForAddResult<K, V>(hashOf: K -> HashNumber, s: Slots<K, V>, probe: Prober, keyHash: HashNumber, key: K, n: nat)
    requires StructOk(hashOf, s, probe) && HashesTo(hashOf, keyHash, key)
    requires PassedBy(s, probe, keyHash, key, n)
    requires s[probe(keyHash, n)].IsFree() || Stops(s[probe(keyHash, n)], keyHash, key)
    ensures s[probe(keyHash, n)].IsLive() <==> !HasCollisionBit(keyHash) && key in Contents(s)
    ensures s[probe(keyHash, n)].IsLive() <==> Stops(s[probe(keyHash, n)], keyHash, key)
  {
    if !HasCollisionBit(keyHash) {
      assert PassedOver(s, probe, keyHash, key, n);
      SearchResult(hashOf, s, probe, key, n);
    }
  }

  /**
   * lookup<ForAdd>: finds the key's slot, or else the slot where the key should go: the first tombstone on its
   * path if there is one, and otherwise the free slot at the end; the path to it is marked. With the collision bit
   * set in the hash number, it never finds the key.
   */
  method LookupForAdd<K(==), V>(a: array<Slot<K, V>>, log2: nat, key: K, keyHash: HashNumber,
                                ghost hashOf: K -> HashNumber, ghost probe: Prober)
    returns (slot: nat)
    requires Probes(probe, log2) && a.Length == Pow2(log2) && StructOk(hashOf, a[..], probe)
    requires HashesTo(hashOf, keyHash, key)
    requires if HasCollisionBit(keyHash) then exists f :: 0 <= f < a.Length && a[f].IsFree() else SearchEnds(a[..], key)
    modifies a
    ensures Marked(old(a[..]), a[..])
    ensures slot < a.Length
    ensures a[slot].IsLive() <==> !HasCollisionBit(keyHash) && key in Contents(old(a[..]))
    ensures if a[slot].IsLive() then Matches(a[slot], key)
      else Reachable(a[..], probe, keyHash, slot) && FirstNonLive(old(a[..]), probe, keyHash, slot)
  {
    hide StructOk, Contents, HashesTo;
    ghost var s := a[..];
    StructMeans(hashOf, s, probe);
    ghost var last := LastForAdd(hashOf, probe, log2, s, keyHash, key);
    ghost var n;
    slot, n := SearchForAdd(a, log2, key, keyHash, hashOf, probe, last);
    ForAddResult(hashOf, s, probe, keyHash, key, n);
    MarkedSlot(s, a[..], slot);
  }

  lemma StructMeans<K, V>(hashOf: K -> HashNumber, s: Slots<K, V>, probe: Prober)
    requires StructOk(hashOf, s, probe)
    ensures ProbesInside(probe, |s|) && SlotsOk(hashOf, s) && UniqueKeys(s)
  {
  }
}
