/**
 * The slot array of mfbt/HashTable.h as a mathematical object: what a well-formed array is, which map it
 * stands for, and how each single-slot edit changes that map.
 */
module HashSlots {
  import opened Wrappers
  import opened Modular
  import opened DoubleHashing

  datatype Entry<+K, +V> = Entry(key: K, value: V)

  /** A cached hash and its entry; the entry is present exactly while the slot is live. */
  datatype Slot<+K, +V> = Slot(keyHash: HashNumber, entry: Option<Entry<K, V>>) {
    predicate IsFree() { keyHash == FREE_KEY }
    predicate IsRemoved() { keyHash == REMOVED_KEY }
    predicate IsLive() { IsLiveHash(keyHash) }
    predicate HasCollision() { HasCollisionBit(keyHash) }
    function KeyHash(): HashNumber { WithoutCollision(keyHash) }
    function SetCollision(): Slot<K, V> requires IsLive() { Slot(WithCollision(keyHash), entry) }
    function UnsetCollision(): Slot<K, V> { Slot(WithoutCollision(keyHash), entry) }
  }

  function FreeSlot<K, V>(): Slot<K, V> { Slot(FREE_KEY, None) }
  function RemovedSlot<K, V>(): Slot<K, V> { Slot(REMOVED_KEY, None) }

  /** What `remove` leaves behind: a tombstone if some probe path passes through, else a free slot. */
  function Vacated<K, V>(slot: Slot<K, V>): Slot<K, V> {
    if slot.HasCollision() then RemovedSlot() else FreeSlot()
  }

  type Slots<K, V> = seq<Slot<K, V>>

  /** The i-th slot probed for a prepared hash. */
  type Prober = (HashNumber, nat) -> nat

  ghost predicate ProbesInside(probe: Prober, capacity: nat) {
    forall h, i :: probe(h, i) < capacity
  }

  ghost predicate SlotsOk<K, V>(hashOf: K -> HashNumber, s: Slots<K, V>) {
    forall i :: 0 <= i < |s| ==>
      && (s[i].IsLive() <==> s[i].entry.Some?)
      && (s[i].IsLive() ==> s[i].KeyHash() == hashOf(s[i].entry.value.key))
  }

  ghost predicate UniqueKeys<K, V>(s: Slots<K, V>) {
    forall i, j ::
      (0 <= i < |s| && 0 <= j < |s| && s[i].entry.Some? && s[j].entry.Some?
       && s[i].entry.value.key == s[j].entry.value.key) ==> i == j
  }

  /** The first d slots probed for keyHash all carry the collision bit (they are live or tombstones). */
  ghost predicate PathMarked<K, V>(s: Slots<K, V>, probe: Prober, keyHash: HashNumber, d: nat)
    requires ProbesInside(probe, |s|)
  {
    forall j: nat :: j < d ==> s[probe(keyHash, j)].HasCollision()
  }

  /** A search for keyHash gets to slot t before it can meet a free slot. */
  ghost predicate Reachable<K, V>(s: Slots<K, V>, probe: Prober, keyHash: HashNumber, t: nat)
    requires ProbesInside(probe, |s|)
  {
    exists d: nat :: probe(keyHash, d) == t && PathMarked(s, probe, keyHash, d)
  }

  /** The probe-chain invariant. */
  ghost predicate Chained<K, V>(s: Slots<K, V>, probe: Prober)
    requires ProbesInside(probe, |s|)
  {
    forall t :: 0 <= t < |s| && s[t].IsLive() ==> Reachable(s, probe, s[t].KeyHash(), t)
  }

  ghost predicate StructOk<K, V>(hashOf: K -> HashNumber, s: Slots<K, V>, probe: Prober) {
    && ProbesInside(probe, |s|)
    && SlotsOk(hashOf, s)
    && UniqueKeys(s)
    && Chained(s, probe)
  }

  /** The map a slot array stands for. */
  ghost function Contents<K, V>(s: Slots<K, V>): map<K, V>
    requires UniqueKeys(s)
  {
    map i | 0 <= i < |s| && s[i].entry.Some? :: s[i].entry.value.key := s[i].entry.value.value
  }

  ghost function LiveSet<K, V>(s: Slots<K, V>): set<int> {
    set i | 0 <= i < |s| && s[i].IsLive()
  }

  ghost function RemovedSet<K, V>(s: Slots<K, V>): set<int> {
    set i | 0 <= i < |s| && s[i].IsRemoved()
  }

  /** s' is s with the collision bit set on some live slots. */
  ghost predicate Marked<K, V>(s: Slots<K, V>, s': Slots<K, V>) {
    && |s| == |s'|
    && forall i :: 0 <= i < |s| ==> s'[i] == s[i] || (s[i].IsLive() && s'[i] == s[i].SetCollision())
  }

  /** Every live slot other than the i-th keeps its entry. */
  ghost predicate OthersStay<K, V>(s: Slots<K, V>, s': Slots<K, V>, i: nat) {
    |s| == |s'| && forall j :: 0 <= j < |s| && j != i && s[j].IsLive() ==> s'[j].IsLive() && s'[j].entry == s[j].entry
  }

  // ---------------------------------------------------------------------------------------------
  // Counting
  // ---------------------------------------------------------------------------------------------

  ghost function AllBelow(n: nat): (all: set<int>)
    ensures forall i :: i in all <==> 0 <= i < n
    ensures |all| == n
  {
    if n == 0 then {} else AllBelow(n - 1) + {n - 1}
  }

  /** Live slots and tombstones never outnumber the slots, and if they are fewer a free slot exists. */
  lemma CountsBound<K, V>(s: Slots<K, V>)
    ensures |LiveSet(s)| + |RemovedSet(s)| <= |s|
    ensures |LiveSet(s)| + |RemovedSet(s)| < |s| ==> exists i :: 0 <= i < |s| && s[i].IsFree()
    ensures |LiveSet(s)| < |s| ==> exists i :: 0 <= i < |s| && !s[i].IsLive()
  {
    var live, removed := LiveSet(s), RemovedSet(s);
    var all := AllBelow(|s|);
    var free := all - (live + removed);
    assert all == live + removed + free;
    assert |all| == |live| + |removed| + |free|;
    if free != {} {
      var i :| i in free;
      assert s[i].IsFree();
    }
    var dead := all - live;
    assert all == live + dead;
    if dead != {} {
      var i :| i in dead;
      assert !s[i].IsLive();
    }
  }

  // ---------------------------------------------------------------------------------------------
  // Lookup
  // ---------------------------------------------------------------------------------------------

  lemma ContentsAt<K, V>(s: Slots<K, V>, i: nat)
    requires UniqueKeys(s) && i < |s| && s[i].entry.Some?
    ensures s[i].entry.value.key in Contents(s)
    ensures Contents(s)[s[i].entry.value.key] == s[i].entry.value.value
  {
  }

  lemma ContentsHas<K, V>(s: Slots<K, V>, k: K) returns (i: nat)
    requires UniqueKeys(s) && k in Contents(s)
    ensures i < |s| && s[i].entry.Some? && s[i].entry.value.key == k
  {
    i :| 0 <= i < |s| && s[i].entry.Some? && s[i].entry.value.key == k;
  }

  predicate Matches<K(==), V>(slot: Slot<K, V>, key: K) {
    slot.entry.Some? && slot.entry.value.key == key
  }

  lemma FoundBeforeFree<K, V>(s: Slots<K, V>, probe: Prober, h: HashNumber, d: nat, n: nat)
    requires ProbesInside(probe, |s|)
    requires PathMarked(s, probe, h, d) && s[probe(h, d)].IsLive() && s[probe(h, n)].IsFree()
    ensures d < n
  {
  }

  /** If the first n slots probed do not match and the n-th is free, the key is absent. */
  lemma LookupMiss<K, V>(hashOf: K -> HashNumber, s: Slots<K, V>, probe: Prober, key: K, n: nat)
    requires StructOk(hashOf, s, probe)
    requires s[probe(hashOf(key), n)].IsFree()
    requires forall j: nat :: j < n ==> !Matches(s[probe(hashOf(key), j)], key)
    ensures key !in Contents(s)
  {
    if key in Contents(s) {
      var t := ContentsHas(s, key);
      var h := hashOf(key);
      assert s[t].KeyHash() == h;
      var d: nat :| probe(h, d) == t && PathMarked(s, probe, h, d);
      FoundBeforeFree(s, probe, h, d, n);
    }
  }

  /** The probe test: compare the cached hash first, and only then the key. */
  predicate Hits<K(==), V>(slot: Slot<K, V>, keyHash: HashNumber, key: K)
    requires slot.KeyHash() == keyHash ==> slot.entry.Some?
  {
    slot.KeyHash() == keyHash && slot.entry.value.key == key
  }

  /** The probe test never reads a destroyed entry, and it finds the key: equal keys have equal hashes. */
  lemma HitIsMatch<K, V>(hashOf: K -> HashNumber, s: Slots<K, V>, i: nat, key: K)
    requires SlotsOk(hashOf, s) && i < |s| && IsLiveHash(hashOf(key))
    ensures s[i].KeyHash() == hashOf(key) ==> s[i].entry.Some?
    ensures Hits(s[i], hashOf(key), key) <==> Matches(s[i], key)
  {
  }

  // ---------------------------------------------------------------------------------------------
  // Edits
  // ---------------------------------------------------------------------------------------------

  lemma ReachableMono<K, V>(s: Slots<K, V>, s': Slots<K, V>, probe: Prober, h: HashNumber, t: nat)
    requires |s| == |s'| && ProbesInside(probe, |s|)
    requires Reachable(s, probe, h, t)
    requires forall i :: 0 <= i < |s| && s[i].HasCollision() ==> s'[i].HasCollision()
    ensures Reachable(s', probe, h, t)
  {
    var d: nat :| probe(h, d) == t && PathMarked(s, probe, h, d);
    assert PathMarked(s', probe, h, d);
  }

  /** Chains survive an edit of slot t that clears no collision bit of a non-free slot. */
  lemma ChainedMono<K, V>(s: Slots<K, V>, s': Slots<K, V>, probe: Prober, t: nat)
    requires |s| == |s'| && ProbesInside(probe, |s|) && t < |s|
    requires Chained(s, probe)
    requires forall i :: 0 <= i < |s| && i != t ==> s'[i] == s[i]
    requires s[t].HasCollision() ==> s'[t].HasCollision()
    requires s'[t].IsLive() ==> Reachable(s', probe, s'[t].KeyHash(), t)
    ensures Chained(s', probe)
  {
    forall u | 0 <= u < |s'| && s'[u].IsLive()
      ensures Reachable(s', probe, s'[u].KeyHash(), u)
    {
      if u != t {
        ReachableMono(s, s', probe, s'[u].KeyHash(), u);
      }
    }
  }

  lemma SameEntriesSameContents<K, V>(s: Slots<K, V>, s': Slots<K, V>)
    requires UniqueKeys(s) && |s'| == |s|
    requires forall i :: 0 <= i < |s| ==> s'[i].entry == s[i].entry
    ensures UniqueKeys(s') && Contents(s') == Contents(s)
  {
    forall k | k in Contents(s)
      ensures k in Contents(s') && Contents(s')[k] == Contents(s)[k]
    {
      var i := ContentsHas(s, k);
      ContentsAt(s', i);
    }
    forall k | k in Contents(s')
      ensures k in Contents(s)
    {
      var i := ContentsHas(s', k);
      ContentsAt(s, i);
    }
  }

  lemma MarkedKeepsChains<K, V>(s: Slots<K, V>, s': Slots<K, V>, probe: Prober)
    requires ProbesInside(probe, |s|)
    requires Chained(s, probe) && Marked(s, s')
    ensures Chained(s', probe)
  {
    forall t | 0 <= t < |s'| && s'[t].IsLive()
      ensures Reachable(s', probe, s'[t].KeyHash(), t)
    {
      assert s[t].IsLive();
      assert s'[t].KeyHash() == s[t].KeyHash();
      ReachableMono(s, s', probe, s[t].KeyHash(), t);
    }
  }

  lemma MarkedKeeps<K, V>(hashOf: K -> HashNumber, s: Slots<K, V>, s': Slots<K, V>, probe: Prober)
    requires StructOk(hashOf, s, probe) && Marked(s, s')
    ensures StructOk(hashOf, s', probe)
    ensures Contents(s') == Contents(s)
    ensures LiveSet(s') == LiveSet(s) && RemovedSet(s') == RemovedSet(s)
  {
    SameEntriesSameContents(s, s');
    MarkedKeepsChains(s, s', probe);
  }

  /** Filling a reachable non-live slot adds one binding; a recycled tombstone must keep its collision bit. */
  lemma FilledKeeps<K, V>(hashOf: K -> HashNumber, s: Slots<K, V>, probe: Prober, t: nat, slot: Slot<K, V>)
    requires StructOk(hashOf, s, probe) && t < |s| && !s[t].IsLive()
    requires slot.IsLive() && slot.entry.Some?
    requires slot.KeyHash() == hashOf(slot.entry.value.key)
    requires slot.entry.value.key !in Contents(s)
    requires Reachable(s, probe, slot.KeyHash(), t)
    requires s[t].IsRemoved() ==> slot.HasCollision()
    ensures StructOk(hashOf, s[t := slot], probe)
    ensures Contents(s[t := slot]) == Contents(s)[slot.entry.value.key := slot.entry.value.value]
    ensures LiveSet(s[t := slot]) == LiveSet(s) + {t} && t !in LiveSet(s)
    ensures RemovedSet(s[t := slot]) == RemovedSet(s) - {t} && (t in RemovedSet(s) <==> s[t].IsRemoved())
  {
    FilledChains(s, probe, t, slot);
    FilledContents(s, t, slot);
    FilledSets(s, t, slot);
  }

  /** What fills t was not needed to reach t. */
  lemma {:induction false} ReachedWithout<K, V>(s: Slots<K, V>, probe: Prober, h: HashNumber, t: nat,
                                                slot: Slot<K, V>, d: nat)
    requires ProbesInside(probe, |s|) && t < |s| && probe(h, d) == t && PathMarked(s[t := slot], probe, h, d)
    ensures Reachable(s, probe, h, t)
    decreases d
  {
    if PathMarked(s, probe, h, d) {
    } else {
      var j: nat :| j < d && !s[probe(h, j)].HasCollision();
      assert s[t := slot][probe(h, j)].HasCollision();
      ReachedWithout(s, probe, h, t, slot, j);
    }
  }

  /** Filling a slot that is not live, whatever the key: the array stays well formed exactly if the key was absent and
      its own probe path leads to the slot. */
  lemma FilledIff<K, V>(hashOf: K -> HashNumber, s: Slots<K, V>, probe: Prober, t: nat, slot: Slot<K, V>)
    requires StructOk(hashOf, s, probe) && t < |s| && !s[t].IsLive()
    requires slot.IsLive() && slot.entry.Some?
    requires slot.KeyHash() == hashOf(slot.entry.value.key)
    requires s[t].IsRemoved() ==> slot.HasCollision()
    ensures StructOk(hashOf, s[t := slot], probe) <==>
      slot.entry.value.key !in Contents(s) && Reachable(s[t := slot], probe, slot.KeyHash(), t)
  {
    hide Contents, PathMarked;
    var key, s' := slot.entry.value.key, s[t := slot];
    if key in Contents(s) {
      var i := ContentsHas(s, key);
      assert s'[i] == s[i] && s'[t] == slot;
    } else if Reachable(s', probe, slot.KeyHash(), t) {
      var d: nat :| probe(slot.KeyHash(), d) == t && PathMarked(s', probe, slot.KeyHash(), d);
      ReachedWithout(s, probe, slot.KeyHash(), t, slot, d);
      FilledKeeps(hashOf, s, probe, t, slot);
    } else {
      assert s'[t].IsLive();
    }
  }

  lemma FilledChains<K, V>(s: Slots<K, V>, probe: Prober, t: nat, slot: Slot<K, V>)
    requires ProbesInside(probe, |s|) && t < |s| && !s[t].IsLive()
    requires Chained(s, probe) && Reachable(s, probe, slot.KeyHash(), t)
    requires s[t].IsRemoved() ==> slot.HasCollision()
    ensures Chained(s[t := slot], probe)
  {
    ReachableMono(s, s[t := slot], probe, slot.KeyHash(), t);
    ChainedMono(s, s[t := slot], probe, t);
  }

  lemma FilledSets<K, V>(s: Slots<K, V>, t: nat, slot: Slot<K, V>)
    requires t < |s| && !s[t].IsLive() && slot.IsLive()
    ensures LiveSet(s[t := slot]) == LiveSet(s) + {t} && t !in LiveSet(s)
    ensures RemovedSet(s[t := slot]) == RemovedSet(s) - {t} && (t in RemovedSet(s) <==> s[t].IsRemoved())
  {
  }

  lemma FilledContents<K, V>(s: Slots<K, V>, t: nat, slot: Slot<K, V>)
    requires t < |s| && s[t].entry.None? && slot.entry.Some?
    requires UniqueKeys(s) && slot.entry.value.key !in Contents(s)
    ensures UniqueKeys(s[t := slot])
    ensures Contents(s[t := slot]) == Contents(s)[slot.entry.value.key := slot.entry.value.value]
  {
    var s' := s[t := slot];
    forall i | 0 <= i < |s| && s[i].entry.Some?
      ensures s[i].entry.value.key != slot.entry.value.key
    {
      ContentsAt(s, i);
    }
    assert UniqueKeys(s');
    var m, m' := Contents(s), Contents(s');
    var k0 := slot.entry.value.key;
    ContentsAt(s', t);
    forall k | k in m'
      ensures k == k0 || (k in m && m[k] == m'[k])
    {
      var i := ContentsHas(s', k);
      ContentsAt(s', i);
      if i != t {
        assert s[i] == s'[i];
        ContentsAt(s, i);
      }
    }
    forall k | k in m
      ensures k in m'
    {
      var i := ContentsHas(s, k);
      assert s'[i] == s[i];
      ContentsAt(s', i);
    }
  }

  /** Vacating a live slot deletes exactly its binding and loses nothing else. */
  lemma VacatedKeeps<K, V>(hashOf: K -> HashNumber, s: Slots<K, V>, probe: Prober, t: nat)
    requires StructOk(hashOf, s, probe) && t < |s| && s[t].IsLive()
    ensures StructOk(hashOf, s[t := Vacated(s[t])], probe)
    ensures Contents(s[t := Vacated(s[t])]) == Contents(s) - {s[t].entry.value.key}
    ensures LiveSet(s[t := Vacated(s[t])]) == LiveSet(s) - {t} && t in LiveSet(s)
    ensures t !in RemovedSet(s)
    ensures RemovedSet(s[t := Vacated(s[t])]) == RemovedSet(s) + (if s[t].HasCollision() then {t} else {})
  {
    var s' := s[t := Vacated(s[t])];
    VacatedContents(s, t);
    VacatedSets(s, t);
    ChainedMono(s, s', probe, t);
  }

  lemma VacatedContents<K, V>(s: Slots<K, V>, t: nat)
    requires UniqueKeys(s) && t < |s| && s[t].entry.Some?
    ensures UniqueKeys(s[t := Vacated(s[t])])
    ensures Contents(s[t := Vacated(s[t])]) == Contents(s) - {s[t].entry.value.key}
  {
    var s' := s[t := Vacated(s[t])];
    var m, m' := Contents(s), Contents(s');
    forall k | k in m'
      ensures k in m && m[k] == m'[k] && k != s[t].entry.value.key
    {
      var i := ContentsHas(s', k);
      ContentsAt(s', i);
      assert s[i] == s'[i];
      ContentsAt(s, i);
    }
    forall k | k in m && k != s[t].entry.value.key
      ensures k in m'
    {
      var i := ContentsHas(s, k);
      assert s'[i] == s[i];
      ContentsAt(s', i);
    }
  }

  ghost predicate LiveIffPresent<K, V>(s: Slots<K, V>) {
    forall i :: 0 <= i < |s| ==> (s[i].IsLive() <==> s[i].entry.Some?)
  }

  /** The entry count is the size of the map: vacate the live slots one by one. */
  lemma {:induction false} LiveCountIsMapSize<K, V>(s: Slots<K, V>)
    requires UniqueKeys(s) && LiveIffPresent(s)
    ensures |Contents(s)| == |LiveSet(s)|
    decreases LiveSet(s)
  {
    if t :| 0 <= t < |s| && s[t].IsLive() {
      VacatedContents(s, t);
      VacatedSets(s, t);
      ContentsAt(s, t);
      LiveCountIsMapSize(s[t := Vacated(s[t])]);
    } else {
      NoneLive(s);
    }
  }

  lemma NoneLive<K, V>(s: Slots<K, V>)
    requires UniqueKeys(s) && LiveIffPresent(s)
    requires forall i :: 0 <= i < |s| ==> !s[i].IsLive()
    ensures Contents(s) == map[] && LiveSet(s) == {}
  {
  }

  lemma VacatedSets<K, V>(s: Slots<K, V>, t: nat)
    requires t < |s| && s[t].IsLive()
    ensures LiveSet(s[t := Vacated(s[t])]) == LiveSet(s) - {t} && t in LiveSet(s)
    ensures t !in RemovedSet(s)
    ensures RemovedSet(s[t := Vacated(s[t])]) == RemovedSet(s) + (if s[t].HasCollision() then {t} else {})
  {
  }

  /** Overwriting the value of a live slot updates its binding. */
  lemma OverwrittenKeeps<K, V>(hashOf: K -> HashNumber, s: Slots<K, V>, probe: Prober, t: nat, v: V)
    requires StructOk(hashOf, s, probe) && t < |s| && s[t].IsLive()
    ensures
      var key := s[t].entry.value.key;
      var s' := s[t := Slot(s[t].keyHash, Some(Entry(key, v)))];
      && StructOk(hashOf, s', probe)
      && Contents(s') == Contents(s)[key := v]
      && LiveSet(s') == LiveSet(s) && RemovedSet(s') == RemovedSet(s)
  {
    var key := s[t].entry.value.key;
    var s' := s[t := Slot(s[t].keyHash, Some(Entry(key, v)))];
    assert UniqueKeys(s');
    ReachableMono(s, s', probe, s[t].KeyHash(), t);
    ChainedMono(s, s', probe, t);
    OverwrittenContents(s, t, v);
  }

  lemma OverwrittenContents<K, V>(s: Slots<K, V>, t: nat, v: V)
    requires UniqueKeys(s) && t < |s| && s[t].entry.Some?
    requires UniqueKeys(s[t := Slot(s[t].keyHash, Some(Entry(s[t].entry.value.key, v)))])
    ensures Contents(s[t := Slot(s[t].keyHash, Some(Entry(s[t].entry.value.key, v)))])
         == Contents(s)[s[t].entry.value.key := v]
  {
    var key := s[t].entry.value.key;
    var s' := s[t := Slot(s[t].keyHash, Some(Entry(key, v)))];
    var m, m' := Contents(s), Contents(s');
    ContentsAt(s', t);
    ContentsAt(s, t);
    forall k | k in m'
      ensures k in m && (k == key || m[k] == m'[k])
    {
      var i := ContentsHas(s', k);
      ContentsAt(s', i);
      ContentsAt(s, i);
    }
    forall k | k in m
      ensures k in m'
    {
      var i := ContentsHas(s, k);
      ContentsAt(s', i);
    }
  }

  /** A freshly created table: every slot free. */
  lemma AllFreeOk<K, V>(hashOf: K -> HashNumber, s: Slots<K, V>, probe: Prober)
    requires ProbesInside(probe, |s|)
    requires forall i :: 0 <= i < |s| ==> s[i] == FreeSlot()
    ensures StructOk(hashOf, s, probe)
    ensures Contents(s) == map[] && LiveSet(s) == {} && RemovedSet(s) == {}
  {
  }

  /** probe is the double-hashing sequence for 2^log2 slots. */
  ghost predicate Probes(probe: Prober, log2: nat) {
    log2 <= HASH_BITS && forall h, i {:trigger Probe(h, log2, i)} :: probe(h, i) == Probe(h, log2, i)
  }

  function ProberFor(log2: nat): (probe: Prober)
    requires log2 <= HASH_BITS
    ensures Probes(probe, log2)
  {
    (h: HashNumber, i: nat) => Probe(h, log2, i) as nat
  }

  lemma ProbeStarts(probe: Prober, log2: nat, h: HashNumber)
    requires Probes(probe, log2)
    ensures probe(h, 0) == Hash1(h, log2)
  {
    assert Probe(h, log2, 0) == Hash1(h, log2);
  }

  lemma ProbeContinues(probe: Prober, log2: nat, h: HashNumber, i: nat)
    requires Probes(probe, log2)
    ensures 0 <= probe(h, i) < TWO_TO_32
    ensures probe(h, i + 1) == ApplyDoubleHash(probe(h, i), Hash2(h, log2), log2)
  {
    assert Probe(h, log2, i) == probe(h, i) && Probe(h, log2, i + 1) == probe(h, i + 1);
  }

  lemma ProbesStayInside(probe: Prober, log2: nat)
    requires Probes(probe, log2)
    ensures ProbesInside(probe, Pow2(log2))
  {
    forall h, i
      ensures probe(h, i) < Pow2(log2)
    {
      assert Probe(h, log2, i) == probe(h, i);
    }
  }

  lemma ProbesReachAll(probe: Prober, log2: nat, h: HashNumber, t: nat) returns (i: nat)
    requires Probes(probe, log2) && t < Pow2(log2)
    ensures probe(h, i) == t
  {
    i := ProbeReaches(h, log2, t);
    assert Probe(h, log2, i) == probe(h, i);
  }

  /** The prepared hash of a key. */
  function PreparedBy<K>(hasher: K -> HashNumber): K -> HashNumber {
    (k: K) => PrepareHash(hasher(k))
  }

  lemma PreparedAt<K>(hasher: K -> HashNumber, k: K)
    ensures PreparedBy(hasher)(k) == PrepareHash(hasher(k))
  {
  }
}
