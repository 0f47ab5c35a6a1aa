/** Calls on hash maps at which mfbt/HashTable.h does not do what its documentation or its assertions say. */
module HashExamples {
  import opened Wrappers
  import opened Modular
  import opened DoubleHashing
  import opened HashRuns
  import opened HashSlots
  import opened HashTables
  import opened MarkedHashes
  import opened Probing
  import opened TableSizing

  /** A hash policy under which all keys collide. */
  function SameHash(key: int): HashNumber {
    0
  }

  const ENV_OK := Env(true, true, true)

  /** No slot but the i-th and the j-th is in use. */
  ghost predicate RestFree(s: Slots<int, int>, i: nat, j: nat) {
    && i < |s| && j < |s|
    && forall k :: 0 <= k < |s| && k != i && k != j ==> s[k].IsFree()
  }

  ghost predicate Holding(slot: Slot<int, int>, key: int) {
    slot.IsLive() && Matches(slot, key)
  }

  /** Keys a and b are in the first and the second slot on the path of h; all others are free. */
  ghost predicate Pair(s: Slots<int, int>, probe: Prober, h: HashNumber, a: int, b: int)
    requires ProbesInside(probe, |s|)
  {
    && probe(h, 0) != probe(h, 1) && RestFree(s, probe(h, 0), probe(h, 1))
    && Holding(s[probe(h, 0)], a) && s[probe(h, 0)].HasCollision() && Holding(s[probe(h, 1)], b)
  }

  /** The same after a has been removed. */
  ghost predicate Gap(s: Slots<int, int>, probe: Prober, h: HashNumber, b: int)
    requires ProbesInside(probe, |s|)
  {
    && probe(h, 0) != probe(h, 1) && RestFree(s, probe(h, 0), probe(h, 1))
    && s[probe(h, 0)].IsRemoved() && Holding(s[probe(h, 1)], b)
  }

  lemma FirstPut(s: Slots<int, int>, s': Slots<int, int>, probe: Prober, h: HashNumber, entry: Entry<int, int>)
    requires ProbesInside(probe, |s|) && PutFirst(s, s', probe, h, entry)
    requires forall i :: 0 <= i < |s| ==> s[i].IsFree()
    ensures RestFree(s', probe(h, 0), probe(h, 0)) && Holding(s'[probe(h, 0)], entry.key)
  {
    hide Reachable;
    assert FirstNonLive(s, probe, h, probe(h, 0));
    FirstNonLiveUnique(s, probe, h, probe(h, 0));
  }

  lemma SecondPut(s: Slots<int, int>, s': Slots<int, int>, probe: Prober, h: HashNumber, a: int,
                  entry: Entry<int, int>)
    requires ProbesInside(probe, |s|) && probe(h, 0) != probe(h, 1) && PutFirst(s, s', probe, h, entry)
    requires RestFree(s, probe(h, 0), probe(h, 0)) && Holding(s[probe(h, 0)], a)
    ensures Pair(s', probe, h, a, entry.key)
  {
    hide Reachable;
    assert FirstNonLive(s, probe, h, probe(h, 1)) by {
      assert AllLive(s, probe, h, 1);
    }
    FirstNonLiveUnique(s, probe, h, probe(h, 1));
    SecondMarksFirst(s', probe, h);
  }

  lemma SecondMarksFirst(s: Slots<int, int>, probe: Prober, h: HashNumber)
    requires ProbesInside(probe, |s|) && probe(h, 0) != probe(h, 1) && Reachable(s, probe, h, probe(h, 1))
    ensures s[probe(h, 0)].HasCollision()
  {
    var d: nat :| probe(h, d) == probe(h, 1) && PathMarked(s, probe, h, d);
    assert 0 < d;
  }

  lemma FirstTaken(hashOf: int -> HashNumber, s: Slots<int, int>, s': Slots<int, int>, probe: Prober, h: HashNumber,
                   a: int, b: int)
    requires ProbesInside(probe, |s|) && SlotsOk(hashOf, s) && Pair(s, probe, h, a, b) && a != b && TakenOut(s, s', a)
    ensures |s'| == |s| && Gap(s', probe, h, b)
  {
  }

  lemma GapMarked(s: Slots<int, int>, s': Slots<int, int>, probe: Prober, h: HashNumber, b: int)
    requires ProbesInside(probe, |s|) && Gap(s, probe, h, b) && Marked(s, s')
    ensures Gap(s', probe, h, b)
  {
  }

  lemma GapFirst(s: Slots<int, int>, probe: Prober, h: HashNumber, b: int)
    requires ProbesInside(probe, |s|) && Gap(s, probe, h, b)
    ensures FirstNonLive(s, probe, h, probe(h, 0))
    ensures forall t: nat :: FirstNonLive(s, probe, h, t) ==> t == probe(h, 0)
  {
    FirstNonLiveUnique(s, probe, h, probe(h, 0));
  }

  lemma GapTombstone(s: Slots<int, int>, probe: Prober, h: HashNumber, b: int)
    requires ProbesInside(probe, |s|) && Gap(s, probe, h, b)
    ensures s[probe(h, 0)].IsRemoved()
  {
  }

  lemma GapFilled(s: Slots<int, int>, s': Slots<int, int>, probe: Prober, h: HashNumber, b: int,
                  entry: Entry<int, int>)
    requires ProbesInside(probe, |s|) && Gap(s, probe, h, b) && PutFirst(s, s', probe, h, entry)
    ensures Pair(s', probe, h, entry.key, b)
  {
    hide Reachable, FirstNonLive;
    GapFirst(s, probe, h, b);
  }

  /** A search for key passes over full slots and ends at a free one. */
  ghost predicate SearchMisses(s: Slots<int, int>, probe: Prober, h: HashNumber, key: int)
    requires ProbesInside(probe, |s|)
  {
    exists n: nat :: PassedOver(s, probe, h, key, n) && s[probe(h, n)].IsFree()
  }

  /** The entry is there, but not on the path searched for its key. */
  lemma LostPut(s: Slots<int, int>, s': Slots<int, int>, probe: Prober, h: HashNumber, a: int, b: int,
                entry: Entry<int, int>)
    requires ProbesInside(probe, |s|) && Pair(s, probe, h, a, b) && a != entry.key && b != entry.key
    requires PutFirst(s, s', probe, WithCollision(h), entry)
    requires probe(WithCollision(h), 0) == probe(h, 0)
    requires var y := probe(WithCollision(h), 1);
      y != probe(h, 0) && y != probe(h, 1) && y != probe(h, 2)
    requires probe(h, 2) != probe(h, 0) && probe(h, 2) != probe(h, 1)
    ensures SearchMisses(s', probe, h, entry.key) && Holding(s'[probe(WithCollision(h), 1)], entry.key)
  {
    hide Reachable;
    var h', y := WithCollision(h), probe(WithCollision(h), 1);
    assert FirstNonLive(s, probe, h', y) by {
      assert AllLive(s, probe, h', 1);
    }
    FirstNonLiveUnique(s, probe, h', y);
    assert s'[probe(h, 2)].IsFree();
    assert PassedOver(s', probe, h, entry.key, 2);
  }

  lemma LostIsInvalid(tab: HashTable<int, int>, i: nat, key: int)
    requires tab.Valid() && tab.table != null && i < tab.table.Length && Holding(tab.table[i], key)
    ensures !SearchMisses(tab.table[..], ProberFor(tab.Log2()), tab.HashOf()(key), key)
  {
    var s, probe, h := tab.table[..], ProberFor(tab.Log2()), tab.HashOf()(key);
    ContentsAt(s, i);
    forall n: nat | PassedOver(s, probe, h, key, n) && s[probe(h, n)].IsFree() ensures false {
      LookupMiss(tab.HashOf(), s, probe, key, n);
    }
  }

  lemma NothingUsed(s: Slots<int, int>)
    requires LiveSet(s) == {} && RemovedSet(s) == {}
    ensures forall i :: 0 <= i < |s| ==> s[i].IsFree()
  {
    forall i | 0 <= i < |s| ensures s[i].IsFree() {
      assert i !in LiveSet(s) && i !in RemovedSet(s);
    }
  }

  /** The tombstones of a table that holds a pair, and of one with a gap. */
  lemma PairRemoved(s: Slots<int, int>, probe: Prober, h: HashNumber, a: int, b: int)
    requires ProbesInside(probe, |s|)
    ensures Pair(s, probe, h, a, b) ==> RemovedSet(s) == {}
    ensures Gap(s, probe, h, b) ==> RemovedSet(s) == {probe(h, 0)}
  {
  }

  /** The first slots probed differ. */
  lemma Distinct(log2: nat, h: HashNumber)
    requires MIN_LOG2 <= log2 <= MAX_LOG2
    ensures var probe := ProberFor(log2);
      probe(h, 0) != probe(h, 1) && probe(h, 2) != probe(h, 0) && probe(h, 2) != probe(h, 1)
  {
    var probe := ProberFor(log2);
    assert Pow2(2) == 4;
    SmallerExponent(2, log2);
    forall i: nat, j: nat | i < j <= 2 ensures probe(h, i) != probe(h, j) {
      assert probe(h, i) == Probe(h, log2, i) && probe(h, j) == Probe(h, log2, j);
      if probe(h, i) == probe(h, j) {
        ProbeInjective(h, log2, i, j);
      }
    }
  }

  lemma OffThePath(log2: nat, h: HashNumber)
    requires SAME_PATH_LOG2 < log2 <= MAX_LOG2 && h % 2 == 0
    ensures var probe, y := ProberFor(log2), ProberFor(log2)(WithCollision(h), 1);
      && probe(WithCollision(h), 0) == probe(h, 0)
      && y != probe(h, 0) && y != probe(h, 1) && y != probe(h, 2)
  {
    var probe := ProberFor(log2);
    ProbeStarts(probe, log2, h);
    ProbeStarts(probe, log2, WithCollision(h));
    SameHash1(h, log2);
    assert probe(WithCollision(h), 1) == Probe(WithCollision(h), log2, 1);
    forall j: nat | j <= 2 ensures probe(WithCollision(h), 1) != probe(h, j) {
      assert probe(h, j) == Probe(h, log2, j);
      OffPath(h, log2, j);
    }
  }

  /** All keys have one prepared hash. */
  lemma OneHash(tab: HashTable<int, int>)
    requires tab.Valid() && tab.hasher == SameHash
    ensures forall key :: tab.HashOf()(key) == tab.HashOf()(0)
    ensures IsLiveHash(tab.HashOf()(0)) && !HasCollisionBit(tab.HashOf()(0))
    ensures tab.table != null ==>
      ProbesInside(ProberFor(tab.Log2()), tab.table.Length) && SlotsOk(tab.HashOf(), tab.table[..])
  {
    hide PrepareHash;
    forall key ensures tab.HashOf()(key) == PrepareHash(SameHash(key)) {
      PreparedAt(tab.hasher, key);
    }
    if tab.table != null {
      ProbesStayInside(ProberFor(tab.Log2()), tab.Log2());
    }
  }

  /** A new table with reserved storage. */
  method ReserveNew(len: nat) returns (tab: HashTable<int, int>)
    requires 3 <= len <= MAX_INIT
    ensures fresh(tab) && tab.table != null && fresh(tab.table) && tab.Valid() && tab.hasher == SameHash
    ensures tab.Map() == map[] && tab.entryCount == 0 && tab.removedCount == 0 && Holds(tab.Capacity(), len)
    ensures forall i :: 0 <= i < tab.table.Length ==> tab.table[i].IsFree()
  {
    hide StructOk, Contents, ProberFor, Pow2, BestCapacity, CeilingLog2;
    tab := new HashTable(SameHash, 0);
    tab.Counts();
    var ok := tab.Reserve(len, true);
    tab.Counts();
    NothingUsed(tab.table[..]);
  }

  /** Two colliding keys are put in. */
  method PutPair(len: nat) returns (tab: HashTable<int, int>)
    requires 3 <= len <= MAX_INIT
    ensures fresh(tab) && tab.table != null && fresh(tab.table) && tab.Valid() && tab.hasher == SameHash
    ensures tab.Map() == map[0 := 0, 1 := 0] && Holds(tab.Capacity(), len)
    ensures ProbesInside(ProberFor(tab.Log2()), tab.table.Length)
    ensures Pair(tab.table[..], ProberFor(tab.Log2()), tab.HashOf()(0), 0, 1)
  {
    hide StructOk, Contents, LiveSet, RemovedSet, ProberFor, PreparedBy, PrepareHash, Pow2, RestFree, PutFirst, Pair;
    tab := ReserveNew(len);
    OneHash(tab);
    Distinct(tab.Log2(), tab.HashOf()(0));
    ghost var s := tab.table[..];
    tab.PutNewInfallible(0, 0);
    FirstPut(s, tab.table[..], ProberFor(tab.Log2()), tab.HashOf()(0), Entry(0, 0));
    s := tab.table[..];
    tab.PutNewInfallible(1, 0);
    SecondPut(s, tab.table[..], ProberFor(tab.Log2()), tab.HashOf()(0), 0, Entry(1, 0));
  }

  /** The state the examples go through: two colliding keys, the first of them perhaps removed. */
  ghost predicate Ready(tab: HashTable<int, int>, len: nat)
    reads tab, tab.table
  {
    && tab.Valid() && tab.table != null && tab.hasher == SameHash && Holds(tab.Capacity(), len)
    && ProbesInside(ProberFor(tab.Log2()), tab.table.Length)
  }

  /** The first key is removed, and then looked up for insertion. */
  method RemoveAndLookUp(tab: HashTable<int, int>, ghost len: nat) returns (p: AddPtr)
    requires Ready(tab, len) && tab.Map() == map[0 := 0, 1 := 0]
    requires Pair(tab.table[..], ProberFor(tab.Log2()), tab.HashOf()(0), 0, 1)
    modifies tab, tab.table
    ensures tab.table == old(tab.table) && Ready(tab, len) && tab.Map() == map[1 := 0]
    ensures Gap(tab.table[..], ProberFor(tab.Log2()), tab.HashOf()(0), 1)
    ensures p.keyHash == tab.HashOf()(0)
  {
    hide StructOk, Contents, LiveSet, RemovedSet, ProberFor, PreparedBy, PrepareHash, Pow2, RestFree, PutFirst, Pair,
      Gap, TakenOut, FirstNonLive, Reachable, HashTable.Homed, HashTable.Denotes, HashTable.LoadOk, HashTable.TableOk;
    OneHash(tab);
    ghost var probe, h := ProberFor(tab.Log2()), tab.HashOf()(0);
    ghost var s := tab.table[..];
    tab.RemoveKey(0, false);
    FirstTaken(tab.HashOf(), s, tab.table[..], probe, h, 0, 1);
    s := tab.table[..];
    p := tab.LookupForAddPtr(0, ENV_OK);
    GapMarked(s, tab.table[..], probe, h, 1);
  }

  /** The key comes back through that pointer: the tombstone is recycled, and the pointer gets the collision bit. */
  method AddBack(tab: HashTable<int, int>, p: AddPtr, ghost len: nat) returns (p': AddPtr)
    requires Ready(tab, len) && tab.Map() == map[1 := 0]
    requires Gap(tab.table[..], ProberFor(tab.Log2()), tab.HashOf()(0), 1) && p.keyHash == tab.HashOf()(0)
    modifies tab, tab.table
    ensures tab.table == old(tab.table) && Ready(tab, len) && tab.Map() == map[0 := 0, 1 := 0]
    ensures Pair(tab.table[..], ProberFor(tab.Log2()), tab.HashOf()(0), 0, 1)
    ensures p'.keyHash == WithCollision(tab.HashOf()(0))
  {
    hide StructOk, Contents, LiveSet, RemovedSet, ProberFor, PreparedBy, PrepareHash, Pow2, RestFree, PutFirst, Pair,
      Gap, FirstNonLive, Reachable, HashTable.Homed, HashTable.Denotes, HashTable.MayReuse, HashTable.HasRoom,
      HashTable.Map, HashTable.LoadOk, HashTable.TableOk;
    OneHash(tab);
    ghost var probe, h := ProberFor(tab.Log2()), tab.HashOf()(0);
    ghost var s := tab.table[..];
    GapFirst(s, probe, h, 1);
    GapTombstone(s, probe, h, 1);
    tab.Counts();
    var ok;
    ok, p' := tab.RelookupOrAdd(p, 0, 0, ENV_OK);
    GapFilled(s, tab.table[..], probe, h, 1, Entry(0, 0));
  }

  lemma MarkedHashesTo(hashOf: int -> HashNumber, key: int)
    requires IsLiveHash(hashOf(key)) && !HasCollisionBit(hashOf(key))
    ensures HashesTo(hashOf, WithCollision(hashOf(key)), key)
  {
  }

  lemma TwoEntries(tab: HashTable<int, int>)
    requires tab.Valid() && tab.hasher == SameHash && tab.Map() == map[0 := 0, 1 := 0]
    ensures tab.Consistent() && tab.ShiftOk() && tab.entryCount == 2
    ensures HashesTo(tab.HashOf(), WithCollision(tab.HashOf()(0)), 0)
  {
    hide StructOk, Contents, LiveSet, RemovedSet, ProberFor, PreparedBy, PrepareHash, Pow2, HashesTo, WithCollision;
    OneHash(tab);
    tab.Counts();
    MarkedHashesTo(tab.HashOf(), 0);
  }

  lemma RoomForThird(tab: HashTable<int, int>)
    requires Ready(tab, 3) && tab.entryCount == 2
    requires Pair(tab.table[..], ProberFor(tab.Log2()), tab.HashOf()(0), 0, 1)
    ensures tab.HasRoom()
  {
    hide StructOk, Contents, LiveSet, RemovedSet, ProberFor, PreparedBy, PrepareHash, Pow2, RestFree, Pair;
    PairRemoved(tab.table[..], ProberFor(tab.Log2()), tab.HashOf()(0), 0, 1);
  }

  lemma OnlyTwoKeys(s: Slots<int, int>, s': Slots<int, int>, probe: Prober, h: HashNumber)
    requires ProbesInside(probe, |s|) && Pair(s, probe, h, 0, 1)
    requires PutFirst(s, s', probe, WithCollision(h), Entry(0, 0))
    ensures forall i :: 0 <= i < |s'| && s'[i].IsLive() ==> Matches(s'[i], 0) || Matches(s'[i], 1)
  {
    hide Reachable, FirstNonLive;
  }

  /** A pointer that comes back with the collision bit set, as the key it was looked up for comes back. */
  method MarkPointer(len: nat) returns (tab: HashTable<int, int>, p: AddPtr)
    requires 3 <= len <= MAX_INIT
    ensures fresh(tab) && Ready(tab, len) && fresh(tab.table) && tab.Map() == map[0 := 0, 1 := 0]
    ensures Pair(tab.table[..], ProberFor(tab.Log2()), tab.HashOf()(0), 0, 1)
    ensures p.keyHash == WithCollision(tab.HashOf()(0))
  {
    hide StructOk, Contents, LiveSet, RemovedSet, ProberFor, PreparedBy, PrepareHash, Pow2, RestFree, Pair, Gap;
    tab := PutPair(len);
    p := RemoveAndLookUp(tab, len);
    p := AddBack(tab, p, len);
  }

  /** relookupOrAdd twice through one AddPtr: the second time the key is there, is not found, and is added again. */
  method AddedTwice() returns (tab: HashTable<int, int>)
    ensures !tab.Valid() && tab.table != null && tab.entryCount == 3
    ensures forall i :: 0 <= i < tab.table.Length && tab.table[i].IsLive() ==>
      Matches(tab.table[i], 0) || Matches(tab.table[i], 1)
  {
    hide StructOk, Contents, LiveSet, RemovedSet, ProberFor, PreparedBy, PrepareHash, Pow2, RestFree, Pair, PutFirst,
      Reachable, FirstNonLive, HashTable.Homed, HashTable.Denotes, HashTable.HasRoom, HashTable.TombstoneFirst,
      HashTable.LoadOk, HashTable.TableOk, HashTable.Map, HashTable.Consistent, HashTable.MayReuse, HashTable.Valid,
      WithCollision, WithoutCollision;
    var p, ok;
    tab, p := MarkPointer(3);
    TwoEntries(tab);
    RoomForThird(tab);
    ghost var s, probe, h := tab.table[..], ProberFor(tab.Log2()), tab.HashOf()(0);
    ok, p := tab.RelookupOrAdd(p, 0, 0, ENV_OK);
    OnlyTwoKeys(s, tab.table[..], probe, h);
  }

  /** The first key is removed again, and another one takes its slot. */
  method ReplaceFirst(tab: HashTable<int, int>, ghost len: nat)
    requires Ready(tab, len) && tab.Map() == map[0 := 0, 1 := 0] && 4 <= len
    requires Pair(tab.table[..], ProberFor(tab.Log2()), tab.HashOf()(0), 0, 1)
    modifies tab, tab.table
    ensures tab.table == old(tab.table) && Ready(tab, len) && tab.Map() == map[1 := 0, 2 := 0]
    ensures Pair(tab.table[..], ProberFor(tab.Log2()), tab.HashOf()(0), 2, 1)
  {
    hide StructOk, Contents, LiveSet, RemovedSet, ProberFor, PreparedBy, PrepareHash, Pow2, RestFree, PutFirst, Pair,
      Gap, FirstNonLive, Reachable, HashTable.Homed, HashTable.Denotes, HashTable.LoadOk, HashTable.TableOk;
    ghost var s := tab.table[..];
    var _ := RemoveAndLookUp(tab, len);
    OneHash(tab);
    s := tab.table[..];
    PairRemoved(s, ProberFor(tab.Log2()), tab.HashOf()(0), 0, 1);
    tab.Counts();
    tab.PutNewInfallible(2, 0);
    GapFilled(s, tab.table[..], ProberFor(tab.Log2()), tab.HashOf()(0), 1, Entry(2, 0));
  }

  /**
   * In a large table the step depends on the collision bit: a key that is gone by the time the pointer is used again is
   * put where no search for it comes by.
   */
  method LostEntry() returns (tab: HashTable<int, int>)
    ensures !tab.Valid() && tab.ShiftOk() && tab.table != null
    ensures exists i :: 0 <= i < tab.table.Length && Holding(tab.table[i], 0)
    ensures ProbesInside(ProberFor(tab.Log2()), tab.table.Length)
    ensures SearchMisses(tab.table[..], ProberFor(tab.Log2()), tab.HashOf()(0), 0)
  {
    hide StructOk, Contents, LiveSet, RemovedSet, ProberFor, PreparedBy, PrepareHash, Pow2, RestFree, PutFirst, Pair,
      Reachable, FirstNonLive, HashTable.Homed, HashTable.Denotes, HashTable.LoadOk, HashTable.TableOk,
      HashTable.MayReuse, HashesTo, WithCollision, WithoutCollision, Holding, SearchMisses;
    var p, ok;
    tab, p := MarkPointer(0x1_8000);
    ReplaceFirst(tab, 0x1_8000);
    OneHash(tab);
    LargeTable(tab);
    ghost var s := tab.table[..];
    ok, p := tab.RelookupOrAdd(p, 0, 0, ENV_OK);
    LostPut(s, tab.table[..], ProberFor(tab.Log2()), tab.HashOf()(0), 2, 1, Entry(0, 0));
    if tab.Valid() {
      LostIsInvalid(tab, ProberFor(tab.Log2())(WithCollision(tab.HashOf()(0)), 1), 0);
    }
  }

  /** With 2^17 slots or more, the two paths part. */
  lemma LargeTable(tab: HashTable<int, int>)
    requires Ready(tab, 0x1_8000) && tab.Map() == map[1 := 0, 2 := 0]
    requires Pair(tab.table[..], ProberFor(tab.Log2()), tab.HashOf()(0), 2, 1)
    ensures HashesTo(tab.HashOf(), WithCollision(tab.HashOf()(0)), 0) && tab.HasRoom() && tab.entryCount == 2
    ensures var probe, h, h' := ProberFor(tab.Log2()), tab.HashOf()(0), WithCollision(tab.HashOf()(0));
      && probe(h', 0) == probe(h, 0) && probe(h, 2) != probe(h, 0) && probe(h, 2) != probe(h, 1)
      && probe(h', 1) != probe(h, 0) && probe(h', 1) != probe(h, 1) && probe(h', 1) != probe(h, 2)
  {
    hide StructOk, Contents, LiveSet, RemovedSet, ProberFor, PreparedBy, PrepareHash, Pow2, RestFree, Pair, HashesTo,
      WithCollision;
    OneHash(tab);
    tab.Counts();
    MarkedHashesTo(tab.HashOf(), 0);
    PairRemoved(tab.table[..], ProberFor(tab.Log2()), tab.HashOf()(0), 2, 1);
    ExponentAbove16(tab.Log2());
    Distinct(tab.Log2(), tab.HashOf()(0));
    OffThePath(tab.Log2(), tab.HashOf()(0));
  }

  lemma ExponentAbove16(log2: nat)
    requires Holds(Pow2(log2), 0x1_8000)
    ensures SAME_PATH_LOG2 < log2
  {
    Pow2Constants();
    Pow2Adds(5, 5);
    Pow2Adds(10, 6);
    assert Pow2(6) == 64;
    if log2 < 16 {
      Pow2Monotone(log2, 16);
    }
  }

  lemma {:induction false} MapOfSize(entries: seq<Entry<int, int>>)
    requires forall i, j :: 0 <= i < j < |entries| ==> entries[i].key != entries[j].key
    ensures |MapOf(entries)| == |entries|
  {
    if entries != [] {
      var init, last := entries[..|entries| - 1], entries[|entries| - 1];
      MapOfSize(init);
      if last.key in MapOf(init) {
        MapOfKeys(init, last.key);
        assert false;
      }
      assert MapOf(entries).Keys == MapOf(init).Keys + {last.key};
      assert |MapOf(entries).Keys| == |MapOf(entries)| && |MapOf(init).Keys| == |MapOf(init)|;
    }
  }

  /** Entries for the keys from 0 on. */
  function Numbered(n: nat): (entries: seq<Entry<int, int>>)
    ensures |entries| == n && forall i :: 0 <= i < n ==> entries[i].key == i
  {
    seq(n, i => Entry(i, 0))
  }

  lemma NumberedIsNew(n: nat)
    ensures n !in MapOf(Numbered(n)) && |MapOf(Numbered(n))| == n
  {
    hide MapOf;
    MapOfSize(Numbered(n));
    if n in MapOf(Numbered(n)) {
      MapOfKeys(Numbered(n), n);
      assert false;
    }
  }

  /** More entries than bestCapacity asserts there to be: compact passes it their number. */
  method ManyEntries() returns (tab: HashTable<int, int>)
    ensures tab.Valid() && tab.entryCount == |tab.Map()| == MAX_INIT + 1
  {
    hide HashTable.Consistent, HashTable.LoadOk, MapOf, Numbered;
    tab := NewTable();
    var ok := Fill(tab, Numbered(MAX_INIT), true);
    NumberedIsNew(MAX_INIT);
    tab.Counts();
    ok := tab.Put(MAX_INIT, 0, ENV_OK);
    tab.Counts();
  }

  method NewTable() returns (tab: HashTable<int, int>)
    ensures fresh(tab) && tab.Valid() && tab.Map() == map[] && tab.removedCount == 0 && tab.table == null
  {
    tab := new HashTable(SameHash, 0);
  }
}
