/** The iterators of mfbt/HashTable.h. */
module HashIterators {
  import opened Wrappers
  import opened DoubleHashing
  import opened HashSlots
  import opened TableSizing
  import opened Rebuilding
  import opened HashTables

  ghost predicate NoneLiveIn<K, V>(s: Slots<K, V>, lo: nat, hi: nat) {
    forall i :: lo <= i < hi && i < |s| ==> !s[i].IsLive()
  }

  /** ModIterator: removal and rekeying while iterating; rehashing waits for the end of the session. */
  class ModIterator<K(==), V> {
    const tab: HashTable<K, V>
    var cur: nat
    var rekeyed: bool
    var removed: bool

    /** The entries fit, but until the session ends rekeying may have used up the free slots. */
    ghost predicate InSession()
      reads this, tab, tab.table
    {
      && tab.Consistent()
      && tab.EntriesFit()
      && (!rekeyed ==> tab.LoadOk())
      && cur <= tab.Capacity()
    }

    predicate Done()
      requires tab.ShiftOk()
      reads this, tab
    {
      cur == tab.Capacity()
    }

    /** The iterator stands on an entry that is still there. */
    ghost predicate OnEntry()
      requires tab.Consistent()
      reads this, tab, tab.table
    {
      tab.table != null && cur < tab.table.Length && tab.table[cur].IsLive()
    }

    constructor (tab: HashTable<K, V>)
      requires tab.Valid()
      ensures this.tab == tab && InSession() && !rekeyed && !removed
      ensures Done() || OnEntry()
      ensures NoneLiveIn(tab.Slots(), 0, cur)
    {
      hide StructOk, LiveSet, RemovedSet, Contents, ProberFor, PreparedBy, PrepareHash;
      this.tab := tab;
      cur := 0;
      rekeyed := false;
      removed := false;
      new;
      Settle();
    }

    /** Moves on to the first live slot at or after cur. */
    method Settle()
      requires InSession()
      modifies this`cur
      ensures InSession() && old(cur) <= cur && (Done() || OnEntry())
      ensures NoneLiveIn(tab.Slots(), old(cur), cur)
    {
      hide StructOk, LiveSet, RemovedSet, Contents, ProberFor, PreparedBy, PrepareHash;
      while cur < tab.Capacity() && !tab.table[cur].IsLive()
        invariant old(cur) <= cur <= tab.Capacity()
        invariant NoneLiveIn(tab.Slots(), old(cur), cur)
        decreases tab.Capacity() - cur
      {
        cur := cur + 1;
      }
    }

    method Next()
      requires InSession() && !Done()
      modifies this`cur
      ensures InSession() && old(cur) < cur && (Done() || OnEntry())
      ensures NoneLiveIn(tab.Slots(), old(cur) + 1, cur)
    {
      hide StructOk, LiveSet, RemovedSet, Contents, ProberFor, PreparedBy, PrepareHash;
      cur := cur + 1;
      Settle();
    }

    method Remove()
      requires InSession() && OnEntry()
      modifies this`removed, tab`entryCount, tab`removedCount, tab.table
      ensures InSession() && removed
      ensures tab.Map() == old(tab.Map()) - {old(tab.table[cur].entry.value.key)}
      ensures tab.Slots() == old(tab.Slots())[cur := Vacated(old(tab.table[cur]))]
    {
      hide StructOk, LiveSet, RemovedSet, Contents, ProberFor, PreparedBy, PrepareHash;
      tab.RemoveSlot(cur);
      removed := true;
    }

    /** Re-inserts the current entry under a new key that no other entry has. */
    method Rekey(newKey: K)
      requires InSession() && OnEntry()
      requires newKey !in tab.Map() - {tab.table[cur].entry.value.key}
      modifies this`rekeyed, tab`entryCount, tab`removedCount, tab.table
      ensures InSession() && rekeyed
      ensures
        var key := old(tab.table[cur].entry.value.key);
        key in old(tab.Map()) && tab.Map() == (old(tab.Map()) - {key})[newKey := old(tab.Map())[key]]
      ensures OthersStay(old(tab.Slots()), tab.Slots(), cur)
    {
      hide StructOk, LiveSet, RemovedSet, Contents, ProberFor, PreparedBy, PrepareHash;
      tab.RekeyWithoutRehash(cur, newKey);
      rekeyed := true;
    }

    /** The destructor: restores the load bound even if both allocations fail, and never changes the map. */
    method Finish(rehashAllocOk: bool, compactAllocOk: bool)
      requires InSession()
      modifies tab, tab.table
      ensures tab.Valid() && tab.Map() == old(tab.Map())
      ensures removed && compactAllocOk && tab.Map() != map[] ==> tab.Capacity() == BestCapacity(|tab.Map()|)
      ensures !removed && !rekeyed ==> unchanged(tab) && tab.Slots() == old(tab.Slots())
    {
      hide StructOk, LiveSet, RemovedSet, Contents, ProberFor, PreparedBy, PrepareHash;
      if rekeyed {
        tab.gen := NextGen(tab.gen);
        tab.InfallibleRehashIfOverloaded(rehashAllocOk);
      }
      if removed {
        tab.Compact(compactAllocOk);
      }
    }
  }

  /** The entries of the live slots before index n, in slot order. */
  ghost function EntriesBefore<K, V>(s: Slots<K, V>, n: nat): seq<Entry<K, V>>
    requires n <= |s|
  {
    if n == 0 then []
    else EntriesBefore(s, n - 1) + (if s[n - 1].entry.Some? then [s[n - 1].entry.value] else [])
  }

  lemma {:induction false} EntriesSkip<K, V>(s: Slots<K, V>, m: nat, n: nat)
    requires m <= n <= |s| && LiveIffPresent(s)
    requires NoneLiveIn(s, m, n)
    ensures EntriesBefore(s, m) == EntriesBefore(s, n)
    decreases n
  {
    if m < n {
      EntriesSkip(s, m, n - 1);
    }
  }

  /** Slot order lists every binding exactly once. */
  lemma {:induction false} EntriesCount<K, V>(s: Slots<K, V>, n: nat)
    requires n <= |s| && LiveIffPresent(s) && UniqueKeys(s)
    ensures |EntriesBefore(s, n)| == |LiveSet(s[..n])|
  {
    hide LiveSet, Contents, UniqueKeys;
    if n == 0 {
      NoSlots(s[..n]);
    } else {
      EntriesCount(s, n - 1);
      PrefixStep(s, n - 1);
    }
  }

  lemma {:induction false} EntriesAreContents<K, V>(s: Slots<K, V>, n: nat, k: K, v: V)
    requires n <= |s| && LiveIffPresent(s) && UniqueKeys(s)
    ensures UniqueKeys(s[..n])
    ensures Entry(k, v) in EntriesBefore(s, n) <==> k in Contents(s[..n]) && Contents(s[..n])[k] == v
  {
    hide LiveSet, Contents;
    if n == 0 {
      NoSlots(s[..n]);
    } else {
      EntriesAreContents(s, n - 1, k, v);
      PrefixStep(s, n - 1);
      if s[n - 1].IsLive() && k == s[n - 1].entry.value.key {
        assert s[n - 1].entry.value == Entry(k, s[n - 1].entry.value.value);
      }
    }
  }

  lemma EntriesOfTable<K, V>(s: Slots<K, V>)
    requires LiveIffPresent(s) && UniqueKeys(s)
    ensures |EntriesBefore(s, |s|)| == |Contents(s)|
    ensures forall k, v :: Entry(k, v) in EntriesBefore(s, |s|) <==> k in Contents(s) && Contents(s)[k] == v
  {
    hide LiveSet, Contents;
    assert s[..|s|] == s;
    EntriesCount(s, |s|);
    LiveCountIsMapSize(s);
    forall k, v
      ensures Entry(k, v) in EntriesBefore(s, |s|) <==> k in Contents(s) && Contents(s)[k] == v
    {
      EntriesAreContents(s, |s|, k, v);
    }
  }

  lemma StructIsPresent<K, V>(hashOf: K -> HashNumber, s: Slots<K, V>, probe: Prober)
    requires StructOk(hashOf, s, probe)
    ensures LiveIffPresent(s) && UniqueKeys(s)
  {
  }

  /** A loop over iter(): visits every binding of the map exactly once. */
  method ListEntries<K(==), V(==)>(tab: HashTable<K, V>) returns (entries: seq<Entry<K, V>>)
    requires tab.Valid()
    ensures |entries| == |tab.Map()|
    ensures forall k, v :: Entry(k, v) in entries <==> k in tab.Map() && tab.Map()[k] == v
  {
    hide StructOk, LiveSet, RemovedSet, Contents, ProberFor, PreparedBy, PrepareHash;
    ghost var s := tab.Slots();
    if tab.table != null {
      StructIsPresent(tab.HashOf(), s, ProberFor(tab.Log2()));
    }
    var iter := new ModIterator(tab);
    entries := [];
    EntriesSkip(s, 0, iter.cur);
    while !iter.Done()
      invariant iter.InSession() && iter.tab == tab && tab.Slots() == s && (iter.Done() || iter.OnEntry())
      invariant entries == EntriesBefore(s, iter.cur)
      invariant iter.tab.table == tab.table
      decreases tab.Capacity() - iter.cur
    {
      ghost var here := iter.cur;
      entries := entries + [tab.table[iter.cur].entry.value];
      iter.Next();
      EntriesSkip(s, here + 1, iter.cur);
    }
    if tab.table != null {
      EntriesOfTable(s);
    }
  }

  /** A whole removal session: exactly the bindings that fail the test go. */
  method RetainIf<K(==), V>(tab: HashTable<K, V>, keep: (K, V) -> bool, allocOk: bool)
    requires tab.Valid()
    modifies tab, tab.table
    ensures tab.Valid()
    ensures tab.Map() == map k | k in old(tab.Map()) && keep(k, old(tab.Map())[k]) :: old(tab.Map())[k]
  {
    hide StructOk, LiveSet, RemovedSet, Contents, ProberFor, PreparedBy, PrepareHash, KeptBefore;
    ghost var m := tab.Map();
    var iter := new ModIterator(tab);
    KeptNone(tab.Slots(), keep);
    KeptSkip(tab.Slots(), keep, 0, iter.cur);
    while !iter.Done()
      invariant iter.InSession() && iter.tab == tab && !iter.rekeyed && (iter.Done() || iter.OnEntry())
      invariant tab.table == old(tab.table) && tab.hashShift == old(tab.hashShift)
      invariant Retained(m, tab.Map(), keep)
      invariant KeptBefore(tab.Slots(), keep, iter.cur)
      decreases tab.Capacity() - iter.cur
    {
      RetainOne(iter, keep, m);
    }
    AllKept(tab, keep);
    iter.Finish(allocOk, allocOk);
  }

  /** One round of the loop. */
  method RetainOne<K(==), V>(iter: ModIterator<K, V>, keep: (K, V) -> bool, ghost m: map<K, V>)
    requires iter.InSession() && !iter.rekeyed && !iter.Done() && iter.OnEntry()
    requires Retained(m, iter.tab.Map(), keep) && KeptBefore(iter.tab.Slots(), keep, iter.cur)
    modifies iter`cur, iter`removed, iter.tab`entryCount, iter.tab`removedCount, iter.tab.table
    ensures iter.InSession() && (iter.Done() || iter.OnEntry()) && old(iter.cur) < iter.cur
    ensures Retained(m, iter.tab.Map(), keep) && KeptBefore(iter.tab.Slots(), keep, iter.cur)
  {
    hide StructOk, LiveSet, RemovedSet, Contents, ProberFor, PreparedBy, PrepareHash, KeptBefore;
    var tab := iter.tab;
    ghost var here, s := iter.cur, tab.Slots();
    LiveBinding(tab.HashOf(), s, ProberFor(tab.Log2()), here);
    var entry := tab.table[iter.cur].entry.value;
    if !keep(entry.key, entry.value) {
      iter.Remove();
    }
    KeptStep(s, tab.Slots(), keep, here);
    ghost var s' := tab.Slots();
    iter.Next();
    KeptSkip(s', keep, here + 1, iter.cur);
  }

  /** m' is m without some bindings that fail the test. */
  ghost predicate Retained<K, V>(m: map<K, V>, m': map<K, V>, keep: (K, V) -> bool) {
    && (forall k :: k in m' ==> k in m && m'[k] == m[k])
    && (forall k :: k in m && keep(k, m[k]) ==> k in m')
  }

  ghost predicate KeptBefore<K, V>(s: Slots<K, V>, keep: (K, V) -> bool, n: nat) {
    forall i :: 0 <= i < n && i < |s| && s[i].IsLive() && s[i].entry.Some? ==>
      keep(s[i].entry.value.key, s[i].entry.value.value)
  }

  lemma KeptNone<K, V>(s: Slots<K, V>, keep: (K, V) -> bool)
    ensures KeptBefore(s, keep, 0)
  {
  }

  lemma KeptSkip<K, V>(s: Slots<K, V>, keep: (K, V) -> bool, m: nat, n: nat)
    requires KeptBefore(s, keep, m) && m <= n && NoneLiveIn(s, m, n)
    ensures KeptBefore(s, keep, n)
  {
  }

  lemma KeptStep<K, V>(s: Slots<K, V>, s': Slots<K, V>, keep: (K, V) -> bool, n: nat)
    requires KeptBefore(s, keep, n) && n < |s| && s[n].entry.Some?
    requires s' == if keep(s[n].entry.value.key, s[n].entry.value.value) then s else s[n := Vacated(s[n])]
    ensures KeptBefore(s', keep, n + 1)
  {
  }

  lemma AllKept<K, V>(tab: HashTable<K, V>, keep: (K, V) -> bool)
    requires tab.Consistent() && KeptBefore(tab.Slots(), keep, tab.Capacity())
    ensures forall k :: k in tab.Map() ==> keep(k, tab.Map()[k])
  {
    if tab.table != null {
      var s := tab.Slots();
      forall k | k in tab.Map()
        ensures keep(k, tab.Map()[k])
      {
        var i := ContentsHas(s, k);
        ContentsAt(s, i);
      }
    }
  }
}
