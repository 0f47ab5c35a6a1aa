/** Whole sessions of the mutable iterator of mfbt/HashTable.h: removing and rekeying in any order. */
module HashSessions {
  import opened Wrappers
  import opened DoubleHashing
  import opened HashSlots
  import opened HashTables
  import opened HashIterators

  /** What a client does with the entry the iterator stands on. */
  datatype Edit<K> = Keep | Drop | Move(newKey: K)

  datatype Visit<K> = Visit(key: K, edit: Edit<K>)

  function AfterVisit<K, V>(m: map<K, V>, visit: Visit<K>): map<K, V> {
    match visit.edit
    case Keep => m
    case Drop => m - {visit.key}
    case Move(newKey) => if visit.key in m then (m - {visit.key})[newKey := m[visit.key]] else m
  }

  /** The map after a whole session. */
  function AfterVisits<K, V>(m: map<K, V>, log: seq<Visit<K>>): map<K, V> {
    if log == [] then m else AfterVisit(AfterVisits(m, log[..|log| - 1]), log[|log| - 1])
  }

  /** The client's wish, unless it is a new key that another entry has: then the entry is kept. */
  function Granted<K, V>(m: map<K, V>, key: K, wish: Edit<K>): Edit<K> {
    if wish.Move? && wish.newKey in m.Keys - {key} then Keep else wish
  }

  /** The wish for the n-th entry visited. */
  type Client<!K, !V> = (nat, K, V) -> Edit<K>

  /** log is a session of that client on m. */
  ghost predicate Follows<K, V>(client: Client<K, V>, m: map<K, V>, log: seq<Visit<K>>) {
    log == [] ||
    var n := |log| - 1;
    var before := AfterVisits(m, log[..n]);
    && Follows(client, m, log[..n])
    && log[n].key in before
    && log[n].edit == Granted(before, log[n].key, client(n, log[n].key, before[log[n].key]))
  }

  lemma FollowsOn<K, V>(client: Client<K, V>, m: map<K, V>, log: seq<Visit<K>>, visit: Visit<K>)
    requires Follows(client, m, log) && visit.key in AfterVisits(m, log)
    requires var before := AfterVisits(m, log);
      visit.edit == Granted(before, visit.key, client(|log|, visit.key, before[visit.key]))
    ensures Follows(client, m, log + [visit])
    ensures AfterVisits(m, log + [visit]) == AfterVisit(AfterVisits(m, log), visit)
  {
    hide Granted, AfterVisit;
    assert (log + [visit])[..|log|] == log;
  }

  ghost predicate Visited<K>(log: seq<Visit<K>>, key: K) {
    exists i :: 0 <= i < |log| && log[i].key == key
  }

  /** Each of the entries there were at first has been visited, or still lies ahead. */
  ghost predicate Awaiting<K, V>(s0: Slots<K, V>, s: Slots<K, V>, log: seq<Visit<K>>, cur: nat) {
    |s| == |s0| && forall i :: 0 <= i < |s0| && s0[i].IsLive() && s0[i].entry.Some? ==>
      Visited(log, s0[i].entry.value.key) || (cur <= i && s[i].IsLive() && s[i].entry == s0[i].entry)
  }

  lemma AwaitingSkip<K, V>(s0: Slots<K, V>, s: Slots<K, V>, log: seq<Visit<K>>, m: nat, n: nat)
    requires Awaiting(s0, s, log, m) && m <= n && NoneLiveIn(s, m, n)
    ensures Awaiting(s0, s, log, n)
  {
  }

  lemma AwaitingStep<K, V>(s0: Slots<K, V>, s: Slots<K, V>, s': Slots<K, V>, log: seq<Visit<K>>, n: nat,
                           visit: Visit<K>)
    requires Awaiting(s0, s, log, n) && OthersStay(s, s', n) && n < |s|
    requires s[n].entry.Some? && s[n].entry.value.key == visit.key
    ensures Awaiting(s0, s', log + [visit], n + 1)
  {
    var log' := log + [visit];
    assert log'[|log|].key == visit.key;
    forall i | 0 <= i < |s0| && s0[i].IsLive() && s0[i].entry.Some?
      ensures Visited(log', s0[i].entry.value.key) || (n + 1 <= i && s'[i].IsLive() && s'[i].entry == s0[i].entry)
    {
      if Visited(log, s0[i].entry.value.key) {
        var k :| 0 <= k < |log| && log[k].key == s0[i].entry.value.key;
        assert log'[k].key == s0[i].entry.value.key;
      }
    }
  }

  /** Every binding of m is in a live slot. */
  ghost predicate Covers<K, V>(s: Slots<K, V>, m: map<K, V>) {
    forall k :: k in m ==> exists i :: 0 <= i < |s| && s[i].IsLive() && s[i].entry.Some? && s[i].entry.value.key == k
  }

  lemma TableCovers<K, V>(tab: HashTable<K, V>)
    requires tab.Consistent()
    ensures Covers(tab.Slots(), tab.Map())
  {
    if tab.table != null {
      var s := tab.Slots();
      forall k | k in tab.Map()
        ensures exists i :: 0 <= i < |s| && s[i].IsLive() && s[i].entry.Some? && s[i].entry.value.key == k
      {
        var i := ContentsHas(s, k);
        ContentsAt(s, i);
      }
    }
  }

  lemma AllVisited<K, V>(m: map<K, V>, s0: Slots<K, V>, s: Slots<K, V>, log: seq<Visit<K>>)
    requires Covers(s0, m) && Awaiting(s0, s, log, |s|)
    ensures forall k :: k in m ==> Visited(log, k)
  {
  }

  /** One visit: the edit is carried out through the iterator. */
  method Apply<K(==), V>(iter: ModIterator<K, V>, edit: Edit<K>)
    requires iter.InSession() && iter.OnEntry()
    requires edit.Move? ==> edit.newKey !in iter.tab.Map() - {iter.tab.table[iter.cur].entry.value.key}
    modifies iter`removed, iter`rekeyed, iter.tab`entryCount, iter.tab`removedCount, iter.tab.table
    ensures iter.InSession()
    ensures var key := old(iter.tab.table[iter.cur].entry.value.key);
      key in old(iter.tab.Map()) && iter.tab.Map() == AfterVisit(old(iter.tab.Map()), Visit(key, edit))
    ensures OthersStay(old(iter.tab.Slots()), iter.tab.Slots(), iter.cur)
  {
    hide StructOk, LiveSet, RemovedSet, Contents, ProberFor, PreparedBy, PrepareHash;
    LiveBinding(iter.tab.HashOf(), iter.tab.Slots(), ProberFor(iter.tab.Log2()), iter.cur);
    match edit {
      case Keep =>
      case Drop => iter.Remove();
      case Move(newKey) => iter.Rekey(newKey);
    }
  }

  /** The loop invariant: where the session stands, after the visits in log. */
  ghost predicate Under<K, V>(iter: ModIterator<K, V>, keys: set<K>, client: Client<K, V>, m: map<K, V>,
                              s0: Slots<K, V>, log: seq<Visit<K>>)
    reads iter, iter.tab, iter.tab.table
  {
    && iter.InSession() && (iter.Done() || iter.OnEntry())
    && keys == iter.tab.Map().Keys
    && Follows(client, m, log) && iter.tab.Map() == AfterVisits(m, log)
    && Awaiting(s0, iter.tab.Slots(), log, iter.cur)
  }

  /** One turn of the loop. */
  method VisitOne<K(==), V>(iter: ModIterator<K, V>, keys: set<K>, client: Client<K, V>, log: seq<Visit<K>>,
                            ghost m: map<K, V>, ghost s0: Slots<K, V>)
    returns (keys': set<K>, log': seq<Visit<K>>)
    requires Under(iter, keys, client, m, s0, log) && !iter.Done()
    modifies iter`cur, iter`removed, iter`rekeyed, iter.tab`entryCount, iter.tab`removedCount, iter.tab.table
    ensures Under(iter, keys', client, m, s0, log') && old(iter.cur) < iter.cur
  {
    hide StructOk, LiveSet, RemovedSet, Contents, ProberFor, PreparedBy, PrepareHash, Awaiting, Follows, OthersStay,
      AfterVisits;
    ghost var here, s := iter.cur, iter.tab.Slots();
    LiveBinding(iter.tab.HashOf(), s, ProberFor(iter.tab.Log2()), here);
    var entry := iter.tab.table[iter.cur].entry.value;
    var wish := client(|log|, entry.key, entry.value);
    var edit := if wish.Move? && wish.newKey in keys - {entry.key} then Keep else wish;
    var visit := Visit(entry.key, edit);
    FollowsOn(client, m, log, visit);
    Apply(iter, edit);
    keys' := KeysAfter(keys, visit);
    log' := log + [visit];
    ghost var s' := iter.tab.Slots();
    AwaitingStep(s0, s, s', log, here, visit);
    iter.Next();
    AwaitingSkip(s0, s', log', here + 1, iter.cur);
  }

  /**
   * A session over all entries: whatever the client does to them, and whatever the allocator does at the end, the map
   * is the fold of the edits, each entry there was at first has been visited, and the load bound holds again.
   */
  method Session<K(==), V(==)>(tab: HashTable<K, V>, client: Client<K, V>, rehashAllocOk: bool, compactAllocOk: bool)
    returns (log: seq<Visit<K>>)
    requires tab.Valid()
    modifies tab, tab.table
    ensures tab.Valid()
    ensures Follows(client, old(tab.Map()), log) && tab.Map() == AfterVisits(old(tab.Map()), log)
    ensures forall k :: k in old(tab.Map()) ==> Visited(log, k)
  {
    hide StructOk, LiveSet, RemovedSet, Contents, ProberFor, PreparedBy, PrepareHash, Awaiting, Follows, Covers,
      AfterVisits;
    ghost var m, s0 := tab.Map(), tab.Slots();
    TableCovers(tab);
    var entries := ListEntries(tab);
    var keys := set e | e in entries :: e.key;
    KeysListed(m, entries);
    var iter := new ModIterator(tab);
    log := [];
    SessionStarts(client, m, s0, iter.cur);
    while !iter.Done()
      invariant iter.tab == tab && Under(iter, keys, client, m, s0, log)
      invariant tab.table == old(tab.table) && tab.hashShift == old(tab.hashShift)
      decreases tab.Capacity() - iter.cur
    {
      keys, log := VisitOne(iter, keys, client, log, m, s0);
    }
    AllVisited(m, s0, tab.Slots(), log);
    iter.Finish(rehashAllocOk, compactAllocOk);
  }

  function KeysAfter<K(==)>(keys: set<K>, visit: Visit<K>): set<K> {
    match visit.edit
    case Keep => keys
    case Drop => keys - {visit.key}
    case Move(newKey) => keys - {visit.key} + {newKey}
  }

  lemma KeysListed<K, V>(m: map<K, V>, entries: seq<Entry<K, V>>)
    requires forall k, v :: Entry(k, v) in entries <==> k in m && m[k] == v
    ensures (set e | e in entries :: e.key) == m.Keys
  {
    forall k | k in m ensures exists e :: e in entries && e.key == k {
      assert Entry(k, m[k]) in entries;
    }
    forall e | e in entries ensures e.key in m {
      assert Entry(e.key, e.value) in entries;
    }
  }

  lemma SessionStarts<K, V>(client: Client<K, V>, m: map<K, V>, s0: Slots<K, V>, cur: nat)
    requires NoneLiveIn(s0, 0, cur)
    ensures Follows(client, m, []) && AfterVisits(m, []) == m && Awaiting(s0, s0, [], cur)
  {
  }
}
