/** Every run of the public operations of a hash map, against a mathematical map. */
module HashRuns {
  import opened Wrappers
  import opened DoubleHashing
  import opened HashSlots
  import opened HashTables
  import opened MarkedHashes
  import opened Probing
  import opened Rebuilding
  import opened TableSizing

  datatype Op<K, V> =
    | Get(key: K)
    | Put(key: K, value: V)
    | AddNew(key: K, value: V)
    | LookupForAdd(key: K)
    | RelookupOrAdd(key: K, value: V)
    | Remove(key: K)
    | RekeyAs(oldKey: K, newKey: K)
    | Reserve(len: nat)
    | Compact
    | Clear

  datatype Reply<V> = Value(value: Option<V>) | Done | Failed

  /** The map after op on m, if op was answered with reply. */
  function After<K, V>(op: Op<K, V>, reply: Reply<V>, m: map<K, V>): map<K, V> {
    if reply.Failed? then m
    else match op
      case Put(key, value) => m[key := value]
      case AddNew(key, value) => if key in m then m else m[key := value]
      case RelookupOrAdd(key, value) => if key in m then m else m[key := value]
      case Remove(key) => m - {key}
      case RekeyAs(oldKey, newKey) => if oldKey in m then (m - {oldKey})[newKey := m[oldKey]] else m
      case Clear => map[]
      case _ => m
  }

  /**
   * What a map may answer in an environment. Insertions fail only if a call into the environment did or if the
   * map holds more than 2^29 entries; a rekeying must not hit another key.
   */
  ghost predicate MayReply<K, V>(op: Op<K, V>, env: Env, reply: Reply<V>, m: map<K, V>) {
    var mayFail := env != Env(true, true, true) || |m| > 0x2000_0000;
    match op
    case Get(key) => reply == Value(if key in m then Some(m[key]) else None)
    case LookupForAdd(key) =>
      if env.hashOk then reply == Value(if key in m then Some(m[key]) else None) else reply.Failed?
    case Put(_, _) => reply.Done? || (reply.Failed? && mayFail)
    case AddNew(_, _) => reply.Done? || (reply.Failed? && mayFail)
    case RelookupOrAdd(_, _) => reply.Done? || (reply.Failed? && mayFail)
    case RekeyAs(oldKey, newKey) => if newKey in m - {oldKey} then reply.Failed? else reply.Done?
    case Reserve(len) =>
      if len == 0 then reply.Done?
      else if len > 0x2000_0000 then reply.Failed?
      else reply.Done? || (reply.Failed? && !env.allocOk)
    case _ => reply.Done?
  }

  /** lookupForAdd, then add on a miss. */
  method AddIfAbsent<K(==), V>(tab: HashTable<K, V>, key: K, value: V, env: Env) returns (ok: bool)
    requires tab.Valid()
    modifies tab, tab.table
    ensures tab.Valid() && (tab.table == old(tab.table) || fresh(tab.table))
    ensures tab.Map() == if ok && key !in old(tab.Map()) then old(tab.Map())[key := value] else old(tab.Map())
    ensures env == Env(true, true, true) && |old(tab.Map())| <= 0x2000_0000 ==> ok
  {
    hide StructOk, LiveSet, RemovedSet, Contents, ProberFor, PreparedBy, PrepareHash;
    tab.Counts();
    var p := tab.LookupForAddPtr(key, env);
    if tab.Found(Ptr(p.slot)) {
      return true;
    }
    ok, p := tab.Add(p, key, value, env);
  }

  /** The AddPtrs a caller holds on to, however old; those whose key could not be hashed are thrown away. */
  type Pointers<!K> = map<K, AddPtr>

  ghost predicate PointersOk<K, V>(tab: HashTable<K, V>, pointers: Pointers<K>) {
    forall k :: k in pointers ==> HashesTo(tab.HashOf(), pointers[k].keyHash, k)
  }

  /** lookupForAdd, the result of which is kept for later. */
  method LookupAndKeep<K(==), V>(tab: HashTable<K, V>, key: K, env: Env, pointers: Pointers<K>)
    returns (reply: Reply<V>, pointers': Pointers<K>)
    requires tab.Valid() && PointersOk(tab, pointers)
    modifies tab, tab.table
    ensures tab.Valid() && tab.Map() == old(tab.Map()) && tab.table == old(tab.table)
    ensures PointersOk(tab, pointers') && MayReply(LookupForAdd(key), env, reply, old(tab.Map()))
  {
    hide StructOk, LiveSet, RemovedSet, Contents, ProberFor, PreparedBy, PrepareHash;
    var p := tab.LookupForAddPtr(key, env);
    if !env.hashOk {
      return Failed, pointers;
    }
    pointers' := pointers[key := p];
    reply := Value(None);
    if tab.Found(Ptr(p.slot)) {
      LiveBinding(tab.HashOf(), tab.Slots(), ProberFor(tab.Log2()), p.slot.value);
      reply := Value(Some(tab.table[p.slot.value].entry.value.value));
    }
  }

  /** Whether a kept pointer may be used again. */
  method Reusable<K(==), V>(tab: HashTable<K, V>, p: AddPtr, key: K) returns (r: bool)
    requires tab.Valid()
    ensures r <==> tab.MayReuse(p, key)
  {
    if !HasCollisionBit(p.keyHash) {
      return true;
    }
    var present := tab.Get(key);
    r := present.None? && tab.Log2() < SAME_PATH_LOG2;
  }

  /**
   * relookupOrAdd with the pointer kept for the key, if it may be used again, and with a new one otherwise. What the
   * call makes of the pointer is kept.
   */
  method RelookupKept<K(==), V>(tab: HashTable<K, V>, key: K, value: V, env: Env, pointers: Pointers<K>)
    returns (ok: bool, pointers': Pointers<K>)
    requires tab.Valid() && PointersOk(tab, pointers)
    modifies tab, tab.table
    ensures tab.Valid() && (tab.table == old(tab.table) || fresh(tab.table)) && PointersOk(tab, pointers')
    ensures tab.Map() == if ok && key !in old(tab.Map()) then old(tab.Map())[key := value] else old(tab.Map())
    ensures env == Env(true, true, true) && |old(tab.Map())| <= 0x2000_0000 ==> ok
  {
    hide StructOk, LiveSet, RemovedSet, Contents, ProberFor, PreparedBy, PrepareHash, HashTable.Homed;
    tab.Counts();
    var again := false;
    if key in pointers {
      again := Reusable(tab, pointers[key], key);
    }
    var p;
    if again {
      p := pointers[key];
    } else {
      p := tab.LookupForAddPtr(key, env);
    }
    ok, p := tab.RelookupOrAdd(p, key, value, env);
    pointers' := if IsLiveHash(p.keyHash) then pointers[key := p] else pointers;
  }

  /** rekeyAs by a caller that first makes sure the new key is not in use. */
  method CheckedRekey<K(==), V>(tab: HashTable<K, V>, oldKey: K, newKey: K, env: Env) returns (ok: bool)
    requires tab.Valid()
    modifies tab, tab.table
    ensures tab.Valid() && (tab.table == old(tab.table) || fresh(tab.table))
    ensures ok <==> newKey !in old(tab.Map()) - {oldKey}
    ensures tab.Map() == After(RekeyAs(oldKey, newKey), if ok then Done else Failed, old(tab.Map()))
  {
    hide HashTable.Consistent, HashTable.Map, HashTable.LoadOk;
    var clash := tab.Get(newKey);
    ok := clash.None? || oldKey == newKey;
    if ok {
      var _ := tab.RekeyAs(oldKey, newKey, env.allocOk);
    }
  }

  method Insert<K(==), V>(tab: HashTable<K, V>, op: Op<K, V>, env: Env, pointers: Pointers<K>)
    returns (reply: Reply<V>, pointers': Pointers<K>)
    requires tab.Valid() && PointersOk(tab, pointers) && (op.Put? || op.AddNew? || op.RelookupOrAdd?)
    modifies tab, tab.table
    ensures tab.Valid() && (tab.table == old(tab.table) || fresh(tab.table))
    ensures tab.Map() == After(op, reply, old(tab.Map()))
    ensures MayReply(op, env, reply, old(tab.Map())) && PointersOk(tab, pointers')
  {
    hide HashTable.Consistent, HashTable.Map, HashTable.LoadOk;
    tab.Counts();
    pointers' := pointers;
    var ok;
    match op {
      case Put(key, value) =>
        ok := tab.Put(key, value, env);
      case AddNew(key, value) =>
        ok := AddIfAbsent(tab, key, value, env);
      case RelookupOrAdd(key, value) =>
        ok, pointers' := RelookupKept(tab, key, value, env, pointers);
    }
    reply := if ok then Done else Failed;
  }

  function MapOf<K, V>(entries: seq<Entry<K, V>>): map<K, V> {
    if entries == [] then map[]
    else MapOf(entries[..|entries| - 1])[entries[|entries| - 1].key := entries[|entries| - 1].value]
  }

  lemma {:induction false} MapOfKeys<K, V>(entries: seq<Entry<K, V>>, k: K)
    requires k in MapOf(entries)
    ensures exists i :: 0 <= i < |entries| && entries[i].key == k
  {
    var n := |entries| - 1;
    if entries[n].key != k {
      MapOfKeys(entries[..n], k);
      var i :| 0 <= i < n && entries[..n][i].key == k;
      assert entries[i].key == k;
    }
  }

  /**
   * Reserving for all entries first makes putNewInfallible safe for each of them, on an empty map whose table
   * holds no tombstones; with tombstones about, reserve would count only capacity.
   */
  method Fill<K(==), V>(tab: HashTable<K, V>, entries: seq<Entry<K, V>>, allocOk: bool) returns (ok: bool)
    requires tab.Valid() && tab.Map() == map[] && tab.removedCount == 0
    requires forall i, j :: 0 <= i < j < |entries| ==> entries[i].key != entries[j].key
    modifies tab, tab.table
    ensures tab.Valid() && tab.Map() == if ok then MapOf(entries) else map[]
    ensures tab.table == old(tab.table) || fresh(tab.table)
    ensures allocOk && |entries| <= 0x2000_0000 ==> ok
  {
    hide HashTable.Valid, HashTable.Consistent, HashTable.Map;
    ValidMeans(tab);
    ok := tab.Reserve(|entries|, allocOk);
    ValidMeans(tab);
    assert entries[..0] == [];
    if !ok {
      return;
    }
    for i := 0 to |entries|
      invariant tab.Valid() && tab.Consistent() && tab.Map() == MapOf(entries[..i])
      invariant tab.entryCount == i && tab.removedCount == 0
      invariant tab.ShiftOk() && (0 < |entries| ==> Holds(tab.Capacity(), |entries|))
      invariant tab.table == old(tab.table) || fresh(tab.table)
    {
      if entries[i].key in MapOf(entries[..i]) {
        MapOfKeys(entries[..i], entries[i].key);
        assert false;
      }
      assert entries[..i + 1][..i] == entries[..i];
      ValidMeans(tab);
      tab.PutNewInfallible(entries[i].key, entries[i].value);
    }
    assert entries[..|entries|] == entries;
  }

  lemma ValidMeans<K, V>(tab: HashTable<K, V>)
    requires tab.Valid()
    ensures tab.Consistent() && tab.ShiftOk() && tab.entryCount == |tab.Map()|
    ensures tab.table != null ==> tab.Capacity() == tab.table.Length
  {
    tab.Counts();
  }

  /** The operations that need no lookup for insertion. */
  method Change<K(==), V>(tab: HashTable<K, V>, op: Op<K, V>, env: Env) returns (reply: Reply<V>)
    requires tab.Valid() && (op.Remove? || op.RekeyAs? || op.Reserve? || op.Compact? || op.Clear?)
    modifies tab, tab.table
    ensures tab.Valid() && (tab.table == null || tab.table == old(tab.table) || fresh(tab.table))
    ensures tab.Map() == After(op, reply, old(tab.Map()))
    ensures MayReply(op, env, reply, old(tab.Map()))
  {
    hide HashTable.Consistent, HashTable.Map, HashTable.LoadOk, BestCapacity, TakenOut;
    var ok := true;
    match op {
      case Remove(key) =>
        tab.RemoveKey(key, env.allocOk);
      case RekeyAs(oldKey, newKey) =>
        ok := CheckedRekey(tab, oldKey, newKey, env);
      case Reserve(len) =>
        ok := tab.Reserve(len, env.allocOk);
      case Compact =>
        tab.Compact(env.allocOk);
      case Clear =>
        tab.Clear();
    }
    reply := if ok then Done else Failed;
  }

  method Step<K(==), V>(tab: HashTable<K, V>, op: Op<K, V>, env: Env, pointers: Pointers<K>)
    returns (reply: Reply<V>, pointers': Pointers<K>)
    requires tab.Valid() && PointersOk(tab, pointers)
    modifies tab, tab.table
    ensures tab.Valid() && (tab.table == null || tab.table == old(tab.table) || fresh(tab.table))
    ensures tab.Map() == After(op, reply, old(tab.Map()))
    ensures MayReply(op, env, reply, old(tab.Map())) && PointersOk(tab, pointers')
  {
    hide HashTable.Consistent, HashTable.Map, HashTable.LoadOk, PointersOk;
    pointers' := pointers;
    match op {
      case Get(key) =>
        var value := tab.Get(key);
        reply := Value(value);
      case LookupForAdd(key) =>
        reply, pointers' := LookupAndKeep(tab, key, env, pointers);
      case Put(_, _) =>
        reply, pointers' := Insert(tab, op, env, pointers);
      case AddNew(_, _) =>
        reply, pointers' := Insert(tab, op, env, pointers);
      case RelookupOrAdd(_, _) =>
        reply, pointers' := Insert(tab, op, env, pointers);
      case _ =>
        reply := Change(tab, op, env);
    }
  }

  /** The map after a whole run. */
  function Final<K, V>(ops: seq<Op<K, V>>, replies: seq<Reply<V>>, m: map<K, V>): map<K, V>
    requires |ops| == |replies|
  {
    if ops == [] then m
    else After(ops[|ops| - 1], replies[|ops| - 1], Final(ops[..|ops| - 1], replies[..|ops| - 1], m))
  }

  /** Every reply of a run fits the map at that point. */
  ghost predicate Explained<K, V>(ops: seq<Op<K, V>>, envs: seq<Env>, replies: seq<Reply<V>>, m: map<K, V>)
    requires |ops| == |replies| == |envs|
  {
    ops == [] ||
    var n := |ops| - 1;
    && Explained(ops[..n], envs[..n], replies[..n], m)
    && MayReply(ops[n], envs[n], replies[n], Final(ops[..n], replies[..n], m))
  }

  /** Any run over a table, whatever the allocator does, is a run over the map it stands for. */
  method Run<K(==), V>(tab: HashTable<K, V>, ops: seq<Op<K, V>>, envs: seq<Env>) returns (replies: seq<Reply<V>>)
    requires tab.Valid() && |envs| == |ops|
    modifies tab, tab.table
    ensures tab.Valid() && |replies| == |ops|
    ensures tab.Map() == Final(ops, replies, old(tab.Map()))
    ensures Explained(ops, envs, replies, old(tab.Map()))
    ensures tab.entryCount == |tab.Map()|
  {
    hide HashTable.Consistent, HashTable.Map, HashTable.LoadOk, After, MayReply;
    replies := [];
    var pointers: Pointers<K> := map[];
    ghost var m := tab.Map();
    for i := 0 to |ops|
      invariant tab.Valid() && |replies| == i && PointersOk(tab, pointers)
      invariant tab.table == null || tab.table == old(tab.table) || fresh(tab.table)
      invariant tab.Map() == Final(ops[..i], replies, m)
      invariant Explained(ops[..i], envs[..i], replies, m)
    {
      ghost var before := replies;
      var reply;
      reply, pointers := Step(tab, ops[i], envs[i], pointers);
      replies := replies + [reply];
      RunGrows(ops, envs, before, reply, m, i);
    }
    assert ops[..|ops|] == ops && envs[..|ops|] == envs;
    tab.Counts();
  }

  lemma RunGrows<K, V>(ops: seq<Op<K, V>>, envs: seq<Env>, replies: seq<Reply<V>>, reply: Reply<V>, m: map<K, V>,
                       i: nat)
    requires |replies| == i < |ops| == |envs| && Explained(ops[..i], envs[..i], replies, m)
    requires MayReply(ops[i], envs[i], reply, Final(ops[..i], replies, m))
    ensures Final(ops[..i + 1], replies + [reply], m) == After(ops[i], reply, Final(ops[..i], replies, m))
    ensures Explained(ops[..i + 1], envs[..i + 1], replies + [reply], m)
  {
    hide MayReply, After;
    var ops', envs', replies' := ops[..i + 1], envs[..i + 1], replies + [reply];
    assert ops'[..i] == ops[..i] && envs'[..i] == envs[..i] && replies'[..i] == replies;
  }
}
