/** mfbt/HashTable.h: the open-addressing hash table and HashMap, and its resizing policy. */
module HashTables {
  import opened Wrappers
  import opened Modular
  import opened DoubleHashing
  import opened HashSlots
  import opened TableSizing
  import opened MarkedHashes
  import opened Probing
  import opened InPlaceRehash
  import opened Rebuilding

  /** What the allocator, its OOM simulator and the hash policy answer during one call. */
  datatype Env = Env(allocOk: bool, simulatedOk: bool, hashOk: bool)

  datatype RebuildStatus = NotOverloaded | Rehashed | RehashFailed

  /** A nullable pointer to a slot. */
  datatype Ptr = Ptr(slot: Option<nat>)

  /** A Ptr that can also be used for insertion; its keyHash is not live if the key could not be hashed. */
  datatype AddPtr = AddPtr(slot: Option<nat>, keyHash: HashNumber)

  const GENERATIONS: nat := 0x100_0000_0000_0000

  function NextGen(gen: nat): nat {
    (gen + 1) % GENERATIONS
  }

  class HashTable<K(==), V> {
    const hasher: K -> HashNumber
    var gen: nat
    var hashShift: nat
    var table: array?<Slot<K, V>>
    var entryCount: nat
    var removedCount: nat

    // -------------------------------------------------------------------------------------------
    // Abstraction and invariant
    // -------------------------------------------------------------------------------------------

    predicate ShiftOk()
      reads this
    {
      HASH_BITS - MAX_LOG2 <= hashShift <= HASH_BITS - MIN_LOG2
    }

    function Log2(): (log2: nat)
      requires ShiftOk()
      reads this
    {
      HASH_BITS - hashShift
    }

    function RawCapacity(): nat
      requires ShiftOk()
      reads this
    {
      Pow2(Log2())
    }

    function Capacity(): nat
      requires ShiftOk()
      reads this
    {
      if table == null then 0 else RawCapacity()
    }

    function HashOf(): K -> HashNumber {
      PreparedBy(hasher)
    }

    /** There is storage, and it satisfies the probe-chain invariant. */
    ghost predicate TableOk()
      reads this, table
    {
      && ShiftOk()
      && table != null
      && table.Length == RawCapacity()
      && StructOk(HashOf(), table[..], ProberFor(Log2()))
    }

    /** Everything but the load bound. */
    ghost predicate Consistent()
      reads this, table
    {
      && ShiftOk()
      && (table == null ==> entryCount == 0 && removedCount == 0)
      && (table != null ==>
           && TableOk()
           && |LiveSet(table[..])| == entryCount
           && |RemovedSet(table[..])| == removedCount)
    }

    /** At most 3/4 of the slots are live. */
    ghost predicate EntriesFit()
      requires ShiftOk()
      reads this
    {
      4 * entryCount <= 3 * Capacity()
    }

    /** At most 3/4 of the slots are live or tombstones. */
    ghost predicate LoadOk()
      requires ShiftOk()
      reads this
    {
      4 * (entryCount + removedCount) <= 3 * Capacity()
    }

    ghost predicate Valid()
      reads this, table
    {
      Consistent() && LoadOk()
    }

    /** The slot array; empty while there is no storage. */
    ghost function Slots(): Slots<K, V>
      reads this, table
    {
      if table == null then [] else table[..]
    }

    /** The map this table stands for. */
    ghost function Map(): map<K, V>
      requires Consistent()
      reads this, table
    {
      if table == null then map[] else Contents(table[..])
    }

    predicate Found(p: Ptr)
      reads this, table
    {
      table != null && p.slot.Some? && p.slot.value < table.Length && table[p.slot.value].IsLive()
    }

    /** p is what a lookup of key finds in the current table. */
    ghost predicate Denotes(p: Ptr, key: K)
      requires Consistent()
      reads this, table
    {
      && (Found(p) <==> key in Map())
      && (Found(p) ==> Matches(table[p.slot.value], key))
    }

    /** The probe path of key leads to this slot. */
    ghost predicate Homed(slot: nat, key: K)
      requires ShiftOk()
      reads this, table
    {
      && table != null && slot < table.Length && ProbesInside(ProberFor(Log2()), table.Length)
      && Reachable(table[..], ProberFor(Log2()), HashOf()(key), slot)
    }

    /**
     * p is what a lookup for insertion of key returns in the current table. Once the collision bit of its hash number
     * is set, no entry is found through it.
     */
    ghost predicate DenotesForAdd(p: AddPtr, key: K)
      requires Consistent()
      reads this, table
    {
      if !IsLiveHash(p.keyHash) then p.slot.None?
      else
        && HashesTo(HashOf(), p.keyHash, key)
        && (if HasCollisionBit(p.keyHash) then !Found(Ptr(p.slot)) else Denotes(Ptr(p.slot), key))
        && (p.slot.None? <==> table == null)
        && (p.slot.Some? ==> p.slot.value < table.Length)
        && (p.slot.Some? && !Found(Ptr(p.slot)) ==>
              Reachable(table[..], ProberFor(Log2()), p.keyHash, p.slot.value))
    }

    constructor (hasher: K -> HashNumber, len: nat)
      requires len <= MAX_INIT
      ensures Valid() && Map() == map[] && table == null && this.hasher == hasher
      ensures RawCapacity() == BestCapacity(len)
    {
      BestCapacityFits(len);
      this.hasher := hasher;
      gen := 0;
      hashShift := HashShift(CeilingLog2(BestCapacity(len)));
      table := null;
      entryCount := 0;
      removedCount := 0;
    }

    /** mEntryCount is the size of the map, and every slot count fits. */
    lemma Counts()
      requires Consistent()
      ensures entryCount == |Map()|
      ensures table != null ==> entryCount + removedCount <= table.Length
      ensures table != null && LoadOk() ==> exists i :: 0 <= i < table.Length && table[i].IsFree()
      ensures table != null && entryCount < table.Length ==> exists i :: 0 <= i < table.Length && !table[i].IsLive()
    {
      hide StructOk, Contents, LiveSet, RemovedSet, ProberFor, PreparedBy, PrepareHash, Pow2;
      if table != null {
        StructCounts(HashOf(), table[..], ProberFor(Log2()));
        CountsBound(table[..]);
      }
    }

    // -------------------------------------------------------------------------------------------
    // Lookup
    // -------------------------------------------------------------------------------------------

    method Lookup(key: K) returns (p: Ptr)
      requires Valid()
      ensures Denotes(p, key)
    {
      hide StructOk, Contents, LiveSet, RemovedSet, ProberFor, PreparedBy, PrepareHash;
      Counts();
      if entryCount == 0 {
        return Ptr(None);
      }
      PreparedAt(hasher, key);
      var slot := LookupForNonAdd(table, Log2(), key, PrepareHash(hasher(key)), HashOf(), ProberFor(Log2()));
      p := Ptr(Some(slot));
    }

    /** Has, and the value if so. */
    method Get(key: K) returns (r: Option<V>)
      requires Valid()
      ensures r == if key in Map() then Some(Map()[key]) else None
    {
      var p := Lookup(key);
      if Found(p) {
        ContentsAt(table[..], p.slot.value);
        r := Some(table[p.slot.value].entry.value.value);
      } else {
        r := None;
      }
    }

    method LookupForAddSlot(key: K, keyHash: HashNumber) returns (slot: nat)
      requires Valid() && table != null && HashesTo(HashOf(), keyHash, key)
      modifies table
      ensures Valid() && Map() == old(Map()) && Marked(old(table[..]), table[..])
      ensures slot < table.Length
      ensures if HasCollisionBit(keyHash) then !table[slot].IsLive() else Denotes(Ptr(Some(slot)), key)
      ensures !table[slot].IsLive() ==>
        && Reachable(table[..], ProberFor(Log2()), keyHash, slot)
        && FirstNonLive(old(table[..]), ProberFor(Log2()), keyHash, slot)
    {
      hide StructOk, Contents, LiveSet, RemovedSet, ProberFor, PreparedBy, PrepareHash, Pow2;
      Counts();
      ghost var s := table[..];
      slot := LookupForAdd(table, Log2(), key, keyHash, HashOf(), ProberFor(Log2()));
      MarkedKeeps(HashOf(), s, table[..], ProberFor(Log2()));
    }

    method LookupForAddPtr(key: K, env: Env) returns (p: AddPtr)
      requires Valid()
      modifies table
      ensures Valid() && Map() == old(Map())
      ensures DenotesForAdd(p, key) && !HasCollisionBit(p.keyHash)
      ensures IsLiveHash(p.keyHash) <==> env.hashOk
      ensures table != null ==> Marked(old(table[..]), table[..])
      ensures p.slot.Some? && !Found(Ptr(p.slot)) ==>
        FirstNonLive(old(table[..]), ProberFor(Log2()), p.keyHash, p.slot.value)
    {
      hide StructOk, Contents, LiveSet, RemovedSet, ProberFor, PreparedBy, PrepareHash, Pow2;
      if !env.hashOk {
        return AddPtr(None, FREE_KEY);
      }
      PreparedAt(hasher, key);
      PreparedIsLive(hasher, key);
      var keyHash := PrepareHash(hasher(key));
      if table == null {
        return AddPtr(None, keyHash);
      }
      var slot := LookupForAddSlot(key, keyHash);
      p := AddPtr(Some(slot), keyHash);
    }

    // -------------------------------------------------------------------------------------------
    // Resizing
    // -------------------------------------------------------------------------------------------

    method ChangeTableSize(newCapacity: nat, allocOk: bool) returns (status: RebuildStatus)
      requires Consistent()
      requires CeilingLog2(newCapacity) >= MIN_LOG2 && newCapacity == Pow2(CeilingLog2(newCapacity))
      requires entryCount <= newCapacity
      modifies this, table
      ensures Consistent() && Map() == old(Map()) && entryCount == old(entryCount)
      ensures status == if allocOk && newCapacity <= MAX_CAPACITY then Rehashed else RehashFailed
      ensures status == RehashFailed ==>
        unchanged(this) && Slots() == old(Slots())
      ensures status == Rehashed ==>
        && fresh(table) && RawCapacity() == newCapacity && removedCount == 0 && gen == NextGen(old(gen))
        && hashShift + CeilingLog2(newCapacity) == HASH_BITS
    {
      hide StructOk, Contents, LiveSet, RemovedSet, ProberFor, PreparedBy, PrepareHash;
      var newLog2 := CeilingLog2(newCapacity);
      if newCapacity > MAX_CAPACITY {
        return RehashFailed;
      }
      if !allocOk {
        return RehashFailed;
      }
      ExponentBelowMax(newLog2);
      var oldTable := table;
      var newTable := new Slot<K, V>[newCapacity](_ => FreeSlot());
      ProbesStayInside(ProberFor(newLog2), newLog2);
      AllFreeOk(HashOf(), newTable[..], ProberFor(newLog2));
      hashShift := HashShift(newLog2);
      removedCount := 0;
      gen := NextGen(gen);
      table := newTable;
      if oldTable != null {
        MoveEntries(oldTable, newTable, newLog2, HashOf(), ProberFor(old(Log2())), ProberFor(newLog2));
      }
      status := Rehashed;
    }

    /** One more slot can be filled without a rehash. */
    predicate HasRoom()
      requires ShiftOk()
      reads this
    {
      table != null && 4 * (entryCount + removedCount + 1) <= 3 * Capacity()
    }

    /**
     * Resizes if live entries and tombstones reach 3/4 of the capacity: to the same size if a quarter of the
     * slots are tombstones, else to twice the size. Afterwards one more entry fits.
     */
    method RehashIfOverloaded(allocOk: bool) returns (status: RebuildStatus)
      requires Consistent() && EntriesFit()
      modifies this, table
      ensures Consistent() && Map() == old(Map()) && entryCount == old(entryCount)
      ensures status != Rehashed ==> unchanged(this) && Slots() == old(Slots())
      ensures status == NotOverloaded ==> table != null && 4 * (entryCount + removedCount + 1) <= 3 * Capacity()
      ensures status == Rehashed ==> fresh(table) && LoadOk() && removedCount == 0
      ensures status == Rehashed && old(LoadOk()) ==> 4 * (entryCount + 1) <= 3 * Capacity()
      ensures status == Rehashed ==>
        RawCapacity() == if 4 * old(removedCount) >= old(Capacity()) then old(RawCapacity()) else 2 * old(RawCapacity())
      ensures status == RehashFailed ==> !allocOk || 2 * entryCount > MAX_CAPACITY
      ensures old(HasRoom()) ==> status == NotOverloaded
      ensures old(hashShift) - 1 <= hashShift <= old(hashShift)
    {
      hide StructOk, Contents, LiveSet, RemovedSet, ProberFor, PreparedBy, PrepareHash, Pow2, CeilingLog2;
      CapacityIsMultipleOf4(Log2());
      Counts();
      OverloadArithmetic(Capacity(), RawCapacity(), entryCount, removedCount);
      var overloaded := entryCount + removedCount >= Capacity() * 3 / 4;
      if !overloaded {
        return NotOverloaded;
      }
      var manyRemoved := removedCount >= Capacity() / 4;
      var newCapacity := if manyRemoved then RawCapacity() else RawCapacity() * 2;
      NextSizes(Log2());
      status := ChangeTableSize(newCapacity, allocOk);
    }

    method InfallibleRehashIfOverloaded(allocOk: bool)
      requires Consistent() && EntriesFit()
      modifies this, table
      ensures Valid() && Map() == old(Map()) && entryCount == old(entryCount)
      ensures table == old(table) || fresh(table)
    {
      hide StructOk, Contents, LiveSet, RemovedSet, ProberFor, PreparedBy, PrepareHash;
      var status := RehashIfOverloaded(allocOk);
      if status == RehashFailed && table != null {
        RehashTableInPlace();
      }
    }

    method RehashTableInPlace()
      requires Consistent() && EntriesFit() && table != null
      modifies this, table
      ensures Valid() && Map() == old(Map()) && entryCount == old(entryCount)
      ensures table == old(table) && hashShift == old(hashShift) && removedCount == 0 && gen == NextGen(old(gen))
      ensures forall i :: 0 <= i < table.Length && table[i].IsLive() ==> table[i].HasCollision()
    {
      hide StructOk, Contents, LiveSet, RemovedSet, ProberFor, PreparedBy, PrepareHash;
      Counts();
      removedCount := 0;
      gen := NextGen(gen);
      RehashInPlace(table, Log2(), HashOf(), ProberFor(Log2()));
      StructCounts(HashOf(), table[..], ProberFor(Log2()));
    }

    method ShrinkIfUnderloaded(allocOk: bool)
      requires Valid()
      modifies this, table
      ensures Valid() && Map() == old(Map()) && entryCount == old(entryCount)
      ensures table == old(table) || fresh(table)
      ensures var shrinks := allocOk && MIN_CAPACITY < old(Capacity()) && 4 * old(entryCount) <= old(Capacity());
        if shrinks then 2 * Capacity() == old(Capacity()) else unchanged(this) && Slots() == old(Slots())
    {
      hide StructOk, Contents, LiveSet, RemovedSet, ProberFor, PreparedBy, PrepareHash, Pow2, CeilingLog2;
      CapacityIsMultipleOf4(Log2());
      var underloaded := Capacity() > MIN_CAPACITY && entryCount <= Capacity() / 4;
      if underloaded {
        HalfSize(Log2());
        NextSizes(Log2());
        var _ := ChangeTableSize(Capacity() / 2, allocOk);
      }
    }

    // -------------------------------------------------------------------------------------------
    // Insertion
    // -------------------------------------------------------------------------------------------

    /** findNonLiveSlot on the whole table. */
    method FreshSlot(keyHash: HashNumber) returns (slot: nat)
      requires Consistent() && table != null && entryCount < table.Length
      modifies table
      ensures Consistent() && Map() == old(Map())
      ensures slot < table.Length && !table[slot].IsLive()
      ensures Reachable(table[..], ProberFor(Log2()), keyHash, slot)
      ensures OthersStay(old(table[..]), table[..], table.Length) && Marked(old(table[..]), table[..])
      ensures FirstNonLive(old(table[..]), ProberFor(Log2()), keyHash, slot)
    {
      hide StructOk, Contents, LiveSet, RemovedSet, ProberFor, PreparedBy, PrepareHash, Pow2;
      Counts();
      ProbesStayInside(ProberFor(Log2()), Log2());
      ghost var s := table[..];
      slot := FindNonLiveSlot(table, Log2(), keyHash, ProberFor(Log2()));
      MarkedKeeps(HashOf(), s, table[..], ProberFor(Log2()));
    }

    /**
     * Fills a slot; a recycled tombstone leaves the tombstone count and keeps its collision bit. The table stays well
     * formed exactly if the key was absent and its probe path leads to the slot.
     */
    method Occupy(slot: nat, keyHash: HashNumber, key: K, value: V)
      requires Consistent() && table != null && slot < table.Length && !table[slot].IsLive()
      requires HashesTo(HashOf(), keyHash, key)
      modifies this`entryCount, this`removedCount, table
      ensures table[..] == old(table[..])[slot :=
        Slot(if old(table[slot]).IsRemoved() then WithCollision(keyHash) else keyHash, Some(Entry(key, value)))]
      ensures Consistent() <==> key !in old(Map()) && Homed(slot, key)
      ensures Consistent() ==> Map() == old(Map())[key := value]
      ensures old(Homed(slot, key)) ==> Homed(slot, key)
      ensures entryCount == old(entryCount) + 1
      ensures removedCount == old(removedCount) - (if old(table[slot]).IsRemoved() then 1 else 0)
    {
      hide StructOk, Contents, LiveSet, RemovedSet, ProberFor, PreparedBy, PrepareHash, Pow2;
      ghost var s := table[..];
      var h := keyHash;
      if table[slot].IsRemoved() {
        RemovedIsCounted(table[..], slot);
        removedCount := removedCount - 1;
        h := WithCollision(keyHash);
      }
      FilledAnyway(HashOf(), s, ProberFor(Log2()), slot, Slot(h, Some(Entry(key, value))));
      table[slot] := Slot(h, Some(Entry(key, value)));
      assert table[..] == s[slot := Slot(h, Some(Entry(key, value)))];
      entryCount := entryCount + 1;
    }

    /** putNewInfallibleInternal: needs only that some slot is not live. */
    method PutNewInfallibleInternal(key: K, value: V)
      requires Consistent() && table != null && entryCount < table.Length
      requires key !in Map()
      modifies this`entryCount, this`removedCount, table
      ensures Consistent() && Map() == old(Map())[key := value]
      ensures entryCount == old(entryCount) + 1
      ensures removedCount <= old(removedCount)
      ensures OthersStay(old(table[..]), table[..], table.Length)
      ensures PutFirst(old(table[..]), table[..], ProberFor(Log2()), HashOf()(key), Entry(key, value))
    {
      hide StructOk, Contents, LiveSet, RemovedSet, ProberFor, PreparedBy, PrepareHash, Pow2, PutFirst, FirstNonLive;
      PreparedAt(hasher, key);
      PreparedIsLive(hasher, key);
      ProbesStayInside(ProberFor(Log2()), Log2());
      var slot := FreshSlot(PrepareHash(hasher(key)));
      PutAfterMarking(old(table[..]), table[..], ProberFor(Log2()), HashOf()(key), Entry(key, value), slot);
      Occupy(slot, PrepareHash(hasher(key)), key, value);
    }

    /** Works while some slot is not live; with room for one more entry under the load bound, the bound is kept. */
    method PutNewInfallible(key: K, value: V)
      requires Consistent() && table != null && entryCount < table.Length
      requires key !in Map()
      modifies this`entryCount, this`removedCount, table
      ensures Consistent() && Map() == old(Map())[key := value]
      ensures entryCount == old(entryCount) + 1 && removedCount <= old(removedCount)
      ensures 4 * (old(entryCount) + old(removedCount) + 1) <= 3 * Capacity() ==> Valid()
      ensures PutFirst(old(table[..]), table[..], ProberFor(Log2()), HashOf()(key), Entry(key, value))
    {
      hide StructOk, Contents, LiveSet, RemovedSet, ProberFor, PreparedBy, PrepareHash;
      PutNewInfallibleInternal(key, value);
    }

    method PutNew(key: K, value: V, env: Env) returns (ok: bool)
      requires Valid() && key !in Map()
      modifies this, table
      ensures Valid()
      ensures Map() == if ok then old(Map())[key := value] else old(Map())
      ensures env == Env(true, true, true) && 2 * old(entryCount) <= MAX_CAPACITY ==> ok
      ensures table == old(table) || fresh(table)
    {
      hide StructOk, Contents, LiveSet, RemovedSet, ProberFor, PreparedBy, PrepareHash, Pow2;
      if !env.simulatedOk || !env.hashOk {
        return false;
      }
      var status := RehashIfOverloaded(env.allocOk);
      if status == RehashFailed {
        return false;
      }
      PutNewInfallible(key, value);
      ok := true;
    }

    /** Slot can be filled for keyHash without exceeding the load bound. */
    ghost predicate Fillable(slot: nat, keyHash: HashNumber)
      requires Consistent()
      reads this, table
    {
      && table != null && slot < table.Length && !table[slot].IsLive()
      && Reachable(table[..], ProberFor(Log2()), keyHash, slot)
      && 4 * (entryCount + 1 + removedCount - (if table[slot].IsRemoved() then 1 else 0)) <= 3 * Capacity()
    }

    /** add on a table without storage. */
    method SlotInNewStorage(keyHash: HashNumber, env: Env) returns (ok: bool, slot: nat)
      requires Valid() && table == null
      modifies this
      ensures Consistent() && Map() == old(Map()) && entryCount == old(entryCount)
      ensures ok ==> Fillable(slot, keyHash) && fresh(table) && !table[slot].IsRemoved()
      ensures !ok ==> LoadOk() && table == null
      ensures env.allocOk ==> ok
      ensures hashShift == old(hashShift)
    {
      hide StructOk, Contents, LiveSet, RemovedSet, ProberFor, PreparedBy, PrepareHash, Pow2, CeilingLog2;
      slot := 0;
      NextSizes(Log2());
      CapacityIsMultipleOf4(Log2());
      var status := ChangeTableSize(RawCapacity(), env.allocOk);
      ok := status != RehashFailed;
      if ok {
        slot := FreshSlot(keyHash);
        NoneRemoved(table[..]);
      }
    }

    /** add at a free slot, unless the table has to be rebuilt first. */
    method SlotAfterLoadCheck(free: nat, keyHash: HashNumber, env: Env) returns (ok: bool, slot: nat)
      requires Valid() && table != null && free < table.Length && table[free].IsFree()
      requires Reachable(table[..], ProberFor(Log2()), keyHash, free)
      modifies this, table
      ensures Consistent() && Map() == old(Map()) && entryCount == old(entryCount)
      ensures table == old(table) || fresh(table)
      ensures ok ==> Fillable(slot, keyHash) && !table[slot].IsRemoved()
      ensures old(HasRoom()) ==> slot == free && unchanged(this) && Slots() == old(Slots())
      ensures !ok ==> LoadOk()
      ensures env.allocOk && env.simulatedOk && 2 * old(entryCount) <= MAX_CAPACITY ==> ok
      ensures old(hashShift) - 1 <= hashShift <= old(hashShift)
    {
      hide StructOk, Contents, LiveSet, RemovedSet, ProberFor, PreparedBy, PrepareHash, Pow2;
      slot := free;
      var status := RehashIfOverloaded(env.allocOk);
      ok := status != RehashFailed && (status == NotOverloaded ==> env.simulatedOk);
      if status == Rehashed {
        slot := FreshSlot(keyHash);
        NoneRemoved(table[..]);
      }
    }

    /** A tombstone is what add would fill through this pointer. */
    predicate OnTombstone(p: AddPtr)
      reads this, table
    {
      p.slot.Some? && table != null && p.slot.value < table.Length && table[p.slot.value].IsRemoved()
    }

    /** The first half of add: makes sure there is room, and finds the slot to fill. */
    method SlotForAdd(p: AddPtr, ghost key: K, env: Env) returns (ok: bool, slot: nat)
      requires Valid() && DenotesForAdd(p, key) && !Found(Ptr(p.slot)) && IsLiveHash(p.keyHash)
      modifies this, table
      ensures Consistent() && Map() == old(Map()) && entryCount == old(entryCount)
      ensures table == old(table) || fresh(table)
      ensures ok ==> Fillable(slot, p.keyHash) && table[slot].IsRemoved() == old(OnTombstone(p))
      ensures old(OnTombstone(p) || HasRoom()) ==>
        p.slot.Some? && slot == p.slot.value && unchanged(this) && Slots() == old(Slots())
      ensures !ok ==> LoadOk()
      ensures env.allocOk && env.simulatedOk && 2 * old(entryCount) <= MAX_CAPACITY ==> ok
      ensures old(hashShift) - 1 <= hashShift <= old(hashShift)
    {
      hide StructOk, Contents, LiveSet, RemovedSet, ProberFor, PreparedBy, PrepareHash, Pow2;
      if p.slot.None? {
        ok, slot := SlotInNewStorage(p.keyHash, env);
      } else if table[p.slot.value].IsRemoved() {
        // A tombstone turning live does not change the load.
        ok, slot := env.simulatedOk, p.slot.value;
      } else {
        ok, slot := SlotAfterLoadCheck(p.slot.value, p.keyHash, env);
      }
    }

    /**
     * add: inserts through the result of a failed lookup for insertion. Recycling a tombstone sets the collision bit
     * in the pointer. Through a pointer that has it set already, the table stays valid exactly if the key was absent
     * and its own probe path leads to the slot.
     */
    method Add(p: AddPtr, key: K, value: V, env: Env) returns (ok: bool, p': AddPtr)
      requires Valid() && DenotesForAdd(p, key) && !Found(Ptr(p.slot))
      modifies this, table
      ensures ShiftOk() && (table == old(table) || fresh(table))
      ensures old(hashShift) - 1 <= hashShift <= old(hashShift)
      ensures !ok ==> Valid() && Map() == old(Map()) && p' == p
      ensures ok ==> IsLiveHash(p.keyHash) && p'.slot.Some?
      ensures ok ==> (Valid() <==> key !in old(Map()) && Homed(p'.slot.value, key))
      ensures ok && Valid() ==> Map() == old(Map())[key := value] && Denotes(Ptr(p'.slot), key)
      ensures ok && !HasCollisionBit(p.keyHash) ==> Valid()
      ensures ok && Log2() <= SAME_PATH_LOG2 ==> Homed(p'.slot.value, key)
      ensures ok ==> p'.keyHash == if old(OnTombstone(p)) then WithCollision(p.keyHash) else p.keyHash
      ensures ok && old(OnTombstone(p) || HasRoom()) ==>
        && p.slot.Some? && p'.slot == p.slot && table == old(table) && hashShift == old(hashShift)
        && PutAt(old(table[..]), table[..], p.keyHash, Entry(key, value), p.slot.value)
      ensures ok ==> entryCount == old(entryCount) + 1
      ensures IsLiveHash(p.keyHash) && env.allocOk && env.simulatedOk && 2 * old(entryCount) <= MAX_CAPACITY ==> ok
    {
      hide StructOk, Contents, LiveSet, RemovedSet, ProberFor, PreparedBy, PrepareHash, Pow2;
      p' := p;
      if !IsLiveHash(p.keyHash) {
        return false, p';
      }
      var slot: nat;
      ok, slot := SlotForAdd(p, key, env);
      if ok {
        var recycled := table[slot].IsRemoved();
        HomeOf(slot, p.keyHash, key);
        Occupy(slot, p.keyHash, key, value);
        p' := AddPtr(Some(slot), if recycled then WithCollision(p.keyHash) else p.keyHash);
      }
    }

    /** Where a slot reached with a hash number of key is on the path of key itself. */
    lemma HomeOf(slot: nat, keyHash: HashNumber, key: K)
      requires Consistent() && Fillable(slot, keyHash) && HashesTo(HashOf(), keyHash, key)
      ensures !HasCollisionBit(keyHash) || Log2() <= SAME_PATH_LOG2 ==> Homed(slot, key)
    {
      hide StructOk, PrepareHash, PreparedBy, Pow2, Reachable, ProberFor, LiveSet, RemovedSet, Contents;
      ProbesStayInside(ProberFor(Log2()), Log2());
      if HasCollisionBit(keyHash) && Log2() <= SAME_PATH_LOG2 {
        SameReach(table[..], Log2(), HashOf()(key), slot);
      }
    }

    /** The first slot that is not live on this path is a tombstone. */
    ghost predicate TombstoneFirst(keyHash: HashNumber)
      requires Consistent()
      reads this, table
    {
      table != null && exists t: nat :: FirstNonLive(table[..], ProberFor(Log2()), keyHash, t) && table[t].IsRemoved()
    }

    /** The first half of relookupOrAdd: looks for the key again. */
    method Relookup(p: AddPtr, key: K) returns (p': AddPtr)
      requires Valid() && HashesTo(HashOf(), p.keyHash, key)
      modifies table
      ensures Valid() && Map() == old(Map()) && DenotesForAdd(p', key) && p'.keyHash == p.keyHash
      ensures table != null && !Found(Ptr(p'.slot)) ==>
        && p'.slot.Some? && Marked(old(table[..]), table[..])
        && Reachable(table[..], ProberFor(Log2()), p.keyHash, p'.slot.value)
        && FirstNonLive(old(table[..]), ProberFor(Log2()), p.keyHash, p'.slot.value)
      ensures !Found(Ptr(p'.slot)) ==> OnTombstone(p') == old(TombstoneFirst(p.keyHash))
    {
      hide StructOk, Contents, LiveSet, RemovedSet, ProberFor, PreparedBy, PrepareHash, Pow2, FirstNonLive, Reachable;
      if table == null {
        return p.(slot := None);
      }
      ghost var s := table[..];
      var slot := LookupForAddSlot(key, p.keyHash);
      p' := p.(slot := Some(slot));
      if !Found(Ptr(p'.slot)) {
        MarkedSlot(s, table[..], slot);
        ProbesStayInside(ProberFor(Log2()), Log2());
        FirstNonLiveUnique(s, ProberFor(Log2()), p.keyHash, slot);
      }
    }

    /**
     * relookupOrAdd: p is the result of an earlier LookupForAddPtr(key), or what earlier calls have made of it; the
     * table may have changed since. An existing entry is kept as it is, unless the collision bit is set in p: then it
     * is not found.
     */
    method RelookupOrAdd(p: AddPtr, key: K, value: V, env: Env) returns (ok: bool, p': AddPtr)
      requires Valid() && (IsLiveHash(p.keyHash) ==> HashesTo(HashOf(), p.keyHash, key))
      modifies this, table
      ensures ShiftOk() && (table == old(table) || fresh(table))
      ensures old(hashShift) - 1 <= hashShift <= old(hashShift)
      ensures !ok ==> Valid() && Map() == old(Map())
      ensures !HasCollisionBit(p.keyHash) ==>
        && Valid() && Map() == (if ok && key !in old(Map()) then old(Map())[key := value] else old(Map()))
        && (ok ==> Denotes(Ptr(p'.slot), key) && key in Map())
      ensures ok && HasCollisionBit(p.keyHash) ==>
        && entryCount == old(entryCount) + 1
        && p'.slot.Some? && (Valid() <==> key !in old(Map()) && Homed(p'.slot.value, key))
        && (Valid() ==> Map() == old(Map())[key := value] && Denotes(Ptr(p'.slot), key))
        && (Log2() <= SAME_PATH_LOG2 ==> Homed(p'.slot.value, key))
      ensures WithoutCollision(p'.keyHash) == WithoutCollision(p.keyHash)
      ensures IsLiveHash(p'.keyHash) == IsLiveHash(p.keyHash)
      ensures old(MayReuse(p, key)) ==> Valid()
      ensures ok && old(Log2()) < SAME_PATH_LOG2 ==> (Valid() <==> old(MayReuse(p, key)))
      ensures ok && HasCollisionBit(p.keyHash) && key in old(Map()) ==> !Valid()
      ensures HasCollisionBit(p'.keyHash) <==>
        HasCollisionBit(p.keyHash) || (ok && key !in old(Map()) && old(TombstoneFirst(p.keyHash)))
      ensures
        var adds := HasCollisionBit(p.keyHash) || key !in old(Map());
        ok && adds && old(TombstoneFirst(p.keyHash) || HasRoom()) ==>
        && table == old(table) && hashShift == old(hashShift)
        && PutFirst(old(table[..]), table[..], ProberFor(Log2()), p.keyHash, Entry(key, value))
      ensures !IsLiveHash(p.keyHash) ==> !ok
      ensures IsLiveHash(p.keyHash) && !HasCollisionBit(p.keyHash) && key in old(Map()) ==> ok
      ensures IsLiveHash(p.keyHash) && env.allocOk && env.simulatedOk && 2 * old(entryCount) <= MAX_CAPACITY ==> ok
    {
      hide StructOk, Contents, LiveSet, RemovedSet, ProberFor, PreparedBy, PrepareHash, Pow2;
      p' := p;
      if !IsLiveHash(p.keyHash) {
        return false, p';
      }
      p' := Relookup(p, key);
      if Found(Ptr(p'.slot)) {
        return true, p';
      }
      ghost var found, s := p', Slots();
      ProbesStayInside(ProberFor(Log2()), Log2());
      ok, p' := Add(p', key, value, env);
      if ok && old(TombstoneFirst(p.keyHash) || HasRoom()) {
        PutOnMarked(old(table[..]), s, table[..], ProberFor(Log2()), p.keyHash, Entry(key, value), found.slot.value);
      }
    }

    /**
     * When relookupOrAdd may be called with a pointer again: its collision bit is clear; or the key is absent, and the
     * table is so small that even doubled it is probed in the same order with the bit set.
     */
    ghost predicate MayReuse(p: AddPtr, key: K)
      requires Consistent()
      reads this, table
    {
      !HasCollisionBit(p.keyHash) || (Log2() < SAME_PATH_LOG2 && key !in Map())
    }

    // -------------------------------------------------------------------------------------------
    // Removal
    // -------------------------------------------------------------------------------------------

    /** A slot with the collision bit becomes a tombstone, one without it becomes free at once. */
    method RemoveSlot(slot: nat)
      requires Consistent() && table != null && slot < table.Length && table[slot].IsLive()
      modifies this`entryCount, this`removedCount, table
      ensures Consistent()
      ensures Map() == old(Map()) - {old(table[slot].entry.value.key)}
      ensures old(entryCount) > 0 && entryCount == old(entryCount) - 1
      ensures removedCount == old(removedCount) + (if old(table[slot]).HasCollision() then 1 else 0)
      ensures table[..] == old(table[..])[slot := Vacated(old(table[slot]))]
    {
      hide StructOk, Contents, LiveSet, RemovedSet, ProberFor, PreparedBy, PrepareHash, Pow2;
      ghost var s := table[..];
      VacatedKeeps(HashOf(), s, ProberFor(Log2()), slot);
      LiveIsCounted(s, slot);
      if table[slot].HasCollision() {
        table[slot] := RemovedSlot();
        removedCount := removedCount + 1;
      } else {
        table[slot] := FreeSlot();
      }
      assert table[..] == s[slot := Vacated(s[slot])];
      entryCount := entryCount - 1;
    }

    method Remove(p: Ptr, allocOk: bool)
      requires Valid() && Found(p)
      modifies this, table
      ensures Valid() && Map() == old(Map()) - {old(table[p.slot.value].entry.value.key)}
      ensures table == old(table) || fresh(table)
      ensures !allocOk ==> Slots() == old(Slots())[p.slot.value := Vacated(old(table[p.slot.value]))]
      ensures !allocOk ==> table == old(table) && hashShift == old(hashShift)
    {
      hide StructOk, Contents, LiveSet, RemovedSet, ProberFor, PreparedBy, PrepareHash, Pow2;
      RemoveSlot(p.slot.value);
      ShrinkIfUnderloaded(allocOk);
    }

    method Clear()
      requires Valid()
      modifies this`entryCount, this`removedCount, table
      ensures Valid() && Map() == map[]
    {
      hide StructOk, Contents, LiveSet, RemovedSet, ProberFor, PreparedBy, PrepareHash, Pow2;
      if table != null {
        ClearSlots(table);
        ProbesStayInside(ProberFor(Log2()), Log2());
        AllFreeOk(HashOf(), table[..], ProberFor(Log2()));
      }
      removedCount := 0;
      entryCount := 0;
    }

    /** Shrinks to the smallest capacity for the present entries, or frees the storage of an empty table. */
    method Compact(allocOk: bool)
      requires Valid()
      modifies this, table
      ensures Valid() && Map() == old(Map())
      ensures table == null || table == old(table) || fresh(table)
      ensures Map() == map[] ==> table == null
      ensures Map() != map[] && allocOk ==> Capacity() == BestCapacity(|Map()|)
    {
      hide StructOk, Contents, LiveSet, RemovedSet, ProberFor, PreparedBy, PrepareHash, Pow2, CeilingLog2, BestCapacity;
      Counts();
      if entryCount == 0 {
        table := null;
        gen := NextGen(gen);
        BestCapacityFits(0);
        hashShift := HashShift(CeilingLog2(BestCapacity(0)));
        removedCount := 0;
        return;
      }
      NextSizes(Log2());
      BestCapacityFits(entryCount);
      BestCapacityLeast(entryCount, Log2());
      var bestCapacity := BestCapacity(entryCount);
      if bestCapacity < Capacity() {
        var _ := ChangeTableSize(bestCapacity, allocOk);
      }
    }

    method ClearAndCompact(allocOk: bool)
      requires Valid()
      modifies this, table
      ensures Valid() && Map() == map[] && table == null
    {
      Clear();
      Compact(allocOk);
    }

    /** Afterwards len entries fit under the load limit, as far as capacity goes. */
    method Reserve(len: nat, allocOk: bool) returns (ok: bool)
      requires Valid()
      modifies this, table
      ensures Valid() && Map() == old(Map())
      ensures table == old(table) || fresh(table)
      ensures ok <==> len == 0 || (len <= MAX_INIT && (BestCapacity(len) <= old(Capacity()) || allocOk))
      ensures ok && len > 0 ==> BestCapacity(len) <= Capacity() && Holds(Capacity(), len)
      ensures ok && old(removedCount) == 0 ==> removedCount == 0
    {
      hide StructOk, Contents, LiveSet, RemovedSet, ProberFor, PreparedBy, PrepareHash, Pow2;
      if len == 0 {
        return true;
      }
      if len > MAX_INIT {
        return false;
      }
      BestCapacityFits(len);
      MaxCapacityIsPow2();
      Counts();
      var bestCapacity := BestCapacity(len);
      if bestCapacity <= Capacity() {
        return true;
      }
      BestCapacityLegal(len);
      var status := ChangeTableSize(bestCapacity, allocOk);
      ok := status != RehashFailed;
    }

    // -------------------------------------------------------------------------------------------
    // Rekeying
    // -------------------------------------------------------------------------------------------

    /** Removing first guarantees a slot that is not live, even if no slot is free. */
    method RekeyWithoutRehash(slot: nat, newKey: K)
      requires Consistent() && table != null && slot < table.Length && table[slot].IsLive()
      requires newKey !in Map() - {table[slot].entry.value.key}
      modifies this`entryCount, this`removedCount, table
      ensures Consistent() && entryCount == old(entryCount)
      ensures
        var key := old(table[slot].entry.value.key);
        key in old(Map()) && Map() == (old(Map()) - {key})[newKey := old(Map())[key]]
      ensures OthersStay(old(table[..]), table[..], slot)
    {
      hide StructOk, Contents, LiveSet, RemovedSet, ProberFor, PreparedBy, PrepareHash, Pow2;
      Counts();
      LiveBinding(HashOf(), table[..], ProberFor(Log2()), slot);
      var value := table[slot].entry.value.value;
      RemoveSlot(slot);
      PutNewInfallibleInternal(newKey, value);
    }

    method RekeyAndMaybeRehash(slot: nat, newKey: K, allocOk: bool)
      requires Valid() && table != null && slot < table.Length && table[slot].IsLive()
      requires newKey !in Map() - {table[slot].entry.value.key}
      modifies this, table
      ensures Valid()
      ensures table == old(table) || fresh(table)
      ensures
        var key := old(table[slot].entry.value.key);
        key in old(Map()) && Map() == (old(Map()) - {key})[newKey := old(Map())[key]]
    {
      hide StructOk, Contents, LiveSet, RemovedSet, ProberFor, PreparedBy, PrepareHash;
      RekeyWithoutRehash(slot, newKey);
      InfallibleRehashIfOverloaded(allocOk);
    }

    // -------------------------------------------------------------------------------------------
    // HashMap
    // -------------------------------------------------------------------------------------------

    method SetValue(slot: nat, value: V)
      requires Valid() && table != null && slot < table.Length && table[slot].IsLive()
      modifies table
      ensures Valid() && Map() == old(Map())[old(table[slot].entry.value.key) := value]
    {
      hide StructOk, Contents, LiveSet, RemovedSet, ProberFor, PreparedBy, PrepareHash, Pow2;
      ghost var s := table[..];
      OverwrittenKeeps(HashOf(), s, ProberFor(Log2()), slot, value);
      LiveBinding(HashOf(), s, ProberFor(Log2()), slot);
      table[slot] := Slot(table[slot].keyHash, Some(Entry(table[slot].entry.value.key, value)));
      assert table[..] == s[slot := Slot(s[slot].keyHash, Some(Entry(s[slot].entry.value.key, value)))];
    }

    /** HashMap::put: overwrite, or else add. */
    method Put(key: K, value: V, env: Env) returns (ok: bool)
      requires Valid()
      modifies this, table
      ensures Valid()
      ensures Map() == if ok then old(Map())[key := value] else old(Map())
      ensures env == Env(true, true, true) && 2 * old(entryCount) <= MAX_CAPACITY ==> ok
      ensures env.hashOk && key in old(Map()) ==> ok
      ensures table == old(table) || fresh(table)
    {
      hide StructOk, Contents, LiveSet, RemovedSet, ProberFor, PreparedBy, PrepareHash, Pow2;
      var p := LookupForAddPtr(key, env);
      if Found(Ptr(p.slot)) {
        SetValue(p.slot.value, value);
        return true;
      }
      ok, p := Add(p, key, value, env);
    }

    /** HashMap::remove. */
    method RemoveKey(key: K, allocOk: bool)
      requires Valid()
      modifies this, table
      ensures Valid() && Map() == old(Map()) - {key}
      ensures table == old(table) || fresh(table)
      ensures !allocOk ==> table == old(table) && hashShift == old(hashShift)
      ensures !allocOk && key in old(Map()) ==> TakenOut(old(Slots()), Slots(), key)
    {
      hide StructOk, Contents, LiveSet, RemovedSet, ProberFor, PreparedBy, PrepareHash, Pow2;
      var p := Lookup(key);
      if Found(p) {
        Remove(p, allocOk);
      }
    }

    /** HashMap::rekeyAs; the new key is absent, or is the old key itself. */
    method RekeyAs(oldKey: K, newKey: K, allocOk: bool) returns (found: bool)
      requires Valid() && newKey !in Map() - {oldKey}
      modifies this, table
      ensures Valid()
      ensures found <==> oldKey in old(Map())
      ensures Map() == if found then (old(Map()) - {oldKey})[newKey := old(Map())[oldKey]] else old(Map())
      ensures table == old(table) || fresh(table)
    {
      hide StructOk, Contents, LiveSet, RemovedSet, ProberFor, PreparedBy, PrepareHash, Pow2;
      var p := Lookup(oldKey);
      found := Found(p);
      if found {
        RekeyAndMaybeRehash(p.slot.value, newKey, allocOk);
      }
    }
  }

  /** In a table of up to 2^16 slots, what is reached with the collision bit set is reached without. */
  lemma SameReach<K, V>(s: Slots<K, V>, log2: nat, h: HashNumber, t: nat)
    requires log2 <= SAME_PATH_LOG2 && h % 2 == 0 && ProbesInside(ProberFor(log2), |s|)
    requires Reachable(s, ProberFor(log2), WithCollision(h), t)
    ensures Reachable(s, ProberFor(log2), h, t)
  {
    var probe := ProberFor(log2);
    forall i: nat ensures probe(WithCollision(h), i) == probe(h, i) {
      assert probe(h, i) == Probe(h, log2, i) && probe(WithCollision(h), i) == Probe(WithCollision(h), log2, i);
      SamePath(h, log2, i);
    }
    var d: nat :| probe(WithCollision(h), d) == t && PathMarked(s, probe, WithCollision(h), d);
    assert PathMarked(s, probe, h, d);
  }

  lemma NoneRemoved<K, V>(s: Slots<K, V>)
    requires |RemovedSet(s)| == 0
    ensures forall i :: 0 <= i < |s| ==> !s[i].IsRemoved()
  {
    forall i | 0 <= i < |s| ensures !s[i].IsRemoved() {
      assert i !in RemovedSet(s);
    }
  }

  /** All that filling a slot that is not live does. */
  lemma FilledAnyway<K, V>(hashOf: K -> HashNumber, s: Slots<K, V>, probe: Prober, t: nat, slot: Slot<K, V>)
    requires StructOk(hashOf, s, probe) && t < |s| && !s[t].IsLive()
    requires slot.IsLive() && slot.entry.Some? && slot.KeyHash() == hashOf(slot.entry.value.key)
    requires s[t].IsRemoved() ==> slot.HasCollision()
    ensures ProbesInside(probe, |s|) && UniqueKeys(s)
    ensures var s', key := s[t := slot], slot.entry.value.key;
      && (StructOk(hashOf, s', probe) <==> key !in Contents(s) && Reachable(s', probe, hashOf(key), t))
      && (Reachable(s, probe, hashOf(key), t) ==> Reachable(s', probe, hashOf(key), t))
      && |LiveSet(s')| == |LiveSet(s)| + 1
      && |RemovedSet(s')| == |RemovedSet(s)| - (if s[t].IsRemoved() then 1 else 0)
    ensures var s', entry := s[t := slot], slot.entry.value;
      StructOk(hashOf, s', probe) ==> UniqueKeys(s') && Contents(s') == Contents(s)[entry.key := entry.value]
  {
    hide Contents, Reachable, LiveSet, RemovedSet, Slot.KeyHash;
    FilledIff(hashOf, s, probe, t, slot);
    FilledSets(s, t, slot);
    if StructOk(hashOf, s[t := slot], probe) {
      FilledContents(s, t, slot);
    }
    if Reachable(s, probe, slot.KeyHash(), t) {
      ReachableMono(s, s[t := slot], probe, slot.KeyHash(), t);
    }
  }

  lemma LiveBinding<K, V>(hashOf: K -> HashNumber, s: Slots<K, V>, probe: Prober, i: nat)
    requires StructOk(hashOf, s, probe) && i < |s| && s[i].IsLive()
    ensures s[i].entry.Some? && s[i].entry.value.key in Contents(s)
    ensures Contents(s)[s[i].entry.value.key] == s[i].entry.value.value
  {
    ContentsAt(s, i);
  }

  lemma LiveIsCounted<K, V>(s: Slots<K, V>, i: nat)
    requires i < |s| && s[i].IsLive()
    ensures |LiveSet(s)| > 0
  {
    assert i in LiveSet(s);
  }

  lemma StructCounts<K, V>(hashOf: K -> HashNumber, s: Slots<K, V>, probe: Prober)
    requires StructOk(hashOf, s, probe)
    ensures |LiveSet(s)| == |Contents(s)|
    ensures |LiveSet(s)| + |RemovedSet(s)| <= |s|
    ensures RemovedSet(s) == {} ==> |RemovedSet(s)| == 0
  {
    LiveCountIsMapSize(s);
    CountsBound(s);
  }

  lemma PreparedIsLive<K>(hasher: K -> HashNumber, k: K)
    ensures IsLiveHash(PrepareHash(hasher(k))) && !HasCollisionBit(PrepareHash(hasher(k)))
  {
  }

  lemma RemovedIsCounted<K, V>(s: Slots<K, V>, i: nat)
    requires i < |s| && s[i].IsRemoved()
    ensures |RemovedSet(s)| > 0
  {
    assert i in RemovedSet(s);
  }
}
